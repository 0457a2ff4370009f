/**
 The identity firewall: per-DID policies, a default for unknown DIDs, and a
 30-second decision cache in front of them. Calls run one at a time and take one
 clock reading each; policies are values, so a caller cannot change one behind the
 cache. Times are nanoseconds, with 0 for Go's zero time.
 */
module ZtnaFirewall {
  import opened KeyText

  const TTL := 30_000_000_000
  const ZERO_TIME := 0

  datatype Policy = Policy(did: string, allowInbound: bool, allowOutbound: bool, allowRelay: bool,
                           allowedPorts: seq<nat>, createdAt: int, expiresAt: int)

  datatype Decision = Accept | DropDefaultDeny | DropACL

  datatype Reason = NotAuthorized | Permissive | Expired | InboundDenied | OutboundDenied | PortDenied | PolicyMatch

  datatype Verdict = Verdict(decision: Decision, reason: Reason)

  datatype Cached = Cached(verdict: Verdict, expires: int)

  type Policies = map<string, Policy>

  // ---------------------------------------------------------------------
  // The rule without the cache
  // ---------------------------------------------------------------------

  predicate HasExpired(p: Policy, now: int) {
    p.expiresAt != ZERO_TIME && now > p.expiresAt
  }

  function Rule(policies: Policies, defaultDeny: bool, did: string, port: nat, inbound: bool, now: int): Verdict {
    if did !in policies then
      if defaultDeny then Verdict(DropDefaultDeny, NotAuthorized) else Verdict(Accept, Permissive)
    else
      var p := policies[did];
      if HasExpired(p, now) then Verdict(DropACL, Expired)
      else if inbound && !p.allowInbound then Verdict(DropACL, InboundDenied)
      else if !inbound && !p.allowOutbound then Verdict(DropACL, OutboundDenied)
      else if inbound && |p.allowedPorts| > 0 && port !in p.allowedPorts then Verdict(DropACL, PortDenied)
      else Verdict(Accept, PolicyMatch)
  }

  /** Time changes an answer only by expiring that DID's policy. */
  lemma RuleChangesOnlyByExpiry(policies: Policies, defaultDeny: bool, did: string, port: nat, inbound: bool, t: int, now: int)
    requires t <= now
    requires Rule(policies, defaultDeny, did, port, inbound, t) != Rule(policies, defaultDeny, did, port, inbound, now)
    ensures did in policies && policies[did].expiresAt != ZERO_TIME && t <= policies[did].expiresAt < now
    ensures Rule(policies, defaultDeny, did, port, inbound, now) == Verdict(DropACL, Expired)
  {
  }

  /** What an accepted packet rests on at `t`: a live policy for its direction and port, or the absence of both policy and default deny. */
  predicate Backed(policies: Policies, defaultDeny: bool, did: string, port: nat, inbound: bool, t: int) {
    if did in policies then
      var p := policies[did];
      && (p.expiresAt == 0 || t <= p.expiresAt)
      && (if inbound then p.allowInbound && (p.allowedPorts == [] || port in p.allowedPorts) else p.allowOutbound)
    else !defaultDeny
  }

  lemma AcceptIsBacked(policies: Policies, defaultDeny: bool, did: string, port: nat, inbound: bool, t: int)
    ensures Rule(policies, defaultDeny, did, port, inbound, t).decision == Accept
            <==> Backed(policies, defaultDeny, did, port, inbound, t)
  {
  }

  /** Each answer in terms of the policies alone: which check fails first decides the reason. */
  lemma RuleExactly(policies: Policies, defaultDeny: bool, did: string, port: nat, inbound: bool, t: int)
    ensures var v := Rule(policies, defaultDeny, did, port, inbound, t);
            && (v.decision == DropDefaultDeny <==> did !in policies && defaultDeny)
            && (v.reason == NotAuthorized <==> v.decision == DropDefaultDeny)
            && (v.reason == Permissive <==> did !in policies && !defaultDeny)
            && (v.reason == Expired <==> did in policies && policies[did].expiresAt != 0 && policies[did].expiresAt < t)
            && (v.reason == InboundDenied ==> inbound && !policies[did].allowInbound)
            && (v.reason == OutboundDenied ==> !inbound && !policies[did].allowOutbound)
            && (v.reason == PortDenied ==> inbound && policies[did].allowInbound && port !in policies[did].allowedPorts)
            && (v.reason in {Permissive, PolicyMatch} <==> v.decision == Accept)
            && (did in policies && v.decision != Accept ==> v.decision == DropACL)
  {
  }

  function Admitted(policies: Policies, defaultDeny: bool, did: string, now: int): bool {
    if did !in policies then !defaultDeny
    else if HasExpired(policies[did], now) then false
    else policies[did].allowInbound
  }

  /** The session gate opens for a DID exactly when the rule accepts it inbound on some port. */
  lemma AdmittedMeansSomePort(policies: Policies, defaultDeny: bool, did: string, now: int)
    ensures Admitted(policies, defaultDeny, did, now) <==>
            exists port: nat :: Rule(policies, defaultDeny, did, port, true, now).decision == Accept
  {
    if Admitted(policies, defaultDeny, did, now) {
      var port := if did in policies && policies[did].allowedPorts != [] then policies[did].allowedPorts[0] else 0;
      assert Rule(policies, defaultDeny, did, port, true, now).decision == Accept;
    }
  }

  // ---------------------------------------------------------------------
  // The firewall as code
  // ---------------------------------------------------------------------

  class ZTNAFirewall {
    var defaultDeny: bool
    var policies: Policies
    var policyCache: map<string, Cached>
    var cacheCleanup: int
    var packetsEvaluated: nat
    var packetsAccepted: nat
    var packetsDroppedDD: nat
    var packetsDroppedACL: nat

    /** The latest clock reading any call has taken. */
    ghost var clock: int

    /** A cache entry for a query is the rule's answer at the moment it was stored. */
    ghost predicate Faithful(did: string, port: nat, inbound: bool)
      reads this
    {
      var key := DecisionKey(did, port, inbound);
      key in policyCache ==>
        && policyCache[key].expires - TTL <= clock
        && policyCache[key].verdict == Rule(policies, defaultDeny, did, port, inbound, policyCache[key].expires - TTL)
    }

    ghost predicate Valid()
      reads this
    {
      && (forall did, port, inbound :: Faithful(did, port, inbound))
      && packetsAccepted + packetsDroppedDD + packetsDroppedACL <= packetsEvaluated
    }

    constructor (defaultDeny: bool, now: int)
      ensures Valid() && clock == now
      ensures this.defaultDeny == defaultDeny && policies == map[] && policyCache == map[]
    {
      this.defaultDeny := defaultDeny;
      policies, policyCache := map[], map[];
      cacheCleanup := now + TTL;
      packetsEvaluated, packetsAccepted, packetsDroppedDD, packetsDroppedACL := 0, 0, 0, 0;
      clock := now;
    }

    method SetDefaultDeny(enabled: bool)
      requires Valid()
      modifies `defaultDeny, `policyCache
      ensures Valid() && defaultDeny == enabled
    {
      defaultDeny := enabled;
      policyCache := map[];
    }

    method AuthorizeDID(p: Policy, now: int)
      requires Valid()
      modifies `policies, `policyCache
      ensures Valid() && policies == old(policies)[p.did := Stamped(p, now)]
    {
      policies := policies[p.did := Stamped(p, now)];
      policyCache := map[];
    }

    method RevokeDID(did: string)
      requires Valid()
      modifies `policies, `policyCache
      ensures Valid() && policies == old(policies) - {did}
    {
      policies := policies - {did};
      policyCache := map[];
    }

    method AuthorizeDIDsBatch(ps: seq<Policy>, now: int)
      requires Valid()
      modifies `policies, `policyCache
      ensures Valid() && policies == AllAuthorized(old(policies), ps, now)
    {
      var i := 0;
      while i < |ps|
        invariant 0 <= i <= |ps|
        invariant policies == AllAuthorized(old(policies), ps[..i], now)
      {
        assert ps[..i + 1][..i] == ps[..i];
        policies := policies[ps[i].did := Stamped(ps[i], now)];
        i := i + 1;
      }
      assert ps[..i] == ps;
      policyCache := map[];
    }

    method RevokeDIDsBatch(dids: seq<string>)
      requires Valid()
      modifies `policies, `policyCache
      ensures Valid() && policies == old(policies) - Elements(dids)
    {
      var i := 0;
      while i < |dids|
        invariant 0 <= i <= |dids|
        invariant policies == old(policies) - Elements(dids[..i])
      {
        policies := policies - {dids[i]};
        assert Elements(dids[..i + 1]) == Elements(dids[..i]) + {dids[i]};
        i := i + 1;
      }
      assert dids[..i] == dids;
      policyCache := map[];
    }

    method IsAllowed(did: string, now: int) returns (ok: bool)
      ensures ok == Admitted(policies, defaultDeny, did, now)
    {
      if did !in policies {
        return !defaultDeny;
      }
      var p := policies[did];
      if p.expiresAt != ZERO_TIME && now > p.expiresAt {
        return false;
      }
      return p.allowInbound;
    }

    /** Drops stale entries, at most once per cleanup period; what stays is unchanged. */
    method CleanupExpiredCache(now: int)
      modifies `policyCache, `cacheCleanup
      ensures forall k | k in policyCache :: k in old(policyCache) && policyCache[k] == old(policyCache)[k]
      ensures forall k | k in old(policyCache) && now <= old(policyCache)[k].expires :: k in policyCache
      ensures now >= old(cacheCleanup) ==> forall k | k in policyCache :: now <= policyCache[k].expires
      ensures cacheCleanup == if now < old(cacheCleanup) then old(cacheCleanup) else now + 30_000_000_000
    {
      if now < cacheCleanup {
        return;
      }
      cacheCleanup := now + TTL;
      var rest := policyCache.Keys;
      while rest != {}
        invariant rest <= policyCache.Keys <= old(policyCache).Keys
        invariant cacheCleanup == now + TTL
        invariant forall k | k in policyCache :: policyCache[k] == old(policyCache)[k]
        invariant forall k | k in old(policyCache) && now <= old(policyCache)[k].expires :: k in policyCache
        invariant forall k | k in policyCache && k !in rest :: now <= policyCache[k].expires
        decreases |rest|
      {
        var k :| k in rest;
        rest := rest - {k};
        if now > policyCache[k].expires {
          policyCache := policyCache - {k};
        }
      }
    }

    /** A cached answer that has not expired. */
    predicate Hit(did: string, port: nat, inbound: bool, now: int)
      reads `policyCache
    {
      var key := DecisionKey(did, port, inbound);
      key in policyCache && now < policyCache[key].expires
    }

    /** The uncached decision, with its counters. */
    method Decide(did: string, port: nat, inbound: bool, now: int) returns (v: Verdict)
      modifies `packetsAccepted, `packetsDroppedDD, `packetsDroppedACL
      ensures v == Rule(policies, defaultDeny, did, port, inbound, now)
      ensures packetsAccepted == old(packetsAccepted) + (if v.decision == Accept then 1 else 0)
      ensures packetsDroppedDD == old(packetsDroppedDD) + (if v.decision == DropDefaultDeny then 1 else 0)
      ensures packetsDroppedACL == old(packetsDroppedACL) + (if v.decision == DropACL then 1 else 0)
    {
      if did !in policies {
        if defaultDeny {
          packetsDroppedDD := packetsDroppedDD + 1;
          return Verdict(DropDefaultDeny, NotAuthorized);
        }
        packetsAccepted := packetsAccepted + 1;
        return Verdict(Accept, Permissive);
      }
      var policy := policies[did];
      if policy.expiresAt != ZERO_TIME && now > policy.expiresAt {
        packetsDroppedACL := packetsDroppedACL + 1;
        return Verdict(DropACL, Expired);
      }
      if inbound && !policy.allowInbound {
        packetsDroppedACL := packetsDroppedACL + 1;
        return Verdict(DropACL, InboundDenied);
      }
      if !inbound && !policy.allowOutbound {
        packetsDroppedACL := packetsDroppedACL + 1;
        return Verdict(DropACL, OutboundDenied);
      }
      if inbound && |policy.allowedPorts| > 0 {
        var portAllowed := Lists(policy.allowedPorts, port);
        if !portAllowed {
          packetsDroppedACL := packetsDroppedACL + 1;
          return Verdict(DropACL, PortDenied);
        }
      }
      packetsAccepted := packetsAccepted + 1;
      return Verdict(Accept, PolicyMatch);
    }

    /**
     Every answer is the rule's answer, on the policies as they are now, at some
     instant of the last thirty seconds; it differs from the rule's answer now only
     if that DID's policy ran out since; an accepted packet was backed at that
     instant, and with default deny its DID still has a policy.
     */
    method Eval(did: string, port: nat, inbound: bool, now: int) returns (v: Verdict)
      requires Valid() && clock <= now
      modifies this
      ensures Valid() && clock == now
      ensures policies == old(policies) && defaultDeny == old(defaultDeny)
      ensures exists t :: now - 30_000_000_000 < t <= now && Rule(policies, defaultDeny, did, port, inbound, t) == v
                          && (v.decision == Accept <==> Backed(policies, defaultDeny, did, port, inbound, t))
      ensures v != Rule(policies, defaultDeny, did, port, inbound, now) ==>
                did in policies && policies[did].expiresAt != ZERO_TIME && now - 30_000_000_000 < policies[did].expiresAt < now
      ensures defaultDeny && v.decision == Accept ==> did in policies
      ensures packetsEvaluated == old(packetsEvaluated) + 1
      ensures var n := if old(Hit(did, port, inbound, now)) then 0 else 1;
              && packetsAccepted == old(packetsAccepted) + (if v.decision == Accept then n else 0)
              && packetsDroppedDD == old(packetsDroppedDD) + (if v.decision == DropDefaultDeny then n else 0)
              && packetsDroppedACL == old(packetsDroppedACL) + (if v.decision == DropACL then n else 0)
      ensures !old(Hit(did, port, inbound, now)) ==> v == Rule(policies, defaultDeny, did, port, inbound, now)
      ensures Hit(did, port, inbound, now) && policyCache[DecisionKey(did, port, inbound)].verdict == v
    {
      hide Rule, DecisionKey, Backed;
      packetsEvaluated := packetsEvaluated + 1;
      clock := now;
      var cacheKey := DecisionKey(did, port, inbound);
      assert old(Faithful(did, port, inbound));
      if cacheKey in policyCache && now < policyCache[cacheKey].expires {
        v := policyCache[cacheKey].verdict;
        ghost var t := policyCache[cacheKey].expires - TTL;
        AnswerInWindow(did, port, inbound, t, now);
        StillFaithful();
        return;
      }
      CleanupExpiredCache(now);
      v := Decide(did, port, inbound, now);
      StillFaithful();
      Store(did, port, inbound, v, now);
      AnswerInWindow(did, port, inbound, now, now);
    }

    /** `fw.policyCache[cacheKey] = ...`: no other query reads the entry under this key. */
    method Store(did: string, port: nat, inbound: bool, v: Verdict, now: int)
      requires forall d, p, i :: Faithful(d, p, i)
      requires v == Rule(policies, defaultDeny, did, port, inbound, now) && clock == now
      modifies `policyCache
      ensures forall d, p, i :: Faithful(d, p, i)
      ensures policyCache == old(policyCache)[DecisionKey(did, port, inbound) := Cached(v, now + 30_000_000_000)]
    {
      hide Rule, DecisionKey;
      policyCache := policyCache[DecisionKey(did, port, inbound) := Cached(v, now + TTL)];
      forall d, p, i
        ensures Faithful(d, p, i)
      {
        assert old(Faithful(d, p, i));
        if DecisionKey(d, p, i) == DecisionKey(did, port, inbound) {
          DecisionKeyInjective(d, p, i, did, port, inbound);
        }
      }
    }

    twostate lemma StillFaithful()
      requires old(Valid()) && policies == old(policies) && defaultDeny == old(defaultDeny)
      requires forall k | k in policyCache :: k in old(policyCache) && policyCache[k] == old(policyCache)[k]
      requires old(clock) <= clock
      ensures forall did, port, inbound :: Faithful(did, port, inbound)
    {
      hide Rule, DecisionKey;
      forall did, port, inbound
        ensures Faithful(did, port, inbound)
      {
        assert old(Faithful(did, port, inbound));
      }
    }

    lemma AnswerInWindow(did: string, port: nat, inbound: bool, t: int, now: int)
      requires now - TTL < t <= now
      ensures var v := Rule(policies, defaultDeny, did, port, inbound, t);
              && (v != Rule(policies, defaultDeny, did, port, inbound, now) ==>
                    did in policies && policies[did].expiresAt != ZERO_TIME && now - TTL < policies[did].expiresAt < now)
              && (defaultDeny && v.decision == Accept ==> did in policies)
              && (v.decision == Accept <==> Backed(policies, defaultDeny, did, port, inbound, t))
    {
      AcceptIsBacked(policies, defaultDeny, did, port, inbound, t);
    }
  }

  ghost function Elements(dids: seq<string>): set<string> {
    set d | d in dids
  }

  function Stamped(p: Policy, now: int): Policy {
    if p.createdAt == ZERO_TIME then p.(createdAt := now) else p
  }

  function AllAuthorized(policies: Policies, ps: seq<Policy>, now: int): Policies {
    if ps == [] then policies
    else
      var last := ps[|ps| - 1];
      AllAuthorized(policies, ps[..|ps| - 1], now)[last.did := Stamped(last, now)]
  }

  /** A stamp is only ever added. */
  lemma StampedKeepsPolicy(p: Policy, now: int)
    ensures Stamped(p, now).(createdAt := p.createdAt) == p
    ensures Stamped(p, now).createdAt == if p.createdAt == 0 then now else p.createdAt
  {
  }

  /** Of several policies for one DID in a batch the last one stands, and no other DID changes. */
  lemma {:induction false} LastPolicyStands(policies: Policies, ps: seq<Policy>, now: int, did: string)
    ensures var after := AllAuthorized(policies, ps, now);
            if exists i :: 0 <= i < |ps| && ps[i].did == did then
              did in after && exists i :: 0 <= i < |ps| && ps[i].did == did && after[did] == Stamped(ps[i], now)
                                          && forall j | i < j < |ps| :: ps[j].did != did
            else (did in after <==> did in policies) && (did in policies ==> after[did] == policies[did])
  {
    hide Stamped;
    if ps == [] {
    } else {
      var n := |ps| - 1;
      LastPolicyStands(policies, ps[..n], now, did);
      assert forall i | 0 <= i < n :: ps[..n][i] == ps[i];
    }
  }

  method Lists(ports: seq<nat>, port: nat) returns (found: bool)
    ensures found <==> port in ports
  {
    found := false;
    var i := 0;
    while i < |ports|
      invariant 0 <= i <= |ports|
      invariant found <==> port in ports[..i]
    {
      if ports[i] == port {
        found := true;
        break;
      }
      i := i + 1;
    }
  }
}
