/**
 Per-link healing: consecutive losses degrade a link, consecutive good probes
 restore it once the hold-down has run out, and failovers in quick succession
 lengthen the hold-down (RFC 2439 flap damping). Times are nanoseconds on one
 clock, with 0 for Go's zero time; each probe carries one clock reading.
 */
module LinkHealing {
  import opened RingStructure
  import KR = KleinbergRouter

  const SECOND := 1_000_000_000
  const ZERO_TIME := 0
  const HARD_LATENCY_MS := 1500.0
  const FLAP_WINDOW := 10 * SECOND
  const PENALTY_STEP := 2 * SECOND
  const PENALTY_CAP := 30 * SECOND

  /** The thresholds; each probe is judged by those in force when it arrives. */
  datatype Config = Config(maxLosses: int, degradedLatencyMs: real, recoverySuccesses: int)

  predicate Positive(cfg: Config) {
    cfg.maxLosses > 0 && cfg.degradedLatencyMs > 0.0 && cfg.recoverySuccesses > 0
  }

  const STOCK := Config(3, 500.0, 2)

  datatype Probe = Probe(success: bool, latencyMs: real, now: int, cfg: Config)

  ghost predicate AllPositive(h: seq<Probe>) {
    forall i | 0 <= i < |h| :: Positive(h[i].cfg)
  }

  datatype Link = Link(losses: nat, successes: nat, degraded: bool,
                       lastFailover: int, holdDownUntil: int, penalties: nat)

  const NEW_LINK := Link(0, 0, false, ZERO_TIME, ZERO_TIME, 0)

  predicate Good(p: Probe) {
    p.success && p.latencyMs <= HARD_LATENCY_MS && p.latencyMs <= p.cfg.degradedLatencyMs
  }

  /** The counters and the degraded flag after one probe. */
  function Count(l: Link, p: Probe): Link {
    if !p.success then
      l.(losses := l.losses + 1, successes := 0, degraded := l.degraded || l.losses + 1 >= p.cfg.maxLosses)
    else if !Good(p) then
      l.(losses := 0, successes := 0, degraded := true)
    else if l.successes + 1 >= p.cfg.recoverySuccesses && p.now >= l.holdDownUntil then
      l.(losses := 0, successes := l.successes + 1, degraded := false, penalties := 0)
    else
      l.(losses := 0, successes := l.successes + 1)
  }

  predicate Trips(l: Link, p: Probe) {
    (!p.success || p.latencyMs > p.cfg.degradedLatencyMs) && l.degraded
  }

  function Penalty(count: nat): int {
    if count * PENALTY_STEP > PENALTY_CAP then PENALTY_CAP else count * PENALTY_STEP
  }

  /** A tripped link notes the failover, and is held down if the last one was too recent. */
  function NoteFailover(l: Link, now: int): Link {
    if l.lastFailover != ZERO_TIME && now - l.lastFailover < FLAP_WINDOW then
      l.(penalties := l.penalties + 1, holdDownUntil := now + Penalty(l.penalties + 1), lastFailover := now)
    else l.(lastFailover := now)
  }

  function Step(l: Link, p: Probe): Link {
    var c := Count(l, p);
    if Trips(c, p) then NoteFailover(c, p.now) else c
  }

  function LinkAfter(h: seq<Probe>): Link {
    if h == [] then NEW_LINK else Step(LinkAfter(h[..|h| - 1]), h[|h| - 1])
  }

  // ---------------------------------------------------------------------
  // The engine as code
  // ---------------------------------------------------------------------

  /** The thresholds of the whole process. */
  class Tunables {
    var cfg: Config

    constructor ()
      ensures cfg == Config(3, 500.0, 2) && Positive(cfg)
    {
      cfg := STOCK;
    }

    /** `ConfigureLinkHealing`: whatever is not positive is ignored. */
    method Configure(maxLosses: int, degradedLatency: real, recoverySuccesses: int)
      modifies this
      ensures cfg == Config(if maxLosses > 0 then maxLosses else old(cfg).maxLosses,
                            if degradedLatency > 0.0 then degradedLatency else old(cfg).degradedLatencyMs,
                            if recoverySuccesses > 0 then recoverySuccesses else old(cfg).recoverySuccesses)
      ensures old(Positive(cfg)) ==> Positive(cfg)
    {
      if maxLosses > 0 {
        cfg := cfg.(maxLosses := maxLosses);
      }
      if degradedLatency > 0.0 {
        cfg := cfg.(degradedLatencyMs := degradedLatency);
      }
      if recoverySuccesses > 0 {
        cfg := cfg.(recoverySuccesses := recoverySuccesses);
      }
    }
  }

  class PeerHealthStats {
    const did: string
    var consecutiveLosses: nat
    var consecutiveSuccesses: nat
    var lastLatencyMs: real
    var lastEvaluation: int
    var degraded: bool
    var failoverCount: nat
    var lastFailoverTime: int
    var holdDownUntil: int
    var flapPenaltyCount: nat

    /** Every probe of this link, oldest first. */
    ghost var history: seq<Probe>

    ghost function View(): Link
      reads this
    {
      Link(consecutiveLosses, consecutiveSuccesses, degraded, lastFailoverTime, holdDownUntil, flapPenaltyCount)
    }

    /** The record is where its probes put it. */
    ghost predicate Kept()
      reads this
    {
      View() == LinkAfter(history) && AllPositive(history)
    }

    constructor (did: string, now: int)
      ensures Kept() && this.did == did && View() == NEW_LINK && history == [] && failoverCount == 0
    {
      this.did, lastEvaluation := did, now;
      consecutiveLosses, consecutiveSuccesses, lastLatencyMs, degraded := 0, 0, 0.0, false;
      failoverCount, lastFailoverTime, holdDownUntil, flapPenaltyCount := 0, ZERO_TIME, ZERO_TIME, 0;
      history := [];
    }

    /** The counting half of `RecordProbeResult`. */
    method CountProbe(p: Probe)
      requires Positive(p.cfg)
      modifies this
      ensures View() == Count(old(View()), p)
      ensures history == old(history) + [p] && failoverCount == old(failoverCount)
    {
      history := history + [p];
      lastEvaluation := p.now;
      lastLatencyMs := p.latencyMs;
      if !p.success {
        consecutiveLosses := consecutiveLosses + 1;
        consecutiveSuccesses := 0;
        if consecutiveLosses >= p.cfg.maxLosses {
          degraded := true;
        }
      } else {
        consecutiveLosses := 0;
        if p.latencyMs > HARD_LATENCY_MS {
          degraded := true;
          consecutiveSuccesses := 0;
        } else if p.latencyMs > p.cfg.degradedLatencyMs {
          degraded := true;
          consecutiveSuccesses := 0;
        } else {
          consecutiveSuccesses := consecutiveSuccesses + 1;
          if consecutiveSuccesses >= p.cfg.recoverySuccesses {
            if !(p.now < holdDownUntil) {
              degraded := false;
              flapPenaltyCount := 0;
            }
          }
        }
      }
    }

    /** The damping half of `RecordProbeResult`. */
    method NoteTrip(now: int)
      modifies this
      ensures View() == NoteFailover(old(View()), now)
      ensures history == old(history) && failoverCount == old(failoverCount)
    {
      if lastFailoverTime != ZERO_TIME && now - lastFailoverTime < FLAP_WINDOW {
        flapPenaltyCount := flapPenaltyCount + 1;
        var penaltyDuration := flapPenaltyCount * PENALTY_STEP;
        if penaltyDuration > PENALTY_CAP {
          penaltyDuration := PENALTY_CAP;
        }
        holdDownUntil := now + penaltyDuration;
      }
      lastFailoverTime := now;
    }
  }

  /** The healthy peers other than the degraded one. */
  ghost function Candidates(peers: Index, degradedDID: string): set<PeerNode>
    reads peers.Values
  {
    set p | p in peers.Values && p.did != degradedDID && p.healthState == HEALTHY
  }

  function Rtt(p: PeerNode): real
    reads p
  {
    if p.latencyMs > 0.0 then p.latencyMs else 1.0
  }

  /** Measured peers compare by their latency; one without a measurement counts as one millisecond away. */
  lemma RttInFigures(p: PeerNode, q: PeerNode)
    ensures p.latencyMs > 0.0 && q.latencyMs > 0.0 ==> (Rtt(p) <= Rtt(q) <==> p.latencyMs <= q.latencyMs)
    ensures p.latencyMs <= 0.0 ==> Rtt(p) == 1.0
    ensures p.latencyMs > 0.0 ==> Rtt(p) == p.latencyMs
    ensures p.healthState == HEALTHY <==> p.healthState == 0
  {
  }

  /** The healthy peer of lowest round-trip time, in whatever order the map is ranged over. */
  method SelectAlternative(peers: Index, degradedDID: string) returns (best: PeerNode?)
    ensures best == null <==> Candidates(peers, degradedDID) == {}
    ensures best != null ==>
              best in Candidates(peers, degradedDID) && forall q | q in Candidates(peers, degradedDID) :: Rtt(best) <= Rtt(q)
  {
    best := null;
    var lowestLatency := 999999.0;
    var rest := peers.Values;
    ghost var all := Candidates(peers, degradedDID);
    while rest != {}
      invariant rest <= peers.Values
      invariant best == null ==> all <= rest
      invariant best != null ==> best in all && lowestLatency == Rtt(best) && forall q | q in all - rest :: Rtt(best) <= Rtt(q)
      decreases |rest|
    {
      var p :| p in rest;
      rest := rest - {p};
      if p.did == degradedDID {
        continue;
      }
      if p.healthState == HEALTHY {
        var rtt := 1.0;
        if p.latencyMs > 0.0 {
          rtt := p.latencyMs;
        }
        if best == null || rtt < lowestLatency {
          best := p;
          lowestLatency := rtt;
        }
      }
    }
  }

  class LinkHealingEngine {
    const router: KR.KleinbergRouter?
    const tunables: Tunables
    var stats: map<string, PeerHealthStats>

    /** Every link is where its probes put it, and links share no record. */
    ghost predicate Valid()
      reads this, tunables, stats.Values
    {
      && Positive(tunables.cfg)
      && (forall d | d in stats :: stats[d].Kept())
      && (forall d, e | d in stats && e in stats && d != e :: stats[d] != stats[e])
    }

    constructor (router: KR.KleinbergRouter?, tunables: Tunables)
      requires Positive(tunables.cfg)
      ensures Valid() && stats == map[] && this.router == router && this.tunables == tunables
    {
      this.router, this.tunables := router, tunables;
      stats := map[];
    }

    method StatOf(did: string, now: int) returns (stat: PeerHealthStats)
      requires Valid()
      modifies `stats
      ensures Valid() && did in stats && stats[did] == stat
      ensures if did in old(stats) then stats == old(stats)
              else stats == old(stats)[did := stat] && fresh(stat) && stat.history == [] && stat.failoverCount == 0
    {
      if did !in stats {
        stat := new PeerHealthStats(did, now);
        stats := stats[did := stat];
      } else {
        stat := stats[did];
      }
    }

    /** The peers a failover away from `did` could go to. */
    ghost function Fallbacks(did: string): set<PeerNode>
      reads router, if router != null then router.peerIndex.Values else {}
    {
      if router == null then {} else Candidates(router.peerIndex, did)
    }

    method RecordOn(stat: PeerHealthStats, did: string, p: Probe) returns (failover: bool, altDID: string)
      requires Positive(p.cfg) && stat.Kept()
      modifies stat
      ensures stat.Kept() && stat.history == old(stat.history) + [p]
      ensures failover <==> Trips(stat.View(), p) && Fallbacks(did) != {}
      ensures failover ==> exists a :: a in Fallbacks(did) && a.did == altDID
                                       && forall q | q in Fallbacks(did) :: Rtt(a) <= Rtt(q)
      ensures stat.failoverCount == old(stat.failoverCount) + (if failover then 1 else 0)
    {
      hide Count, Positive;
      assert (stat.history + [p])[..|stat.history|] == stat.history;
      stat.CountProbe(p);
      failover, altDID := false, "";
      if (!p.success || p.latencyMs > p.cfg.degradedLatencyMs) && stat.degraded {
        stat.NoteTrip(p.now);
        if router != null {
          var alt := SelectAlternative(router.peerIndex, did);
          if alt != null {
            stat.failoverCount := stat.failoverCount + 1;
            return true, alt.did;
          }
        }
      }
    }

    /**
     Records one probe on one link, and reports a failover exactly when the
     degraded link trips and the router has another healthy peer to offer.
     */
    method RecordProbeResult(did: string, success: bool, latencyMs: real, now: int) returns (failover: bool, altDID: string)
      requires Valid()
      modifies this, stats.Values
      ensures Valid() && did in stats
      ensures stats.Keys == old(stats).Keys + {did}
      ensures stats[did].history ==
              (if did in old(stats) then old(stats[did].history) else []) + [Probe(success, latencyMs, now, tunables.cfg)]
      ensures forall d | d in old(stats) && d != did :: stats[d] == old(stats)[d] && stats[d].history == old(stats[d].history)
      ensures failover <==>
              Trips(LinkAfter(stats[did].history), Probe(success, latencyMs, now, tunables.cfg)) && Fallbacks(did) != {}
      ensures failover ==> exists a :: a in Fallbacks(did) && a.did == altDID
                                       && forall q | q in Fallbacks(did) :: Rtt(a) <= Rtt(q)
      ensures stats[did].failoverCount ==
              (if did in old(stats) then old(stats[did].failoverCount) else 0) + (if failover then 1 else 0)
    {
      hide LinkAfter, Trips, Fallbacks, AllPositive, Positive;
      var stat := StatOf(did, now);
      failover, altDID := RecordOn(stat, did, Probe(success, latencyMs, now, tunables.cfg));
    }
  }
}
