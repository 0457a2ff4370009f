/**
 The small-world router: peers bucketed into rings by XOR distance, three
 eviction policies, and greedy next-hop selection. Latencies, scores and weights
 are real numbers; the clock and the decoding of a DID into a key are parameters.
 */
module KleinbergRouter {
  import opened Wrappers
  import opened KeyMetric
  import opened RingStructure

  datatype RouterConfig = RouterConfig(numRings: int, peersPerRing: int, maxTotalPeers: int, alpha: real)

  const DEFAULT_PEERS_PER_RING := 16

  /** What the constructor makes of the configuration it is given. */
  function Normalize(cfg: RouterConfig): RouterConfig {
    var n := if cfg.numRings <= 0 then DEFAULT_NUM_RINGS else cfg.numRings;
    var p := if cfg.peersPerRing <= 0 then DEFAULT_PEERS_PER_RING else cfg.peersPerRing;
    var m := if cfg.maxTotalPeers <= 0 then n * p else cfg.maxTotalPeers;
    var a := if cfg.alpha < 0.0 || cfg.alpha > 1.0 then 0.35 else cfg.alpha;
    RouterConfig(n, p, m, a)
  }

  const STANDARD := RouterConfig(16, 16, 256, 0.35)
  const MICRO := RouterConfig(8, 8, 64, 0.25)
  const BACKBONE := RouterConfig(32, 32, 1024, 0.40)

  predicate Usable(cfg: RouterConfig) {
    cfg.numRings > 0 && cfg.peersPerRing > 0 && cfg.maxTotalPeers > 0 && 0.0 <= cfg.alpha <= 1.0
  }

  lemma NormalizedIsUsable(cfg: RouterConfig)
    ensures Usable(Normalize(cfg))
    ensures var c := Normalize(cfg);
            && (cfg.numRings <= 0 ==> c.numRings == 16) && (cfg.numRings > 0 ==> c.numRings == cfg.numRings)
            && (cfg.peersPerRing <= 0 ==> c.peersPerRing == 16) && (cfg.peersPerRing > 0 ==> c.peersPerRing == cfg.peersPerRing)
            && (cfg.maxTotalPeers <= 0 ==> c.maxTotalPeers == c.numRings * c.peersPerRing)
            && (cfg.maxTotalPeers > 0 ==> c.maxTotalPeers == cfg.maxTotalPeers)
            && (cfg.alpha < 0.0 || cfg.alpha > 1.0 ==> c.alpha == 0.35)
            && (0.0 <= cfg.alpha <= 1.0 ==> c.alpha == cfg.alpha)
    ensures Usable(cfg) ==> Normalize(cfg) == cfg
  {
    var n := if cfg.numRings <= 0 then DEFAULT_NUM_RINGS else cfg.numRings;
    var p := if cfg.peersPerRing <= 0 then DEFAULT_PEERS_PER_RING else cfg.peersPerRing;
    assert n * p > 0;
  }

  // ---------------------------------------------------------------------
  // Eviction rules
  // ---------------------------------------------------------------------

  /** What the eviction rules look at in one peer. */
  datatype Standing = Standing(state: int, latencyMs: real, score: real) {
    predicate Dead() { state == QUARANTINED || state == UNREACHABLE }
    predicate Shaky() { state == UNSTABLE }
  }

  function StandingOf(p: PeerNode): Standing
    reads p
  {
    Standing(p.healthState, p.latencyMs, p.healthScore - p.latencyMs / 10.0)
  }

  /** The standings of a ring, place by place. */
  ghost function RingStandings(ring: seq<PeerNode>): (st: seq<Standing>)
    reads set p | p in ring
    ensures |st| == |ring| && forall i | 0 <= i < |ring| :: st[i] == StandingOf(ring[i])
  {
    if ring == [] then [] else RingStandings(ring[..|ring| - 1]) + [StandingOf(ring[|ring| - 1])]
  }

  ghost function PeersOf(rings: Rings): set<PeerNode> {
    set r, i | 0 <= r < |rings| && 0 <= i < |rings[r]| :: rings[r][i]
  }

  /** The standings of all rings. */
  ghost function Standings(rings: Rings): (st: seq<seq<Standing>>)
    reads PeersOf(rings)
    ensures AreStandings(rings, st)
  {
    if rings == [] then []
    else
      var n := |rings| - 1;
      assert forall r, i | 0 <= r < n && 0 <= i < |rings[..n][r]| :: rings[..n][r][i] == rings[r][i];
      Standings(rings[..n]) + [RingStandings(rings[n])]
  }

  ghost predicate AreStandings(rings: Rings, st: seq<seq<Standing>>)
    reads PeersOf(rings)
  {
    && |st| == |rings|
    && forall r | 0 <= r < |rings| ::
         |st[r]| == |rings[r]| && forall i | 0 <= i < |rings[r]| :: st[r][i] == StandingOf(rings[r][i])
  }

  /**
   The place a newcomer takes in a full ring: the first dead peer, else the first
   unstable one, else the first of the slowest if the newcomer is faster, else none.
   */
  ghost predicate LocalVictim(ring: seq<Standing>, latencyMs: real, e: int) {
    && -1 <= e < |ring|
    && if exists i :: 0 <= i < |ring| && ring[i].Dead() then
         0 <= e && ring[e].Dead() && forall i | 0 <= i < e :: !ring[i].Dead()
       else if exists i :: 0 <= i < |ring| && ring[i].Shaky() then
         0 <= e && ring[e].Shaky() && forall i | 0 <= i < e :: !ring[i].Shaky()
       else if exists i :: 0 <= i < |ring| && latencyMs < ring[i].latencyMs then
         && 0 <= e
         && (forall i | 0 <= i < |ring| :: ring[i].latencyMs <= ring[e].latencyMs)
         && (forall i | 0 <= i < e :: ring[i].latencyMs < ring[e].latencyMs)
       else e == -1
  }

  const WORST_SCORE := 999.0

  /** A peer the global eviction may take: it is not alone in its ring. */
  ghost predicate Eligible(st: seq<seq<Standing>>, r: int, i: int) {
    0 <= r < |st| && 0 <= i < |st[r]| && |st[r]| > 1
  }

  /** The first of the lowest-scoring eligible peers below the sentinel, or (-1, -1) if there is none. */
  ghost predicate GlobalVictim(st: seq<seq<Standing>>, r: int, i: int) {
    if r == -1 then
      i == -1 && forall s, k | Eligible(st, s, k) :: st[s][k].score >= 999.0
    else
      && Eligible(st, r, i)
      && st[r][i].score < 999.0
      && forall s, k | Eligible(st, s, k) ::
           if s < r || (s == r && k < i) then st[r][i].score < st[s][k].score
           else st[r][i].score <= st[s][k].score
  }

  /** In figures: quarantined (4) and unreachable (3) peers go first, then unstable (2) ones, then one slower than the newcomer and than all. */
  lemma LocalVictimOrder(ring: seq<Standing>, latencyMs: real, e: int)
    requires LocalVictim(ring, latencyMs, e)
    ensures (exists i :: 0 <= i < |ring| && (ring[i].state == 3 || ring[i].state == 4)) ==>
              0 <= e < |ring| && (ring[e].state == 3 || ring[e].state == 4)
    ensures (forall i | 0 <= i < |ring| :: ring[i].state != 3 && ring[i].state != 4) ==>
              if exists i :: 0 <= i < |ring| && ring[i].state == 2 then 0 <= e < |ring| && ring[e].state == 2
              else if e == -1 then forall i | 0 <= i < |ring| :: ring[i].latencyMs <= latencyMs
              else && 0 <= e < |ring| && latencyMs < ring[e].latencyMs
                   && forall i | 0 <= i < |ring| :: ring[i].latencyMs <= ring[e].latencyMs
  {
    assert forall i | 0 <= i < |ring| :: ring[i].Dead() <==> ring[i].state == 3 || ring[i].state == 4;
    assert forall i | 0 <= i < |ring| :: ring[i].Shaky() <==> ring[i].state == 2;
  }

  /** No ring holds more than one peer. */
  ghost predicate Sparse(rings: Rings) {
    forall r | 0 <= r < |rings| :: |rings[r]| <= 1
  }

  method FirstDead(ring: seq<PeerNode>) returns (e: int)
    ensures -1 <= e < |ring|
    ensures e == -1 ==> forall i | 0 <= i < |ring| :: !StandingOf(ring[i]).Dead()
    ensures e != -1 ==> StandingOf(ring[e]).Dead() && forall i | 0 <= i < e :: !StandingOf(ring[i]).Dead()
  {
    var i := 0;
    while i < |ring|
      invariant 0 <= i <= |ring|
      invariant forall k | 0 <= k < i :: !StandingOf(ring[k]).Dead()
    {
      if ring[i].healthState == QUARANTINED || ring[i].healthState == UNREACHABLE {
        return i;
      }
      i := i + 1;
    }
    return -1;
  }

  method FirstShaky(ring: seq<PeerNode>) returns (e: int)
    ensures -1 <= e < |ring|
    ensures e == -1 ==> forall i | 0 <= i < |ring| :: !StandingOf(ring[i]).Shaky()
    ensures e != -1 ==> StandingOf(ring[e]).Shaky() && forall i | 0 <= i < e :: !StandingOf(ring[i]).Shaky()
  {
    var i := 0;
    while i < |ring|
      invariant 0 <= i <= |ring|
      invariant forall k | 0 <= k < i :: !StandingOf(ring[k]).Shaky()
    {
      if ring[i].healthState == UNSTABLE {
        return i;
      }
      i := i + 1;
    }
    return -1;
  }

  method Slowest(ring: seq<PeerNode>) returns (worst: nat)
    requires ring != []
    ensures worst < |ring|
    ensures forall i | 0 <= i < |ring| :: ring[i].latencyMs <= ring[worst].latencyMs
    ensures forall i | 0 <= i < worst :: ring[i].latencyMs < ring[worst].latencyMs
  {
    worst := 0;
    var i := 0;
    while i < |ring|
      invariant 0 <= i <= |ring| && worst < |ring| && (worst < i || worst == 0)
      invariant forall k | 0 <= k < i :: ring[k].latencyMs <= ring[worst].latencyMs
      invariant forall k | 0 <= k < worst :: ring[k].latencyMs < ring[worst].latencyMs
    {
      if ring[i].latencyMs > ring[worst].latencyMs {
        worst := i;
      }
      i := i + 1;
    }
  }

  method ChooseLocalVictim(ring: seq<PeerNode>, latencyMs: real, ghost st: seq<Standing>) returns (evictIdx: int)
    requires ring != []
    requires |st| == |ring| && forall i | 0 <= i < |ring| :: st[i] == StandingOf(ring[i])
    ensures LocalVictim(st, latencyMs, evictIdx)
  {
    evictIdx := FirstDead(ring);
    if evictIdx == -1 {
      evictIdx := FirstShaky(ring);
    }
    if evictIdx == -1 {
      var worst := Slowest(ring);
      if latencyMs < ring[worst].latencyMs {
        evictIdx := worst;
      }
    }
  }

  method ChooseGlobalVictim(rings: Rings, ghost st: seq<seq<Standing>>) returns (worstRing: int, worstIdx: int)
    requires AreStandings(rings, st)
    ensures GlobalVictim(st, worstRing, worstIdx)
  {
    worstRing, worstIdx := -1, -1;
    var worstScore := WORST_SCORE;
    var r := 0;
    while r < |rings|
      invariant 0 <= r <= |rings|
      invariant worstRing == -1 ==> worstIdx == -1 && worstScore == WORST_SCORE
      invariant worstRing != -1 ==> Eligible(st, worstRing, worstIdx) && worstScore == st[worstRing][worstIdx].score < WORST_SCORE
      invariant forall s, k | Eligible(st, s, k) && s < r :: worstScore <= st[s][k].score
      invariant forall s, k | Eligible(st, s, k) && (s < worstRing || (s == worstRing && k < worstIdx)) ::
                  worstScore < st[s][k].score
    {
      if |rings[r]| > 1 {
        var i := 0;
        while i < |rings[r]|
          invariant 0 <= i <= |rings[r]|
          invariant worstRing == -1 ==> worstIdx == -1 && worstScore == WORST_SCORE
          invariant worstRing != -1 ==> Eligible(st, worstRing, worstIdx) && worstScore == st[worstRing][worstIdx].score < WORST_SCORE
          invariant forall s, k | Eligible(st, s, k) && (s < r || (s == r && k < i)) :: worstScore <= st[s][k].score
          invariant forall s, k | Eligible(st, s, k) && (s < worstRing || (s == worstRing && k < worstIdx)) ::
                      worstScore < st[s][k].score
        {
          var score := rings[r][i].healthScore - rings[r][i].latencyMs / 10.0;
          assert st[r][i] == StandingOf(rings[r][i]);
          if score < worstScore {
            worstScore, worstRing, worstIdx := score, r, i;
          }
          i := i + 1;
        }
      }
      r := r + 1;
    }
  }

  // ---------------------------------------------------------------------
  // Health
  // ---------------------------------------------------------------------

  /** Merit from 0 to 100 and the health state it implies. */
  function CalculateHealthScore(pacing: real, jitterMs: real, lossRate: real): (result: (real, int))
    ensures 0.0 <= result.0 <= 100.0
    ensures result.1 != QUARANTINED
    ensures lossRate >= 0.4 ==> result.1 == UNREACHABLE
    ensures result.1 == HEALTHY ==> result.0 >= 75.0 && lossRate < 0.05 && jitterMs <= 25.0
  {
    var jitterRaw := (jitterMs / 50.0) * 30.0;
    var jitterPen := if jitterRaw > 30.0 then 30.0 else jitterRaw;
    var lossRaw := lossRate * 40.0;
    var lossPen := if lossRaw > 40.0 then 40.0 else lossRaw;
    var raw := (pacing * 30.0) + (30.0 - jitterPen) + (40.0 - lossPen);
    var score := if raw < 0.0 then 0.0 else if raw > 100.0 then 100.0 else raw;
    var state :=
      if score < 25.0 || lossRate >= 0.4 then UNREACHABLE
      else if score < 50.0 || lossRate >= 0.20 || jitterMs > 60.0 then UNSTABLE
      else if score < 75.0 || lossRate >= 0.05 || jitterMs > 25.0 then DEGRADED
      else HEALTHY;
    (score, state)
  }

  /** `x` kept within `low` and `high`. */
  function Within(x: real, low: real, high: real): real {
    if x < low then low else if x > high then high else x
  }

  /**
   Merit is 30 points of pacing, 30 less 0.6 for each millisecond of jitter up to 50,
   and 40 less 0.4 for each percent lost. The state is the worst that merit, loss and
   jitter call for, each by its own scale.
   */
  lemma HealthExactly(pacing: real, jitterMs: real, lossRate: real)
    requires 0.0 <= pacing <= 1.0 && 0.0 <= jitterMs && 0.0 <= lossRate <= 1.0
    ensures var (score, state) := CalculateHealthScore(pacing, jitterMs, lossRate);
            && score == 100.0 - 30.0 * (1.0 - pacing) - 0.6 * Within(jitterMs, 0.0, 50.0) - 0.4 * (100.0 * lossRate)
            && (state == UNREACHABLE <==> score < 25.0 || lossRate >= 0.4)
            && (state in {UNREACHABLE, UNSTABLE} <==> score < 50.0 || lossRate >= 0.2 || jitterMs > 60.0)
            && (state in {UNREACHABLE, UNSTABLE, DEGRADED} <==> score < 75.0 || lossRate >= 0.05 || jitterMs > 25.0)
            && state in {UNREACHABLE, UNSTABLE, DEGRADED, HEALTHY}
  {
  }

  /** Outside those ranges merit still stays from 0 to 100. */
  lemma HealthBounded(pacing: real, jitterMs: real, lossRate: real)
    ensures var raw := 30.0 * pacing + (30.0 - (if 0.6 * jitterMs > 30.0 then 30.0 else 0.6 * jitterMs))
                       + (40.0 - (if lossRate > 1.0 then 40.0 else 40.0 * lossRate));
            CalculateHealthScore(pacing, jitterMs, lossRate).0 == Within(raw, 0.0, 100.0)
  {
  }

  /** For a global eviction ten milliseconds weigh as much as one point of merit. */
  lemma TenMillisecondsAreAPoint(p: PeerNode, q: PeerNode)
    ensures StandingOf(p).score < StandingOf(q).score
            <==> 10.0 * p.healthScore - p.latencyMs < 10.0 * q.healthScore - q.latencyMs
    ensures StandingOf(p).Dead() <==> p.healthState == 3 || p.healthState == 4
    ensures StandingOf(p).Shaky() <==> p.healthState == 2
    ensures StandingOf(p).latencyMs == p.latencyMs
  {
  }

  // ---------------------------------------------------------------------
  // The router
  // ---------------------------------------------------------------------

  ghost predicate ScoredAll(index: Index)
    reads index.Values
  {
    forall p | p in index.Values :: 0.0 <= p.healthScore <= 100.0
  }

  ghost predicate TimedAll(index: Index)
    reads index.Values
  {
    forall p | p in index.Values :: p.latencyMs >= 0.0
  }

  class KleinbergRouter {
    const localDID: string
    const localPub: Key
    const config: RouterConfig
    const decode: string -> Option<Key>
    var rings: Rings
    var peerIndex: Index
    var totalRoutes: nat

    /** Where a peer belongs: under its own DID, never the local one, in the ring of its key. */
    ghost predicate Placed(d: string, p: PeerNode) {
      && d != localDID && d != ""
      && decode(d) == Some(p.publicKey)
      && p.ringIndex == Ring(localPub, p.publicKey, config.numRings)
    }

    ghost predicate Valid()
      reads this
    {
      && Usable(config)
      && |rings| == config.numRings
      && Paired(rings, peerIndex)
      && (forall r | 0 <= r < |rings| :: |rings[r]| <= config.peersPerRing)
      && (forall d | d in peerIndex :: Placed(d, peerIndex[d]))
    }

    /** Scores are from 0 to 100. */
    ghost predicate Graded()
      reads this, peerIndex.Values
    {
      ScoredAll(peerIndex)
    }

    /** And latencies are not negative, as measurements are. */
    ghost predicate Measured()
      reads this, peerIndex.Values
    {
      ScoredAll(peerIndex) && TimedAll(peerIndex)
    }

    /** The most peers the router can ever hold. */
    ghost function Ceiling(): int {
      if config.maxTotalPeers > config.numRings + 1 then config.maxTotalPeers else config.numRings + 1
    }

    /** A DID the router would take for a peer's. */
    predicate Nameable(did: string) {
      did != localDID && did != "" && decode(did).Some?
    }

    /** The ring of a DID. */
    function HomeOf(did: string): nat
      requires decode(did).Some?
    {
      Ring(localPub, decode(did).value, config.numRings)
    }

    ghost predicate Named(r: int) {
      exists d :: Nameable(d) && HomeOf(d) == r
    }

    /** The rings some DID belongs to. */
    ghost function NamedRings(): set<int> {
      set r | 0 <= r < config.numRings && Named(r)
    }

    /** The limit is above the number of rings that can have peers, or enough for all of them full. */
    ghost predicate LimitSafe() {
      config.maxTotalPeers > |NamedRings()| || config.maxTotalPeers >= |NamedRings()| * config.peersPerRing
    }

    /** The call would put a peer nobody knows yet into the tables, or try to. */
    ghost predicate Admissible(did: string)
      reads `peerIndex
    {
      Nameable(did) && did !in peerIndex
    }

    /** A newcomer to ring `r` finds the table at its limit, a place in the ring, and nobody to evict. */
    ghost predicate Tips(r: nat)
      requires r < |rings|
      reads `rings, `peerIndex
    {
      |peerIndex| == config.maxTotalPeers && |rings[r]| < config.peersPerRing && Sparse(rings)
    }

    constructor (localDID: string, localPub: Key, cfg: RouterConfig, decode: string -> Option<Key>)
      ensures Valid() && peerIndex == map[] && Measured()
      ensures config == Normalize(cfg) && this.localDID == localDID && this.localPub == localPub
      ensures this.decode == decode
    {
      this.localDID, this.localPub, this.decode := localDID, localPub, decode;
      NormalizedIsUsable(cfg);
      config := Normalize(cfg);
      rings := seq(Normalize(cfg).numRings, _ => []);
      peerIndex := map[];
      totalRoutes := 0;
      new;
      EmptyTotal(rings);
    }

    /** A peer as a newcomer enters the tables. */
    ghost predicate Newcomer(p: PeerNode, did: string, addr: string, latencyMs: real, now: int)
      reads p
    {
      && p.did == did && Placed(did, p)
      && p.addr == addr && p.lastSeen == now && p.latencyMs == latencyMs
      && p.healthState == HEALTHY && p.healthScore == 100.0
    }

    method Create(did: string, pub: Key, ring: nat, addr: string, latencyMs: real, now: int) returns (p: PeerNode)
      requires did != localDID && did != "" && decode(did) == Some(pub)
      requires ring == Ring(localPub, pub, config.numRings)
      ensures fresh(p) && Newcomer(p, did, addr, latencyMs, now) && p.ringIndex == ring
    {
      p := new PeerNode(did, pub, ring, addr, now, latencyMs);
    }

    /** Puts a newcomer in the place of a peer of its ring. */
    method Supplant(idx: nat, p: PeerNode)
      requires Valid() && p.did !in peerIndex && Placed(p.did, p)
      requires p.ringIndex < |rings| && idx < |rings[p.ringIndex]|
      modifies `rings, `peerIndex
      ensures Valid() && |peerIndex| == |old(peerIndex)|
      ensures peerIndex == (old(peerIndex) - {old(rings)[p.ringIndex][idx].did})[p.did := p]
      ensures rings == ReplaceAt(old(rings), p.ringIndex, idx, p)
    {
      hide Paired, Ring, Placed;
      ReplaceKeepsPaired(rings, peerIndex, idx, p);
      var oldPeer := rings[p.ringIndex][idx];
      peerIndex := peerIndex - {oldPeer.did};
      rings := ReplaceAt(rings, p.ringIndex, idx, p);
      peerIndex := peerIndex[p.did := p];
    }

    /** Puts a newcomer at the end of its ring. */
    method Append(p: PeerNode)
      requires Valid() && p.did !in peerIndex && Placed(p.did, p)
      requires p.ringIndex < |rings| && |rings[p.ringIndex]| < config.peersPerRing
      modifies `rings, `peerIndex, `totalRoutes
      ensures Valid() && |peerIndex| == |old(peerIndex)| + 1
      ensures peerIndex == old(peerIndex)[p.did := p] && totalRoutes == old(totalRoutes) + 1
      ensures rings == AppendTo(old(rings), p.ringIndex, p)
    {
      hide Paired, Ring;
      AppendKeepsPaired(rings, peerIndex, p);
      rings := AppendTo(rings, p.ringIndex, p);
      peerIndex := peerIndex[p.did := p];
      totalRoutes := totalRoutes + 1;
    }

    /** Drops one peer from both views. */
    method Evict(r: nat, i: nat)
      requires Valid() && r < |rings| && i < |rings[r]|
      modifies `rings, `peerIndex
      ensures Valid() && |peerIndex| == |old(peerIndex)| - 1
      ensures peerIndex == old(peerIndex) - {old(rings)[r][i].did}
      ensures rings == RemoveAt(old(rings), r, i)
    {
      hide Paired, Ring;
      RemoveKeepsPaired(rings, peerIndex, r, i);
      peerIndex := peerIndex - {rings[r][i].did};
      rings := RemoveAt(rings, r, i);
    }

    /** The index is the old one without `gone` and with a newcomer under `did`. */
    ghost predicate Swapped(index0: Index, gone: set<string>, did: string, addr: string, latencyMs: real, now: int)
      reads this, peerIndex.Values
    {
      && did in peerIndex
      && Newcomer(peerIndex[did], did, addr, latencyMs, now)
      && peerIndex == (index0 - gone)[did := peerIndex[did]]
    }

    /**
     The peer a newcomer to ring `r` drives out, as a place in the rings: the
     local victim of a full ring, the global victim of a full table, or nobody.
     `st` and `count` are the standings and the index size before the call.
     */
    ghost predicate VictimByRule(st: seq<seq<Standing>>, count: nat, r: nat, latencyMs: real, vr: int, vi: int)
      requires r < |st|
    {
      if |st[r]| >= config.peersPerRing then LocalVictim(st[r], latencyMs, vi) && vr == if vi == -1 then -1 else r
      else if count >= config.maxTotalPeers then GlobalVictim(st, vr, vi)
      else vr == -1 && vi == -1
    }

    /** Whether the newcomer went to the end of its ring or to the victim's place. */
    ghost predicate Seated(rings0: Rings, r: nat, vr: int, vi: int, p: PeerNode)
      requires r < |rings0|
      reads this
    {
      if |rings0[r]| >= config.peersPerRing then
        0 <= vi < |rings0[r]| && rings == ReplaceAt(rings0, r, vi, p)
      else rings == AppendTo(WithoutPlace(rings0, vr, vi), r, p)
    }

    ghost function VictimDid(vr: int, vi: int): set<string>
      reads this
    {
      if 0 <= vr < |rings| && 0 <= vi < |rings[vr]| then {rings[vr][vi].did} else {}
    }

    method AddToFullRing(ring: nat, did: string, pub: Key, addr: string, latencyMs: real, now: int, ghost st: seq<seq<Standing>>)
      returns (ghost vr: int, ghost vi: int)
      requires Valid() && did != localDID && did != "" && decode(did) == Some(pub) && did !in peerIndex
      requires ring == Ring(localPub, pub, config.numRings) && |rings[ring]| >= config.peersPerRing
      requires AreStandings(rings, st)
      modifies `rings, `peerIndex
      ensures Valid() && |peerIndex| == |old(peerIndex)|
      ensures VictimByRule(st, |old(peerIndex)|, ring, latencyMs, vr, vi)
      ensures if vr == -1 then peerIndex == old(peerIndex) && rings == old(rings)
              else
                && Swapped(old(peerIndex), old(VictimDid(vr, vi)), did, addr, latencyMs, now)
                && Seated(old(rings), ring, vr, vi, peerIndex[did])
    {
      hide Paired, Ring, LocalVictim, GlobalVictim, Placed;
      var evictIdx := ChooseLocalVictim(rings[ring], latencyMs, st[ring]);
      InRange(st[ring], latencyMs, evictIdx);
      vr, vi := if evictIdx == -1 then -1 else ring, evictIdx;
      if evictIdx >= 0 {
        var newPeer := Create(did, pub, ring, addr, latencyMs, now);
        Supplant(evictIdx, newPeer);
      }
    }

    method MakeRoom(ghost st: seq<seq<Standing>>) returns (ghost vr: int, ghost vi: int)
      requires Valid() && AreStandings(rings, st)
      modifies `rings, `peerIndex
      ensures Valid()
      ensures if |old(peerIndex)| >= config.maxTotalPeers then GlobalVictim(st, vr, vi) else vr == -1 && vi == -1
      ensures peerIndex == old(peerIndex) - old(VictimDid(vr, vi))
      ensures |peerIndex| == |old(peerIndex)| - (if vr == -1 then 0 else 1)
      ensures rings == WithoutPlace(old(rings), vr, vi)
    {
      hide Paired, GlobalVictim, Placed;
      vr, vi := -1, -1;
      if |peerIndex| >= config.maxTotalPeers {
        var worstRing, worstIdx := ChooseGlobalVictim(rings, st);
        VictimInRange(st, worstRing, worstIdx);
        vr, vi := worstRing, worstIdx;
        if worstRing >= 0 && worstIdx >= 0 {
          Evict(worstRing, worstIdx);
        }
      }
    }

    method AddWithRoom(ring: nat, did: string, pub: Key, addr: string, latencyMs: real, now: int, ghost st: seq<seq<Standing>>)
      returns (ghost vr: int, ghost vi: int)
      requires Valid() && did != localDID && did != "" && decode(did) == Some(pub) && did !in peerIndex
      requires ring == Ring(localPub, pub, config.numRings) && |rings[ring]| < config.peersPerRing
      requires AreStandings(rings, st)
      modifies `rings, `peerIndex, `totalRoutes
      ensures Valid() && |peerIndex| == |old(peerIndex)| + (if vr == -1 then 1 else 0)
      ensures totalRoutes == old(totalRoutes) + 1
      ensures VictimByRule(st, |old(peerIndex)|, ring, latencyMs, vr, vi)
      ensures Swapped(old(peerIndex), old(VictimDid(vr, vi)), did, addr, latencyMs, now)
      ensures Seated(old(rings), ring, vr, vi, peerIndex[did])
    {
      hide Paired, Ring, LocalVictim, GlobalVictim, Placed, VictimDid;
      assert ring < |rings| && |st| == |rings| && |st[ring]| == |rings[ring]|;
      hide KleinbergRouter.Valid, AreStandings, WithoutPlace;
      vr, vi := MakeRoom(st);
      var newPeer := Create(did, pub, ring, addr, latencyMs, now);
      Append(newPeer);
    }

    method AddNew(did: string, pub: Key, addr: string, latencyMs: real, now: int, ghost st: seq<seq<Standing>>)
      returns (ghost vr: int, ghost vi: int)
      requires Valid() && did != localDID && did != "" && decode(did) == Some(pub) && did !in peerIndex
      requires AreStandings(rings, st)
      modifies `rings, `peerIndex, `totalRoutes
      ensures Valid()
      ensures totalRoutes == old(totalRoutes) + (if |st[Ring(localPub, pub, config.numRings)]| < config.peersPerRing then 1 else 0)
      ensures VictimByRule(st, |old(peerIndex)|, Ring(localPub, pub, config.numRings), latencyMs, vr, vi)
      ensures if vr == -1 && |st[Ring(localPub, pub, config.numRings)]| >= config.peersPerRing
              then peerIndex == old(peerIndex) && rings == old(rings)
              else
                && Swapped(old(peerIndex), old(VictimDid(vr, vi)), did, addr, latencyMs, now)
                && Seated(old(rings), Ring(localPub, pub, config.numRings), vr, vi, peerIndex[did])
      ensures |peerIndex| == |old(peerIndex)| +
                (if vr == -1 && |st[Ring(localPub, pub, config.numRings)]| < config.peersPerRing then 1 else 0)
    {
      hide Paired, Ring, LocalVictim, Placed, VictimDid, Eligible;
      var ring := XORKeyDistanceN(localPub, pub, config.numRings);
      if |rings[ring]| >= config.peersPerRing {
        vr, vi := AddToFullRing(ring, did, pub, addr, latencyMs, now, st);
      } else {
        vr, vi := AddWithRoom(ring, did, pub, addr, latencyMs, now, st);
      }
    }

    lemma CrowdedRingHasVictim(r: nat, st: seq<seq<Standing>>)
      requires Valid() && Measured() && r < |rings| && AreStandings(rings, st)
      ensures |rings[r]| > 1 ==> Eligible(st, r, 0) && st[r][0].score < WORST_SCORE
    {
      if |rings[r]| > 1 {
        assert rings[r][0] == peerIndex[rings[r][0].did];
        assert rings[r][0] in peerIndex.Values;
        assert st[r][0] == StandingOf(rings[r][0]);
      }
    }

    /** A newcomer comes with a full score and its own latency. */
    lemma SwapKeeps(index0: Index, did: string, addr: string, latencyMs: real, now: int, gone: set<string>)
      requires peerIndex == index0 || Swapped(index0, gone, did, addr, latencyMs, now)
      ensures ScoredAll(index0) ==> ScoredAll(peerIndex)
      ensures TimedAll(index0) && latencyMs >= 0.0 ==> TimedAll(peerIndex)
    {
      forall p | p in peerIndex.Values
        ensures p in index0.Values || (p.healthScore == 100.0 && p.latencyMs == latencyMs)
      {
        var d :| d in peerIndex && peerIndex[d] == p;
        if peerIndex != index0 && d != did {
          assert index0[d] in index0.Values;
        }
      }
    }

    /** With measured peers there is nobody to evict exactly when no ring holds two peers, and then the table is small. */
    lemma NoVictimExactlyWhenSparse(st: seq<seq<Standing>>)
      requires Valid() && Measured() && AreStandings(rings, st)
      ensures forall r, i | GlobalVictim(st, r, i) :: r == -1 <==> Sparse(rings)
      ensures Sparse(rings) ==> |peerIndex| <= config.numRings
    {
      forall r, i | GlobalVictim(st, r, i)
        ensures r == -1 <==> Sparse(rings)
      {
        VictimInRange(st, r, i);
        if r == -1 {
          forall s | 0 <= s < |rings|
            ensures |rings[s]| <= 1
          {
            CrowdedRingHasVictim(s, st);
          }
        }
      }
      if Sparse(rings) {
        RingsCapTotal(rings, 1);
      }
    }

    lemma RuleInRingWithRoom(st: seq<seq<Standing>>, count: nat, r: nat, latencyMs: real, vr: int, vi: int)
      requires r < |st| && |st[r]| < config.peersPerRing && VictimByRule(st, count, r, latencyMs, vr, vi)
      ensures if count >= config.maxTotalPeers then GlobalVictim(st, vr, vi) else vr == -1
    {
    }

    /** A configuration that keeps the limit meets no state in which a newcomer would break it. */
    lemma SafeNeverTips(r: nat)
      requires Valid() && LimitSafe() && r < |rings| && Named(r)
      ensures !Tips(r)
    {
      hide Paired, Ring, Named;
      if |rings[r]| < config.peersPerRing && Sparse(rings) {
        OnlyNamedRings();
        TotalIsIndex();
        RingsCapWithin(rings, config.peersPerRing, NamedRings());
        RingsCapWithin(rings, 1, NamedRings());
      }
    }

    lemma TotalIsIndex()
      requires Valid()
      ensures TotalSize(rings) == |peerIndex|
    {
    }

    /** Peers sit in named rings only: their own DIDs name them. */
    lemma OnlyNamedRings()
      requires Valid()
      ensures forall r | 0 <= r < |rings| && r !in NamedRings() :: |rings[r]| == 0
    {
      hide Ring, TotalSize, NoRepeats, IndexInRings;
      forall r | 0 <= r < |rings| && |rings[r]| != 0
        ensures r in NamedRings()
      {
        var d := rings[r][0].did;
        assert Placed(d, peerIndex[d]);
        assert Nameable(d) && HomeOf(d) == r;
      }
    }

    /** Sizes that are safe for all rings are safe whatever the names. */
    lemma SizesMakeSafe()
      requires Usable(config)
      requires config.maxTotalPeers > config.numRings || config.maxTotalPeers >= config.numRings * config.peersPerRing
      ensures LimitSafe()
    {
      hide Ring, Named;
      RangeBound(NamedRings(), config.numRings);
      ProductGrows(|NamedRings()|, config.numRings, config.peersPerRing);
    }

    /** When the limit covers every ring, as in the stock profiles, a ring with room means a table with room. */
    lemma GlobalEvictionUnreachable(r: nat)
      requires Valid() && config.maxTotalPeers >= config.numRings * config.peersPerRing
      requires r < |rings| && |rings[r]| < config.peersPerRing
      ensures |peerIndex| < config.maxTotalPeers
    {
      RingsCapTotal(rings, config.peersPerRing);
    }

    /** And the table never exceeds that limit. */
    lemma LimitHolds()
      requires Valid() && config.maxTotalPeers >= config.numRings * config.peersPerRing
      ensures |peerIndex| <= config.maxTotalPeers
    {
      RingsCapTotal(rings, config.peersPerRing);
    }

    /**
     Inserts a peer or refreshes the locator of a known one. At most one peer
     leaves, the one the eviction rule names. Under measured latencies the table
     stays under its ceiling.
     */
    method AddOrUpdatePeer(did: string, addr: string, latencyMs: real, now: int) returns (ok: bool, ghost vr: int, ghost vi: int)
      requires Valid()
      modifies `rings, `peerIndex, `totalRoutes
      modifies if did in peerIndex then {peerIndex[did]} else {}
      ensures Valid()
      ensures ok <==> did == localDID || did == "" || decode(did).Some?
      ensures !ok || did == localDID || did == "" || did in old(peerIndex) ==>
                peerIndex == old(peerIndex) && rings == old(rings)
      ensures did in old(peerIndex) ==>
                && peerIndex[did].addr == addr && peerIndex[did].lastSeen == now && peerIndex[did].latencyMs == latencyMs
                && peerIndex[did].healthState == old(peerIndex[did].healthState)
                && peerIndex[did].healthScore == old(peerIndex[did].healthScore)
      ensures ok && did != localDID && did != "" && did !in old(peerIndex) ==>
                var ring := Ring(localPub, decode(did).value, config.numRings);
                && VictimByRule(old(Standings(rings)), |old(peerIndex)|, ring, latencyMs, vr, vi)
                && (if vr == -1 && |old(rings)[ring]| >= config.peersPerRing
                    then peerIndex == old(peerIndex) && rings == old(rings)
                    else
                      && Swapped(old(peerIndex), old(VictimDid(vr, vi)), did, addr, latencyMs, now)
                      && Seated(old(rings), ring, vr, vi, peerIndex[did]))
      ensures totalRoutes == old(totalRoutes) +
                (if ok && did != localDID && did != "" && did !in old(peerIndex)
                    && |old(rings)[Ring(localPub, decode(did).value, config.numRings)]| < config.peersPerRing then 1 else 0)
      ensures old(Graded()) ==> Graded()
      ensures old(Measured()) && latencyMs >= 0.0 ==> Measured()
      ensures old(Measured()) && |old(peerIndex)| <= Ceiling() ==> |peerIndex| <= Ceiling()
      ensures old(Measured()) && |old(peerIndex)| <= config.maxTotalPeers ==>
                (|peerIndex| > config.maxTotalPeers
                 <==> old(Admissible(did)) && old(Tips(Ring(localPub, decode(did).value, config.numRings))))
      ensures old(Measured()) && |old(peerIndex)| <= config.maxTotalPeers && LimitSafe() ==>
                |peerIndex| <= config.maxTotalPeers
    {
      hide Paired, Ring, LocalVictim, GlobalVictim, VictimByRule, VictimDid, Swapped, Seated, Placed, ScoredAll, TimedAll, Standings, PeersOf, Sparse;
      hide KleinbergRouter.NamedRings, KleinbergRouter.LimitSafe;
      ghost var st := Standings(rings);
      ghost var index0, measured := peerIndex, Measured();
      vr, vi := -1, -1;
      IndexedPlaced(did);
      if did == localDID || did == "" {
        return true, -1, -1;
      }
      var pub := decode(did);
      if pub.None? {
        return false, -1, -1;
      }
      if did in peerIndex {
        Refresh(did, addr, latencyMs, now);
        return true, -1, -1;
      }
      ghost var ring := Ring(localPub, pub.value, config.numRings);
      if LimitSafe() {
        assert Nameable(did) && HomeOf(did) == ring;
        SafeNeverTips(ring);
      }
      if measured {
        NoVictimExactlyWhenSparse(st);
      }
      vr, vi := AddNew(did, pub.value, addr, latencyMs, now, st);
      if |st[ring]| < config.peersPerRing {
        RuleInRingWithRoom(st, |index0|, ring, latencyMs, vr, vi);
      }
      SwapKeeps(index0, did, addr, latencyMs, now, old(VictimDid(vr, vi)));
      ok := true;
    }

    /** A known peer at a new address. */
    method Refresh(did: string, addr: string, latencyMs: real, now: int)
      requires did in peerIndex
      modifies peerIndex[did]
      ensures peerIndex[did].addr == addr && peerIndex[did].lastSeen == now && peerIndex[did].latencyMs == latencyMs
      ensures peerIndex[did].healthState == old(peerIndex[did].healthState)
      ensures peerIndex[did].healthScore == old(peerIndex[did].healthScore)
      ensures old(ScoredAll(peerIndex)) ==> ScoredAll(peerIndex)
      ensures old(TimedAll(peerIndex)) && latencyMs >= 0.0 ==> TimedAll(peerIndex)
    {
      peerIndex[did].Relocate(addr, latencyMs, now);
    }

    lemma IndexedPlaced(did: string)
      requires Valid()
      ensures did in peerIndex ==> decode(did).Some? && did != localDID && did != ""
    {
    }

    /** Replaces the health of one peer, in both views at once. */
    method UpdatePeerHealth(did: string, pacing: real, jitterMs: real, lossRate: real)
      requires Valid()
      modifies if did in peerIndex then {peerIndex[did]} else {}
      ensures did in peerIndex ==>
                var p := peerIndex[did];
                && (p.healthScore, p.healthState) == CalculateHealthScore(pacing, jitterMs, lossRate)
                && p.jitterMs == jitterMs && p.lossRate == lossRate
                && p.latencyMs == old(p.latencyMs) && p.addr == old(p.addr)
      ensures old(Graded()) ==> Graded()
      ensures old(Measured()) ==> Measured()
    {
      if did !in peerIndex {
        return;
      }
      var peer := peerIndex[did];
      var (score, state) := CalculateHealthScore(pacing, jitterMs, lossRate);
      peer.jitterMs := jitterMs;
      peer.lossRate := lossRate;
      peer.healthScore := score;
      peer.healthState := state;
    }

    /** Takes one DID out of both views and leaves every other peer in place. */
    method RemovePeer(did: string)
      requires Valid()
      modifies `rings, `peerIndex
      ensures Valid()
      ensures peerIndex == old(peerIndex) - {did}
      ensures old(Graded()) ==> Graded()
      ensures old(Measured()) ==> Measured()
      ensures rings == if did !in old(peerIndex) then old(rings)
                       else var r := old(peerIndex)[did].ringIndex; old(rings)[r := KeepOthers(old(rings)[r], did)]
    {
      hide Paired, Ring, Placed;
      if did !in peerIndex {
        assert peerIndex - {did} == peerIndex;
        return;
      }
      var p := peerIndex[did];
      var ring := p.ringIndex;
      ghost var i := PlaceOf(did);
      RemoveKeepsPaired(rings, peerIndex, ring, i);
      peerIndex := peerIndex - {did};
      if ring >= 0 && ring < |rings| {
        var newRing := Without(rings[ring], did);
        WithoutOne(rings[ring], did, i);
        rings := rings[ring := newRing];
      }
    }

    ghost function PlaceOf(did: string): (i: nat)
      requires Valid() && did in peerIndex
      reads this
      ensures var r := peerIndex[did].ringIndex;
              && peerIndex[did].did == did
              && r < |rings| && i < |rings[r]| && rings[r][i] == peerIndex[did]
              && forall k | 0 <= k < |rings[r]| :: rings[r][k].did == did <==> k == i
    {
      var r := peerIndex[did].ringIndex;
      assert peerIndex[did] in rings[r];
      var i :| 0 <= i < |rings[r]| && rings[r][i] == peerIndex[did];
      i
    }

    /**
     A direct healthy peer, else the cheapest live peer, else the healthiest of
     the dead; nobody only when there are no peers.
     */
    method FindNextHop(destDID: string) returns (hop: Route)
      requires Valid() && Graded()
      ensures hop == BadDestination <==> decode(destDID).None?
      ensures hop == NoRoute <==> decode(destDID).Some? && peerIndex == map[]
      ensures hop.Via? ==> hop.peer in peerIndex.Values
      ensures hop.Via? && destDID in peerIndex && peerIndex[destDID].healthState == HEALTHY ==> hop.peer == peerIndex[destDID]
      ensures hop.Via? && !(destDID in peerIndex && peerIndex[destDID].healthState == HEALTHY) ==>
                BestOf(peerIndex.Values, hop.peer, decode(destDID).value, config)
      ensures hop.Via? && !(destDID in peerIndex && peerIndex[destDID].healthState == HEALTHY) ==>
                forall p | p in peerIndex.Values && !StandingOf(p).Dead() :: !Outweighs(p, hop.peer, decode(destDID).value, config)
      ensures hop.Via? && StandingOf(hop.peer).Dead() ==> forall p | p in peerIndex.Values :: StandingOf(p).Dead()
    {
      hide Paired, Placed, Ring, HybridCost, Outweighs;
      var pubDest := decode(destDID);
      if pubDest.None? {
        return BadDestination;
      }
      if destDID in peerIndex {
        var direct := peerIndex[destDID];
        if direct.healthState == HEALTHY {
          return Via(direct);
        }
      }
      var best := FindBestPeerCandidate(peerIndex, pubDest.value, config);
      if best == null {
        return NoRoute;
      }
      BestIsNotOutweighed(peerIndex.Values, best, pubDest.value, config);
      return Via(best);
    }
  }

  datatype Route = BadDestination | NoRoute | Via(peer: PeerNode)

  // ---------------------------------------------------------------------
  // Next-hop selection
  // ---------------------------------------------------------------------

  /** XOR ring, latency and health combined; smaller is better. */
  function HybridCost(p: PeerNode, dest: Key, cfg: RouterConfig): real
    requires Usable(cfg)
    reads p
  {
    var normalizedXOR := Ring(p.publicKey, dest, cfg.numRings) as real / cfg.numRings as real;
    var lat := p.latencyMs / 250.0;
    var normLat := if lat > 1.0 then 1.0 else lat;
    ((1.0 - cfg.alpha) * normalizedXOR) + (cfg.alpha * normLat) - (p.healthScore / 100.0) * 0.2
  }

  /** Latency as far as it counts. */
  function Felt(latencyMs: real): real {
    if latencyMs > 250.0 then 250.0 else latencyMs
  }

  /**
   `p` is the better hop: rings weigh by one less alpha and milliseconds by alpha, a
   whole span of rings being worth 250 ms, and 100 points of score worth a fifth of it.
   */
  predicate Outweighs(p: PeerNode, q: PeerNode, dest: Key, cfg: RouterConfig)
    requires Usable(cfg)
    reads p, q
  {
    var rings := (Ring(p.publicKey, dest, cfg.numRings) - Ring(q.publicKey, dest, cfg.numRings)) as real;
    var felt := Felt(p.latencyMs) - Felt(q.latencyMs);
    var points := p.healthScore - q.healthScore;
    Tilts(cfg.alpha, rings, felt, points, cfg.numRings as real)
  }

  predicate Tilts(a: real, rings: real, felt: real, points: real, n: real) {
    (1.0 - a) * rings * 500.0 + a * felt * 2.0 * n < points * n
  }

  /** What a cost comes to, once fractions are cleared. */
  lemma CostInFigures(p: PeerNode, dest: Key, cfg: RouterConfig)
    requires Usable(cfg)
    ensures 500.0 * cfg.numRings as real * HybridCost(p, dest, cfg) ==
            (1.0 - cfg.alpha) * Ring(p.publicKey, dest, cfg.numRings) as real * 500.0
            + cfg.alpha * Felt(p.latencyMs) * 2.0 * cfg.numRings as real
            - p.healthScore * cfg.numRings as real
  {
    hide HybridCost, Mix, Ring;
    var n := cfg.numRings as real;
    var r := Ring(p.publicKey, dest, cfg.numRings) as real;
    Undivided(r, n);
    CostIsMix(p, dest, cfg);
    FractionsCleared(n, cfg.alpha, r / n, r, Felt(p.latencyMs), p.healthScore);
  }

  /** Distance and latency as shares of one, mixed by alpha, less the merit of the score. */
  function Mix(a: real, x: real, y: real, s: real): real {
    (1.0 - a) * x + a * y - (s / 100.0) * 0.2
  }

  lemma CostIsMix(p: PeerNode, dest: Key, cfg: RouterConfig)
    requires Usable(cfg)
    ensures HybridCost(p, dest, cfg) ==
            Mix(cfg.alpha, Ring(p.publicKey, dest, cfg.numRings) as real / cfg.numRings as real,
                Felt(p.latencyMs) / 250.0, p.healthScore)
  {
    var lat := p.latencyMs / 250.0;
    assert (if lat > 1.0 then 1.0 else lat) == Felt(p.latencyMs) / 250.0;
  }

  lemma Undivided(r: real, n: real)
    requires n > 0.0
    ensures r / n * n == r
  {
  }

  lemma FractionsCleared(n: real, a: real, x: real, r: real, l: real, s: real)
    requires x * n == r
    ensures 500.0 * n * Mix(a, x, l / 250.0, s) == (1.0 - a) * r * 500.0 + a * l * 2.0 * n - s * n
  {
    var u, v, w := (1.0 - a) * x, a * (l / 250.0), (s / 100.0) * 0.2;
    Regroup(1.0 - a, x, n);
    Regroup(a, l / 250.0, 250.0);
    assert v * 250.0 == a * l;
    assert w * 500.0 == s;
    ThreeTerms(u, v, w, n, (1.0 - a) * r, a * l, s);
  }

  lemma Regroup(a: real, x: real, n: real)
    ensures (a * x) * n == a * (x * n)
  {
  }

  lemma ThreeTerms(u: real, v: real, w: real, n: real, r: real, l: real, s: real)
    requires u * n == r && v * 250.0 == l && w * 500.0 == s
    ensures 500.0 * n * (u + v - w) == r * 500.0 + l * 2.0 * n - s * n
  {
    assert 500.0 * n * (u + v - w) == 500.0 * (u * n) + 500.0 * v * n - 500.0 * w * n;
  }

  /** The cheaper of two peers is the one that outweighs the other. */
  lemma CheaperOutweighs(p: PeerNode, q: PeerNode, dest: Key, cfg: RouterConfig)
    requires Usable(cfg)
    ensures HybridCost(p, dest, cfg) < HybridCost(q, dest, cfg) <==> Outweighs(p, q, dest, cfg)
  {
    hide HybridCost, Ring;
    CostInFigures(p, dest, cfg);
    CostInFigures(q, dest, cfg);
    var n := cfg.numRings as real;
    ScaledOrder(500.0 * n, HybridCost(p, dest, cfg), HybridCost(q, dest, cfg));
    var r, t := Ring(p.publicKey, dest, cfg.numRings) as real, Ring(q.publicKey, dest, cfg.numRings) as real;
    DifferenceOf(1.0 - cfg.alpha, r, t);
    DifferenceOf(cfg.alpha, Felt(p.latencyMs), Felt(q.latencyMs));
    SpanOf(cfg.alpha * Felt(p.latencyMs), cfg.alpha * Felt(q.latencyMs), n);
    DifferenceOf(n, p.healthScore, q.healthScore);
  }

  lemma ScaledOrder(k: real, c: real, d: real)
    requires k > 0.0
    ensures c < d <==> k * c < k * d
  {
  }

  lemma DifferenceOf(k: real, x: real, y: real)
    ensures k * (x - y) == k * x - k * y
  {
  }

  lemma SpanOf(x: real, y: real, n: real)
    ensures (x - y) * 2.0 * n == x * 2.0 * n - y * 2.0 * n
  {
  }

  /**
   Of two peers of equal score within 250 ms, the one that is `k` rings nearer and `d`
   milliseconds slower is preferred exactly if alpha * d * numRings < (1 - alpha) * k * 250.
   */
  lemma NearerOrFaster(p: PeerNode, q: PeerNode, dest: Key, cfg: RouterConfig, k: int, d: real)
    requires Usable(cfg) && p.healthScore == q.healthScore && p.latencyMs <= 250.0 && q.latencyMs <= 250.0
    requires k == Ring(q.publicKey, dest, cfg.numRings) - Ring(p.publicKey, dest, cfg.numRings)
    requires d == p.latencyMs - q.latencyMs
    ensures HybridCost(p, dest, cfg) < HybridCost(q, dest, cfg)
            <==> cfg.alpha * d * cfg.numRings as real < (1.0 - cfg.alpha) * k as real * 250.0
  {
    hide HybridCost, Ring;
    CheaperOutweighs(p, q, dest, cfg);
    Opposite(1.0 - cfg.alpha, k as real);
    assert (0 - k) as real == -(k as real);
  }

  lemma Opposite(a: real, k: real)
    ensures a * (-k) == -(a * k)
  {
  }

  /** Above 250 ms, or with alpha 0, latency no longer counts. */
  lemma DistanceAlone(p: PeerNode, q: PeerNode, dest: Key, cfg: RouterConfig)
    requires Usable(cfg) && p.healthScore == q.healthScore && cfg.alpha < 1.0
    requires (p.latencyMs >= 250.0 && q.latencyMs >= 250.0) || cfg.alpha == 0.0
    ensures HybridCost(p, dest, cfg) < HybridCost(q, dest, cfg)
            <==> Ring(p.publicKey, dest, cfg.numRings) < Ring(q.publicKey, dest, cfg.numRings)
  {
    CheaperOutweighs(p, q, dest, cfg);
    hide HybridCost, Ring, Tilts;
    OnlyRings(cfg.alpha, (Ring(p.publicKey, dest, cfg.numRings) - Ring(q.publicKey, dest, cfg.numRings)) as real,
              Felt(p.latencyMs) - Felt(q.latencyMs), p.healthScore - q.healthScore, cfg.numRings as real);
  }

  lemma OnlyRings(a: real, rings: real, felt: real, points: real, n: real)
    requires a < 1.0 && (a == 0.0 || felt == 0.0) && points == 0.0 && 0.0 < n
    ensures Tilts(a, rings, felt, points, n) <==> rings < 0.0
  {
    Nothing(a, felt);
    SignOf(1.0 - a, rings);
    SignSpan(a * felt, n);
    Nothing(points, n);
  }

  lemma Nothing(x: real, y: real)
    requires x == 0.0 || y == 0.0
    ensures x * y == 0.0
  {
  }

  /** With alpha 1 distance does not. */
  lemma LatencyAlone(p: PeerNode, q: PeerNode, dest: Key, cfg: RouterConfig)
    requires Usable(cfg) && p.healthScore == q.healthScore && cfg.alpha == 1.0
    ensures HybridCost(p, dest, cfg) < HybridCost(q, dest, cfg) <==> Felt(p.latencyMs) < Felt(q.latencyMs)
  {
    CheaperOutweighs(p, q, dest, cfg);
    hide HybridCost, Ring, Tilts, Felt;
    OnlyLatency((Ring(p.publicKey, dest, cfg.numRings) - Ring(q.publicKey, dest, cfg.numRings)) as real,
                Felt(p.latencyMs) - Felt(q.latencyMs), p.healthScore - q.healthScore, cfg.numRings as real);
  }

  lemma OnlyLatency(rings: real, felt: real, points: real, n: real)
    requires points == 0.0 && 0.0 < n
    ensures Tilts(1.0, rings, felt, points, n) <==> felt < 0.0
  {
    SignSpan(felt, n);
    Nothing(points, n);
  }

  lemma SignOf(k: real, x: real)
    requires 0.0 <= k
    ensures k * x < 0.0 <==> k != 0.0 && x < 0.0
    ensures k == 0.0 ==> k * x == 0.0
  {
  }

  lemma SignSpan(x: real, n: real)
    requires 0.0 < n
    ensures x * 2.0 * n < 0.0 <==> x < 0.0
    ensures x == 0.0 ==> x * 2.0 * n == 0.0
  {
  }

  const COST_SENTINEL := 999999.0

  /** A measured peer never costs as much as the sentinel the search starts from. */
  lemma CostBelowSentinel(p: PeerNode, dest: Key, cfg: RouterConfig)
    requires Usable(cfg) && p.healthScore >= 0.0
    ensures HybridCost(p, dest, cfg) <= 1.0
  {
    var x := Ring(p.publicKey, dest, cfg.numRings) as real / cfg.numRings as real;
    RatioBelowOne(Ring(p.publicKey, dest, cfg.numRings), cfg.numRings);
    var lat := p.latencyMs / 250.0;
    var l := if lat > 1.0 then 1.0 else lat;
    ConvexBelowOne(cfg.alpha, x, l);
  }

  lemma RatioBelowOne(r: nat, n: nat)
    requires r < n
    ensures r as real / n as real <= 1.0
  {
  }

  lemma ConvexBelowOne(a: real, x: real, y: real)
    requires 0.0 <= a <= 1.0 && x <= 1.0 && y <= 1.0
    ensures (1.0 - a) * x + a * y <= 1.0
  {
    assert (1.0 - a) * x <= (1.0 - a) * 1.0;
    assert a * y <= a * 1.0;
  }

  /** `best` is live and cheapest among the live; with nobody live, it has the highest score. */
  ghost predicate BestOf(peers: set<PeerNode>, best: PeerNode, dest: Key, cfg: RouterConfig)
    requires Usable(cfg)
    reads peers, best
  {
    if exists p :: p in peers && !StandingOf(p).Dead() then
      !StandingOf(best).Dead()
      && forall p | p in peers && !StandingOf(p).Dead() :: HybridCost(best, dest, cfg) <= HybridCost(p, dest, cfg)
    else forall p | p in peers :: p.healthScore <= best.healthScore
  }

  /** No live peer is a better hop than the best one. */
  lemma BestIsNotOutweighed(peers: set<PeerNode>, best: PeerNode, dest: Key, cfg: RouterConfig)
    requires Usable(cfg) && best in peers && BestOf(peers, best, dest, cfg)
    ensures forall p | p in peers && !StandingOf(p).Dead() :: !Outweighs(p, best, dest, cfg)
  {
    hide HybridCost, Outweighs;
    forall p | p in peers && !StandingOf(p).Dead()
      ensures !Outweighs(p, best, dest, cfg)
    {
      CheaperOutweighs(p, best, dest, cfg);
    }
  }

  /** Visits the peers in any order, as ranging over a map does. */
  method FindBestPeerCandidate(peers: Index, dest: Key, cfg: RouterConfig) returns (bestPeer: PeerNode?)
    requires Usable(cfg)
    requires forall p | p in peers.Values :: p.healthScore >= 0.0
    ensures bestPeer == null <==> peers == map[]
    ensures bestPeer != null ==> bestPeer in peers.Values && BestOf(peers.Values, bestPeer, dest, cfg)
  {
    hide HybridCost;
    bestPeer := null;
    var bestCost := COST_SENTINEL;
    var rest := peers.Values;
    while rest != {}
      invariant rest <= peers.Values
      invariant bestPeer == null ==> bestCost == COST_SENTINEL
      invariant bestPeer == null ==> forall p | p in peers.Values - rest :: StandingOf(p).Dead()
      invariant bestPeer != null ==>
                  && bestPeer in peers.Values && !StandingOf(bestPeer).Dead() && bestCost == HybridCost(bestPeer, dest, cfg)
                  && forall p | p in peers.Values - rest && !StandingOf(p).Dead() :: bestCost <= HybridCost(p, dest, cfg)
      decreases |rest|
    {
      var peer :| peer in rest;
      rest := rest - {peer};
      if peer.healthState == QUARANTINED || peer.healthState == UNREACHABLE {
        continue;
      }
      var cost := HybridCost(peer, dest, cfg);
      CostBelowSentinel(peer, dest, cfg);
      if cost < bestCost {
        bestCost := cost;
        bestPeer := peer;
      }
    }
    if bestPeer == null {
      bestPeer := Healthiest(peers);
    }
  }

  method Healthiest(peers: Index) returns (bestPeer: PeerNode?)
    ensures bestPeer == null <==> peers == map[]
    ensures bestPeer != null ==>
              bestPeer in peers.Values && forall p | p in peers.Values :: p.healthScore <= bestPeer.healthScore
  {
    if peers != map[] {
      ghost var d :| d in peers;
      assert peers[d] in peers.Values;
    }
    bestPeer := null;
    var rest := peers.Values;
    while rest != {}
      invariant rest <= peers.Values
      invariant bestPeer == null ==> rest == peers.Values
      invariant bestPeer != null ==>
                  bestPeer in peers.Values && forall p | p in peers.Values - rest :: p.healthScore <= bestPeer.healthScore
      decreases |rest|
    {
      var peer :| peer in rest;
      rest := rest - {peer};
      if bestPeer == null || peer.healthScore > bestPeer.healthScore {
        bestPeer := peer;
      }
    }
  }

  /** `newRing` of `RemovePeer`: the ring without the peers of that DID. */
  method Without(ring: seq<PeerNode>, did: string) returns (newRing: seq<PeerNode>)
    ensures newRing == KeepOthers(ring, did)
  {
    newRing := [];
    var k := 0;
    while k < |ring|
      invariant 0 <= k <= |ring|
      invariant newRing == KeepOthers(ring[..k], did)
    {
      assert ring[..k + 1][..k] == ring[..k];
      if ring[k].did != did {
        newRing := newRing + [ring[k]];
      }
      k := k + 1;
    }
    assert ring[..k] == ring;
  }

  function KeepOthers(ring: seq<PeerNode>, did: string): seq<PeerNode> {
    if ring == [] then []
    else
      var front := KeepOthers(ring[..|ring| - 1], did);
      if ring[|ring| - 1].did != did then front + [ring[|ring| - 1]] else front
  }

  /** The rings without the peer at that place, if there is such a place. */
  function WithoutPlace(rings: Rings, r: int, i: int): (rest: Rings)
    ensures |rest| == |rings| && forall s | 0 <= s < |rest| :: |rest[s]| <= |rings[s]|
  {
    if 0 <= r < |rings| && 0 <= i < |rings[r]| then RemoveAt(rings, r, i) else rings
  }

  /** Where a DID occurs once, leaving it out is cutting out that one place. */
  lemma {:induction false} WithoutOne(ring: seq<PeerNode>, did: string, i: nat)
    requires i < |ring| && forall k | 0 <= k < |ring| :: ring[k].did == did <==> k == i
    ensures KeepOthers(ring, did) == ring[..i] + ring[i + 1..]
  {
    var n := |ring| - 1;
    if i == n {
      KeepAll(ring[..n], did);
    } else {
      WithoutOne(ring[..n], did, i);
      assert ring[..n][i + 1..] + [ring[n]] == ring[i + 1..];
      assert ring[..n][..i] == ring[..i];
    }
  }

  lemma {:induction false} KeepAll(ring: seq<PeerNode>, did: string)
    requires forall k | 0 <= k < |ring| :: ring[k].did != did
    ensures KeepOthers(ring, did) == ring
  {
    if ring == [] {
    } else {
      KeepAll(ring[..|ring| - 1], did);
    }
  }

  lemma {:induction false} RangeBound(s: set<int>, n: nat)
    requires forall r | r in s :: 0 <= r < n
    ensures |s| <= n
  {
    if n == 0 {
      assert forall r :: r !in s;
      assert s == {};
    } else {
      RangeBound(s - {n - 1}, n - 1);
    }
  }

  lemma ProductGrows(k: nat, n: nat, p: nat)
    requires k <= n
    ensures k * p <= n * p
  {
  }

  lemma InRange(ring: seq<Standing>, latencyMs: real, e: int)
    requires LocalVictim(ring, latencyMs, e)
    ensures -1 <= e < |ring|
  {
  }

  lemma VictimInRange(st: seq<seq<Standing>>, r: int, i: int)
    requires GlobalVictim(st, r, i)
    ensures if r == -1 then i == -1 else Eligible(st, r, i)
  {
  }

  /** The three stock profiles set exactly that limit. */
  lemma StockProfilesCoverTheirRings()
    ensures forall cfg | cfg in {STANDARD, MICRO, BACKBONE} ::
              Normalize(cfg) == cfg && cfg.maxTotalPeers == cfg.numRings * cfg.peersPerRing
    ensures STANDARD.maxTotalPeers == 256 && MICRO.maxTotalPeers == 64 && BACKBONE.maxTotalPeers == 1024
    ensures STANDARD.alpha == 0.35 && MICRO.alpha == 0.25 && BACKBONE.alpha == 0.4
  {
  }

  lemma {:induction false} EmptyTotal(rings: Rings)
    requires forall r | 0 <= r < |rings| :: rings[r] == []
    ensures TotalSize(rings) == 0
  {
    if rings == [] {
    } else {
      EmptyTotal(rings[..|rings| - 1]);
    }
  }
}
