/**
 The two views the ring router keeps of its peers, rings and DID index, and what
 each structural change does to both. A peer's identity, key and ring never
 change after creation, so these facts do not depend on the heap.
 */
module RingStructure {
  import opened KeyMetric

  const HEALTHY := 0
  const DEGRADED := 1
  const UNSTABLE := 2
  const UNREACHABLE := 3
  const QUARANTINED := 4

  class PeerNode {
    const did: string
    const publicKey: Key
    const ringIndex: nat
    var addr: string
    var lastSeen: int
    var latencyMs: real
    var healthState: int
    var jitterMs: real
    var lossRate: real
    var healthScore: real

    constructor (did: string, publicKey: Key, ringIndex: nat, addr: string, now: int, latencyMs: real)
      ensures this.did == did && this.publicKey == publicKey && this.ringIndex == ringIndex
      ensures this.addr == addr && lastSeen == now && this.latencyMs == latencyMs
      ensures healthState == HEALTHY && healthScore == 100.0 && jitterMs == 0.0 && lossRate == 0.0
    {
      this.did, this.publicKey, this.ringIndex := did, publicKey, ringIndex;
      this.addr, lastSeen, this.latencyMs := addr, now, latencyMs;
      healthState, healthScore, jitterMs, lossRate := HEALTHY, 100.0, 0.0, 0.0;
    }

    /** A known peer at a new address; its health is not touched. */
    method Relocate(addr: string, latencyMs: real, now: int)
      modifies `addr, `lastSeen, `latencyMs
      ensures this.addr == addr && lastSeen == now && this.latencyMs == latencyMs
    {
      this.addr, lastSeen, this.latencyMs := addr, now, latencyMs;
    }
  }

  type Rings = seq<seq<PeerNode>>
  type Index = map<string, PeerNode>

  /** Every peer in a ring is indexed under its DID, and is in the ring it says. */
  ghost predicate RingsIndexed(rings: Rings, index: Index) {
    forall r, i | 0 <= r < |rings| && 0 <= i < |rings[r]| ::
      && rings[r][i].ringIndex == r
      && rings[r][i].did in index
      && index[rings[r][i].did] == rings[r][i]
  }

  /** Every indexed peer sits in its ring. */
  ghost predicate IndexInRings(rings: Rings, index: Index) {
    forall d | d in index ::
      && index[d].did == d
      && index[d].ringIndex < |rings|
      && index[d] in rings[index[d].ringIndex]
  }

  ghost predicate NoRepeats(rings: Rings) {
    forall r, i, j | 0 <= r < |rings| && 0 <= i < j < |rings[r]| :: rings[r][i] != rings[r][j]
  }

  function TotalSize(rings: Rings): nat {
    if rings == [] then 0 else TotalSize(rings[..|rings| - 1]) + |rings[|rings| - 1]|
  }

  /** Rings and index are two views of one set of peers. */
  ghost predicate Paired(rings: Rings, index: Index) {
    && RingsIndexed(rings, index)
    && IndexInRings(rings, index)
    && NoRepeats(rings)
    && TotalSize(rings) == |index|
  }

  function ReplaceAt(rings: Rings, r: nat, i: nat, p: PeerNode): Rings
    requires r < |rings| && i < |rings[r]|
  {
    rings[r := rings[r][i := p]]
  }

  function RemoveAt(rings: Rings, r: nat, i: nat): Rings
    requires r < |rings| && i < |rings[r]|
  {
    rings[r := rings[r][..i] + rings[r][i + 1..]]
  }

  function AppendTo(rings: Rings, r: nat, p: PeerNode): Rings
    requires r < |rings|
  {
    rings[r := rings[r] + [p]]
  }

  lemma {:induction false} TotalSizeUpdate(rings: Rings, r: nat, ring: seq<PeerNode>)
    requires r < |rings|
    ensures TotalSize(rings[r := ring]) == TotalSize(rings) - |rings[r]| + |ring|
  {
    var n := |rings| - 1;
    var changed := rings[r := ring];
    if r == n {
      assert changed[..n] == rings[..n];
    } else {
      assert changed[..n] == rings[..n][r := ring];
      TotalSizeUpdate(rings[..n], r, ring);
    }
  }

  /** Taking one peer out of its ring and out of the index. */
  lemma RemoveKeepsPaired(rings: Rings, index: Index, r: nat, i: nat)
    requires Paired(rings, index) && r < |rings| && i < |rings[r]|
    ensures Paired(RemoveAt(rings, r, i), index - {rings[r][i].did})
    ensures |index - {rings[r][i].did}| == |index| - 1
  {
    hide TotalSize;
    var p := rings[r][i];
    var ring' := rings[r][..i] + rings[r][i + 1..];
    var rings' := RemoveAt(rings, r, i);
    var index' := index - {p.did};
    TotalSizeUpdate(rings, r, ring');
    assert index'.Keys == index.Keys - {p.did};
    assert forall j | 0 <= j < |ring'| :: ring'[j] == rings[r][if j < i then j else j + 1];
    forall d | d in index'
      ensures index'[d] in rings'[index'[d].ringIndex]
    {
      var q := index[d];
      if q.ringIndex == r {
        var j :| 0 <= j < |rings[r]| && rings[r][j] == q;
        assert ring'[if j < i then j else j - 1] == q;
      }
    }
  }

  /** A new peer at the end of its ring and in the index. */
  lemma AppendKeepsPaired(rings: Rings, index: Index, p: PeerNode)
    requires Paired(rings, index) && p.ringIndex < |rings| && p.did !in index
    ensures Paired(AppendTo(rings, p.ringIndex, p), index[p.did := p])
    ensures |index[p.did := p]| == |index| + 1
  {
    hide TotalSize, RingsIndexed, IndexInRings, NoRepeats;
    TotalSizeUpdate(rings, p.ringIndex, rings[p.ringIndex] + [p]);
    assert index[p.did := p].Keys == index.Keys + {p.did};
    AppendInRings(rings, index, p);
    AppendInIndex(rings, index, p);
  }

  lemma AppendInRings(rings: Rings, index: Index, p: PeerNode)
    requires RingsIndexed(rings, index) && NoRepeats(rings) && p.ringIndex < |rings| && p.did !in index
    ensures RingsIndexed(AppendTo(rings, p.ringIndex, p), index[p.did := p])
    ensures NoRepeats(AppendTo(rings, p.ringIndex, p))
  {
  }

  lemma AppendInIndex(rings: Rings, index: Index, p: PeerNode)
    requires IndexInRings(rings, index) && p.ringIndex < |rings|
    ensures IndexInRings(AppendTo(rings, p.ringIndex, p), index[p.did := p])
  {
    var r := p.ringIndex;
    var ring' := rings[r] + [p];
    assert ring'[|rings[r]|] == p;
    forall d | d in index && d != p.did && index[d].ringIndex == r
      ensures index[d] in ring'
    {
    }
  }

  /** A new peer in the place of another one of its ring. */
  lemma ReplaceKeepsPaired(rings: Rings, index: Index, i: nat, p: PeerNode)
    requires Paired(rings, index) && p.ringIndex < |rings| && i < |rings[p.ringIndex]| && p.did !in index
    ensures var gone := rings[p.ringIndex][i];
            var index' := (index - {gone.did})[p.did := p];
            Paired(ReplaceAt(rings, p.ringIndex, i, p), index') && |index'| == |index|
  {
    hide TotalSize, RingsIndexed, IndexInRings, NoRepeats;
    var r := p.ringIndex;
    assert rings[r][i].did in index by { RingsAt(rings, index, r, i); }
    var index' := (index - {rings[r][i].did})[p.did := p];
    TotalSizeUpdate(rings, r, rings[r][i := p]);
    assert index'.Keys == index.Keys - {rings[r][i].did} + {p.did};
    ReplaceInRings(rings, index, i, p);
    ReplaceInIndex(rings, index, i, p);
  }

  lemma RingsAt(rings: Rings, index: Index, r: nat, i: nat)
    requires RingsIndexed(rings, index) && r < |rings| && i < |rings[r]|
    ensures rings[r][i].did in index
  {
  }

  lemma ReplaceInRings(rings: Rings, index: Index, i: nat, p: PeerNode)
    requires RingsIndexed(rings, index) && NoRepeats(rings)
    requires p.ringIndex < |rings| && i < |rings[p.ringIndex]| && p.did !in index
    ensures RingsIndexed(ReplaceAt(rings, p.ringIndex, i, p), (index - {rings[p.ringIndex][i].did})[p.did := p])
    ensures NoRepeats(ReplaceAt(rings, p.ringIndex, i, p))
  {
  }

  lemma ReplaceInIndex(rings: Rings, index: Index, i: nat, p: PeerNode)
    requires RingsIndexed(rings, index) && IndexInRings(rings, index)
    requires p.ringIndex < |rings| && i < |rings[p.ringIndex]|
    ensures IndexInRings(ReplaceAt(rings, p.ringIndex, i, p), (index - {rings[p.ringIndex][i].did})[p.did := p])
  {
    var r := p.ringIndex;
    var rings' := ReplaceAt(rings, r, i, p);
    var index' := (index - {rings[r][i].did})[p.did := p];
    forall d | d in index'
      ensures index'[d] in rings'[index'[d].ringIndex]
    {
      var q := index'[d];
      if d == p.did {
        assert rings'[r][i] == p;
      } else if q.ringIndex == r {
        var j :| 0 <= j < |rings[r]| && rings[r][j] == q;
        assert rings'[r][j] == q;
      }
    }
  }

  // ---------------------------------------------------------------------
  // How many peers fit
  // ---------------------------------------------------------------------

  /** With every ring outside `s` empty, a cap on rings caps the total at `|s|` rings full. */
  lemma {:induction false} RingsCapWithin(rings: Rings, cap: nat, s: set<int>)
    requires forall r | 0 <= r < |rings| :: |rings[r]| <= cap
    requires forall r | 0 <= r < |rings| && r !in s :: |rings[r]| == 0
    ensures TotalSize(rings) <= |s| * cap
    ensures (exists r :: 0 <= r < |rings| && r in s && |rings[r]| < cap) ==> TotalSize(rings) < |s| * cap
  {
    if rings == [] {
    } else {
      var n := |rings| - 1;
      var front, t := rings[..n], s - {n};
      RingsCapWithin(front, cap, t);
      if n in s {
        assert |s| == |t| + 1;
        OneMore(|t|, cap);
      } else {
        assert s == t;
      }
      forall r | 0 <= r < |rings| && r in s && |rings[r]| < cap
        ensures TotalSize(rings) < |s| * cap
      {
        assert r < n ==> front[r] == rings[r] && r in t;
      }
    }
  }

  lemma OneMore(k: nat, cap: nat)
    ensures (k + 1) * cap == k * cap + cap
  {
  }

  lemma {:induction false} RingsCapTotal(rings: Rings, cap: nat)
    requires forall r | 0 <= r < |rings| :: |rings[r]| <= cap
    ensures TotalSize(rings) <= |rings| * cap
    ensures (exists r :: 0 <= r < |rings| && |rings[r]| < cap) ==> TotalSize(rings) < |rings| * cap
  {
    if rings == [] {
    } else {
      var n := |rings| - 1;
      RingsCapTotal(rings[..n], cap);
      assert |rings| * cap == n * cap + cap;
      if r :| 0 <= r < |rings| && |rings[r]| < cap {
        assert r < n ==> |rings[..n][r]| < cap;
      }
    }
  }
}
