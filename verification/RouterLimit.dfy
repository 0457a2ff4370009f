/**
 Which configurations of the ring router can pass their peer limit: exactly those
 with `maxTotalPeers` neither above the number of rings that have names nor large
 enough for all of them full.
 */
module RouterLimit {
  import opened Wrappers
  import opened KeyMetric
  import opened RingStructure
  import opened KleinbergRouter

  // ---------------------------------------------------------------------
  // Driving a router past its limit
  // ---------------------------------------------------------------------

  /** One DID more than the limit allows: all but the last for different rings, and the last for one with room. */
  ghost predicate FillsRings(r: KleinbergRouter, dids: seq<string>) {
    && 0 < r.config.maxTotalPeers && |dids| == r.config.maxTotalPeers + 1
    && (forall i | 0 <= i < |dids| :: r.Nameable(dids[i]))
    && (forall i, j | 0 <= i < j < |dids| - 1 :: r.HomeOf(dids[i]) != r.HomeOf(dids[j]))
    && (forall i | 0 <= i < |dids| - 1 ::
          && dids[i] != dids[|dids| - 1]
          && (r.HomeOf(dids[i]) != r.HomeOf(dids[|dids| - 1]) || r.config.peersPerRing > 1))
  }

  ghost predicate AllNameable(r: KleinbergRouter, dids: seq<string>) {
    forall i | 0 <= i < |dids| :: r.Nameable(dids[i])
  }

  /** The rings of the first `j` DIDs. */
  ghost function Homes(r: KleinbergRouter, dids: seq<string>, j: nat): set<int>
    requires AllNameable(r, dids)
  {
    set i | 0 <= i < j && i < |dids| :: r.HomeOf(dids[i])
  }

  /** One peer in each of these rings and none in the others. */
  ghost predicate OneEach(rings: Rings, homes: set<int>) {
    forall k | 0 <= k < |rings| :: |rings[k]| == if k in homes then 1 else 0
  }

  ghost function Firsts(dids: seq<string>, j: nat): set<string> {
    set i | 0 <= i < j && i < |dids| :: dids[i]
  }

  lemma EmptyRings(r: KleinbergRouter, dids: seq<string>)
    requires r.Valid() && r.peerIndex == map[] && AllNameable(r, dids)
    ensures OneEach(r.rings, Homes(r, dids, 0)) && r.Measured()
  {
    forall k | 0 <= k < |r.rings|
      ensures |r.rings[k]| == 0
    {
      TotalSizeUpdate(r.rings, k, []);
    }
  }

  /** A DID for a ring that is still empty opens it, while the table is under its limit. */
  method AddNext(r: KleinbergRouter, did: string)
    requires r.Valid() && r.Measured() && r.Admissible(did)
    requires |r.peerIndex| < r.config.maxTotalPeers && |r.rings[r.HomeOf(did)]| == 0
    modifies r
    ensures r.Valid() && r.Measured() && |r.peerIndex| == |old(r.peerIndex)| + 1
    ensures r.peerIndex.Keys == old(r.peerIndex).Keys + {did}
    ensures |r.rings| == |old(r.rings)|
    ensures forall k | 0 <= k < |r.rings| :: |r.rings[k]| == if k == r.HomeOf(did) then 1 else |old(r.rings)[k]|
  {
    hide Paired, Ring, GlobalVictim, LocalVictim, Standings, Sparse;
    hide KleinbergRouter.Measured, KleinbergRouter.Graded, KleinbergRouter.Tips, KleinbergRouter.Placed, KleinbergRouter.LimitSafe;
    var ok, vr, vi := r.AddOrUpdatePeer(did, "", 0.0, 0);
  }

  /** One peer in one ring after another, up to the limit. */
  method FillToLimit(r: KleinbergRouter, dids: seq<string>)
    requires r.Valid() && r.peerIndex == map[] && FillsRings(r, dids)
    modifies r
    ensures r.Valid() && r.Measured() && |r.peerIndex| == r.config.maxTotalPeers
    ensures OneEach(r.rings, Homes(r, dids, r.config.maxTotalPeers))
    ensures dids[r.config.maxTotalPeers] !in r.peerIndex
  {
    EmptyRings(r, dids);
    hide FillsRings, AllNameable, KleinbergRouter.Valid, KleinbergRouter.Measured, OneEach, Firsts, Homes;
    assert r.config.maxTotalPeers > 0 && AllNameable(r, dids) by { UsableRouter(r, dids); }
    var j := 0;
    while j < r.config.maxTotalPeers
      invariant 0 <= j <= r.config.maxTotalPeers
      invariant r.Valid() && r.Measured() && |r.peerIndex| == j && OneEach(r.rings, Homes(r, dids, j))
      invariant r.peerIndex.Keys <= Firsts(dids, j)
    {
      FillOne(r, dids, j);
      j := j + 1;
    }
    LastIsNew(r, dids);
  }

  method FillOne(r: KleinbergRouter, dids: seq<string>, j: nat)
    requires r.Valid() && r.Measured() && FillsRings(r, dids) && AllNameable(r, dids) && j < r.config.maxTotalPeers
    requires |r.peerIndex| == j && OneEach(r.rings, Homes(r, dids, j)) && r.peerIndex.Keys <= Firsts(dids, j)
    modifies r
    ensures r.Valid() && r.Measured() && |r.peerIndex| == j + 1 && OneEach(r.rings, Homes(r, dids, j + 1))
    ensures r.peerIndex.Keys <= Firsts(dids, j + 1)
  {
    hide FillsRings, AllNameable, KleinbergRouter.Valid, KleinbergRouter.Measured, OneEach, Firsts, Homes, Ring;
    hide KleinbergRouter.Admissible, KleinbergRouter.HomeOf;
    NextIsNew(r, dids, j);
    ghost var rings0 := r.rings;
    AddNext(r, dids[j]);
    NextOneEach(r, dids, j, rings0);
  }

  lemma UsableRouter(r: KleinbergRouter, dids: seq<string>)
    requires r.Valid() && FillsRings(r, dids)
    ensures r.config.maxTotalPeers > 0 && AllNameable(r, dids)
  {
  }

  lemma NextIsNew(r: KleinbergRouter, dids: seq<string>, j: nat)
    requires r.Valid() && FillsRings(r, dids) && AllNameable(r, dids) && j < r.config.maxTotalPeers
    requires r.peerIndex.Keys <= Firsts(dids, j) && OneEach(r.rings, Homes(r, dids, j))
    ensures j < |dids| && r.Admissible(dids[j]) && |r.rings[r.HomeOf(dids[j])]| == 0
    ensures Firsts(dids, j) + {dids[j]} <= Firsts(dids, j + 1)
  {
    hide Ring, Paired;
    assert r.Nameable(dids[j]);
  }

  lemma NextOneEach(r: KleinbergRouter, dids: seq<string>, j: nat, rings0: Rings)
    requires AllNameable(r, dids) && j < |dids| && |rings0| == |r.rings|
    requires OneEach(rings0, Homes(r, dids, j))
    requires forall k | 0 <= k < |r.rings| :: |r.rings[k]| == if k == r.HomeOf(dids[j]) then 1 else |rings0[k]|
    ensures OneEach(r.rings, Homes(r, dids, j + 1))
  {
    hide Ring;
    assert Homes(r, dids, j + 1) == Homes(r, dids, j) + {r.HomeOf(dids[j])};
  }

  lemma LastIsNew(r: KleinbergRouter, dids: seq<string>)
    requires FillsRings(r, dids) && r.peerIndex.Keys <= Firsts(dids, r.config.maxTotalPeers)
    ensures dids[r.config.maxTotalPeers] !in r.peerIndex
  {
  }

  /** A router whose limit is not safe is driven past it by plain additions. */
  method FillBeyondLimit(r: KleinbergRouter, dids: seq<string>)
    requires r.Valid() && r.peerIndex == map[] && FillsRings(r, dids)
    modifies r
    ensures r.Valid() && r.Measured() && |r.peerIndex| > r.config.maxTotalPeers
  {
    UsableRouter(r, dids);
    FillToLimit(r, dids);
    LastTips(r, dids);
    hide FillsRings, KleinbergRouter.Valid, KleinbergRouter.Measured, KleinbergRouter.LimitSafe, OneEach, Homes;
    hide KleinbergRouter.Admissible, KleinbergRouter.Tips, KleinbergRouter.Swapped, KleinbergRouter.Seated;
    hide KleinbergRouter.VictimByRule, KleinbergRouter.VictimDid, KleinbergRouter.Graded, Standings, Ring;
    var ok, vr, vi := r.AddOrUpdatePeer(dids[r.config.maxTotalPeers], "", 0.0, 0);
  }

  lemma LastTips(r: KleinbergRouter, dids: seq<string>)
    requires r.Valid() && FillsRings(r, dids) && AllNameable(r, dids)
    requires |r.peerIndex| == r.config.maxTotalPeers
    requires OneEach(r.rings, Homes(r, dids, r.config.maxTotalPeers))
    requires dids[r.config.maxTotalPeers] !in r.peerIndex
    ensures var did := dids[r.config.maxTotalPeers];
            r.Admissible(did) && r.Tips(Ring(r.localPub, r.decode(did).value, r.config.numRings))
  {
    hide Paired, Ring;
  }

  // ---------------------------------------------------------------------
  // Which routers can be driven past it
  // ---------------------------------------------------------------------

  /** Two texts that lead to one ring. */
  ghost predicate TwoNamesInARing(r: KleinbergRouter) {
    exists d, e :: d != e && r.Nameable(d) && r.Nameable(e) && r.HomeOf(d) == r.HomeOf(e)
  }

  /** DIDs for `m` different rings out of `s`. */
  lemma {:induction false} PickNames(r: KleinbergRouter, s: set<int>, m: nat) returns (dids: seq<string>)
    requires m <= |s| && forall k | k in s :: r.Named(k)
    ensures |dids| == m && AllNameable(r, dids)
    ensures forall i | 0 <= i < m :: r.HomeOf(dids[i]) in s
    ensures forall i, j | 0 <= i < j < m :: r.HomeOf(dids[i]) != r.HomeOf(dids[j])
    decreases m
  {
    hide Ring;
    if m == 0 {
      dids := [];
    } else {
      assert (forall k :: k !in s) ==> s == {};
      var k :| k in s;
      var d :| r.Nameable(d) && r.HomeOf(d) == k;
      dids := PickNames(r, s - {k}, m - 1);
      dids := dids + [d];
    }
  }

  /**
   If some ring has two names, a router whose limit is not safe has the DIDs that
   drive it past; a safe one never passes its limit, so the condition is exact.
   */
  lemma UnsafeIsFillable(r: KleinbergRouter) returns (dids: seq<string>)
    requires Usable(r.config) && !r.LimitSafe() && TwoNamesInARing(r)
    ensures FillsRings(r, dids)
  {
    hide Ring, KleinbergRouter.HomeOf;
    var s, max := r.NamedRings(), r.config.maxTotalPeers;
    if max < |s| {
      dids := PickNames(r, s, max + 1);
    } else {
      OneIsNotEnough(|s|, r.config.peersPerRing, max);
      var picks := PickNames(r, s, max);
      var d, e :| d != e && r.Nameable(d) && r.Nameable(e) && r.HomeOf(d) == r.HomeOf(e);
      var last := if d in picks then e else d;
      assert last !in picks;
      dids := picks + [last];
    }
  }

  lemma OneIsNotEnough(k: nat, p: nat, max: nat)
    requires max < k * p && k <= max
    ensures 1 < p
  {
    assert p == 0 ==> k * p == 0;
    assert p == 1 ==> k * p == k;
  }

  /** Some DID the router takes leads to this key. */
  ghost predicate KeyNamed(r: KleinbergRouter, k: Key) {
    exists d :: r.Nameable(d) && r.decode(d) == Some(k)
  }

  /**
   Where every key but the local one has a name, the rings with names are those up
   to the 256th, without ring 0 if there are more than 128 and the local key has no
   second name.
   */
  lemma NamedRingsWithAllKeys(r: KleinbergRouter)
    requires Usable(r.config) && forall k: Key | k != r.localPub :: KeyNamed(r, k)
    ensures var low := if r.config.numRings <= 128 || KeyNamed(r, r.localPub) then 0 else 1;
            var high := if r.config.numRings <= KEY_BITS then r.config.numRings else KEY_BITS + 1;
            r.NamedRings() == Range(low, high) && |r.NamedRings()| == high - low
  {
    hide Ring, KeyNamed;
    var n := r.config.numRings;
    var low := if n <= 128 || KeyNamed(r, r.localPub) then 0 else 1;
    var high := if n <= KEY_BITS then n else KEY_BITS + 1;
    forall k | 0 <= k < n
      ensures r.Named(k) <==> low <= k < high
    {
      NamedExactly(r, k);
    }
    RangeSize(low, high);
    assert r.NamedRings() == Range(low, high);
  }

  lemma NamedExactly(r: KleinbergRouter, k: nat)
    requires Usable(r.config) && k < r.config.numRings && forall key: Key | key != r.localPub :: KeyNamed(r, key)
    ensures r.Named(k) <==>
            k <= KEY_BITS && (k != 0 || r.config.numRings <= 128 || KeyNamed(r, r.localPub))
  {
    hide Ring;
    var n := r.config.numRings;
    OtherKeyInRing(r.localPub, n, k);
    RingLaws(r.localPub, r.localPub, r.localPub, n);
    if r.Named(k) {
      var d :| r.Nameable(d) && r.HomeOf(d) == k;
      var key := r.decode(d).value;
      assert Ring(r.localPub, key, n) == k;
      assert KeyNamed(r, key);
    }
    if exists b: Key :: b != r.localPub && Ring(r.localPub, b, n) == k {
      var b: Key :| b != r.localPub && Ring(r.localPub, b, n) == k;
      assert KeyNamed(r, b);
      var d :| r.Nameable(d) && r.decode(d) == Some(b);
      assert r.HomeOf(d) == k;
    } else if k == 0 && KeyNamed(r, r.localPub) {
      var d :| r.Nameable(d) && r.decode(d) == Some(r.localPub);
      assert r.HomeOf(d) == k;
    }
  }

  ghost function Range(low: int, high: int): set<int>
    decreases high - low
  {
    if high <= low then {} else Range(low, high - 1) + {high - 1}
  }

  lemma {:induction false} RangeSize(low: int, high: int)
    requires low <= high
    ensures |Range(low, high)| == high - low
    ensures forall k :: k in Range(low, high) <==> low <= k < high
    decreases high - low
  {
    if low == high {
    } else {
      RangeSize(low, high - 1);
    }
  }

  /** A table for one peer ends up with two, in different rings. */
  method TwoPeersInATableOfOne() returns (r: KleinbergRouter)
    ensures r.Valid() && r.Measured() && r.config == RouterConfig(16, 16, 1, 0.35)
    ensures |r.peerIndex| > r.config.maxTotalPeers
  {
    hide PrefixLen, Flipped, KleinbergRouter.Valid;
    var local: Key := seq(KEY_BYTES, _ => 0);
    var near, far := Flipped(local, 255), Flipped(local, 240);
    FlippedPrefix(local, 255);
    FlippedPrefix(local, 240);
    var cfg := RouterConfig(16, 16, 1, 0.35);
    NormalizedIsUsable(cfg);
    r := new KleinbergRouter("local", local, cfg,
                             d => if d == "near" then Some(near) else if d == "far" then Some(far) else None);
    FillBeyondLimit(r, ["near", "far"]);
  }
}
