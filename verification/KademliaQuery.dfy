/**
 The nearest-contacts query of the Kademlia table: gather every bucket, score by
 XOR distance, sort, keep the first `count`.
 */
module KademliaQuery {
  import opened Wrappers
  import opened KeyMetric
  import opened KademliaTable

  datatype Scored = Scored(contact: Contact, distance: Key)

  predicate CloserScored(a: Scored, b: Scored) {
    CompareDistance(a.distance, b.distance) < 0
  }

  predicate Closer(target: Key, a: Contact, b: Contact) {
    CompareDistance(Distance(target, a.id), Distance(target, b.id)) < 0
  }

  // ---------------------------------------------------------------------
  // The answer, as a property
  // ---------------------------------------------------------------------

  /** `res` lists the `count` contacts of `all` closest to the target, nearest first. */
  ghost predicate IsNearest(res: seq<Contact>, all: set<Contact>, target: Key, count: nat) {
    && |res| == (if count < |all| then count else |all|)
    && (forall i | 0 <= i < |res| :: res[i] in all)
    && (forall i, j | 0 <= i < j < |res| :: Closer(target, res[i], res[j]))
    && (forall c, i | c in all && c !in res && 0 <= i < |res| :: Closer(target, res[i], c))
  }

  ghost predicate OneContactPerId(all: set<Contact>) {
    forall a, b | a in all && b in all && a.id == b.id :: a == b
  }

  lemma CloserIsStrictOrder(target: Key, a: Contact, b: Contact)
    ensures !(Closer(target, a, b) && Closer(target, b, a))
    ensures a.id != b.id ==> Closer(target, a, b) || Closer(target, b, a)
  {
    hide Distance, CompareDistance;
    CompareIsTotalOrder(Distance(target, a.id), Distance(target, b.id), Distance(target, a.id));
    if Distance(target, a.id) == Distance(target, b.id) {
      DistanceInjective(target, a.id, b.id);
    }
  }

  /** The contacts known decide the answer: no other list qualifies. */
  lemma NearestIsUnique(r: seq<Contact>, s: seq<Contact>, all: set<Contact>, target: Key, count: nat)
    requires OneContactPerId(all)
    requires IsNearest(r, all, target, count) && IsNearest(s, all, target, count)
    ensures r == s
  {
    NearestAgree(r, s, all, target, count, |r|);
  }

  lemma {:induction false} NearestAgree(r: seq<Contact>, s: seq<Contact>, all: set<Contact>, target: Key, count: nat, n: nat)
    requires OneContactPerId(all)
    requires IsNearest(r, all, target, count) && IsNearest(s, all, target, count)
    requires n <= |r|
    ensures r[..n] == s[..n]
  {
    hide Closer;
    if n == 0 {
    } else {
      var i := n - 1;
      NearestAgree(r, s, all, target, count, i);
      CloserIsStrictOrder(target, r[i], s[i]);
      if r[i] != s[i] {
        if Closer(target, r[i], s[i]) {
          NotBetween(r, s, all, target, count, i);
        } else {
          assert s[..i] == r[..i];
          NotBetween(s, r, all, target, count, i);
        }
      }
    }
  }

  /** With equal answers before place `i`, place `i` of one cannot be closer than place `i` of the other. */
  lemma NotBetween(r: seq<Contact>, s: seq<Contact>, all: set<Contact>, target: Key, count: nat, i: nat)
    requires IsNearest(r, all, target, count) && IsNearest(s, all, target, count)
    requires i < |r| && r[..i] == s[..i]
    ensures !Closer(target, r[i], s[i])
  {
    hide Closer;
    CloserIsStrictOrder(target, r[i], s[i]);
    if r[i] in s {
      var j :| 0 <= j < |s| && s[j] == r[i];
      if j < i {
        assert r[j] == r[..i][j] == s[..i][j] == s[j];
        CloserIsStrictOrder(target, r[j], r[i]);
      }
    }
  }

  // ---------------------------------------------------------------------
  // Gathering the buckets
  // ---------------------------------------------------------------------

  function Concat(bs: seq<seq<Contact>>): seq<Contact> {
    if bs == [] then [] else Concat(bs[..|bs| - 1]) + bs[|bs| - 1]
  }

  ghost function Elements(cs: seq<Contact>): set<Contact> {
    set c | c in cs
  }

  /** Bucket `k` holds distinct IDs, each sharing exactly `k` bits with the node. */
  ghost predicate BucketsDisjoint(bs: seq<seq<Contact>>, self: Key) {
    forall k | 0 <= k < |bs| :: DistinctIds(bs[k]) && forall i | 0 <= i < |bs[k]| :: PrefixLen(self, bs[k][i].id) == k
  }

  lemma {:induction false} ConcatDistinct(bs: seq<seq<Contact>>, self: Key)
    requires BucketsDisjoint(bs, self)
    ensures DistinctIds(Concat(bs))
    ensures forall c | c in Concat(bs) :: PrefixLen(self, c.id) < |bs|
  {
    hide PrefixLen;
    if bs == [] {
    } else {
      var front, last := bs[..|bs| - 1], bs[|bs| - 1];
      ConcatDistinct(front, self);
      assert forall c | c in last :: PrefixLen(self, c.id) == |bs| - 1;
      var left := Concat(front);
      assert Concat(bs) == left + last;
      forall i, j | 0 <= i < j < |left + last|
        ensures (left + last)[i].id != (left + last)[j].id
      {
        if i < |left| <= j {
          assert left[i] in left && last[j - |left|] in last;
        }
      }
    }
  }

  lemma {:induction false} DistinctElements(cs: seq<Contact>)
    requires DistinctIds(cs)
    ensures |Elements(cs)| == |cs|
    ensures OneContactPerId(Elements(cs))
  {
    if cs == [] {
    } else {
      var front, last := cs[..|cs| - 1], cs[|cs| - 1];
      DistinctElements(front);
      assert cs == front + [last];
      assert Elements(cs) == Elements(front) + {last};
      assert last !in front;
    }
  }

  /** What the table keeps makes its buckets disjoint. */
  lemma TableBucketsDisjoint(bs: seq<seq<Contact>>, self: Key, h: seq<Contact>)
    requires |bs| == KEY_BITS
    requires forall k | 0 <= k < KEY_BITS :: bs[k] == SlotAfter(Sightings(self, h, k)).bucket
    ensures BucketsDisjoint(bs, self)
  {
    hide SlotAfter, Sightings, PrefixLen, LastSighting, Admitted, HasId;
    forall k | 0 <= k < KEY_BITS
      ensures DistinctIds(bs[k]) && forall i | 0 <= i < |bs[k]| :: PrefixLen(self, bs[k][i].id) == k
    {
      var g := Sightings(self, h, k);
      SlotHoldsFirstEight(g);
      SightingsHavePrefix(self, h, k);
    }
  }

  lemma {:induction false} SightingsHavePrefix(self: Key, h: seq<Contact>, k: nat)
    ensures forall i | 0 <= i < |Sightings(self, h, k)| ::
              Sightings(self, h, k)[i].id != self && PrefixLen(self, Sightings(self, h, k)[i].id) == k
  {
    hide PrefixLen;
    if h == [] {
    } else {
      SightingsHavePrefix(self, h[..|h| - 1], k);
    }
  }

  method AllContacts(bs: seq<seq<Contact>>) returns (all: seq<Contact>)
    ensures all == Concat(bs)
  {
    all := [];
    var i := 0;
    while i < |bs|
      invariant 0 <= i <= |bs|
      invariant all == Concat(bs[..i])
    {
      assert bs[..i + 1][..i] == bs[..i];
      all := all + bs[i];
      i := i + 1;
    }
    assert bs[..i] == bs;
  }

  // ---------------------------------------------------------------------
  // Sorting by distance
  // ---------------------------------------------------------------------

  function InsertScored(xs: seq<Scored>, x: Scored): seq<Scored> {
    if xs == [] then [x]
    else if CloserScored(x, xs[0]) then [x] + xs
    else [xs[0]] + InsertScored(xs[1..], x)
  }

  /** A sort by distance; the order of equal distances is left to it, as in `sort.Slice`. */
  function SortScored(xs: seq<Scored>): seq<Scored> {
    if xs == [] then [] else InsertScored(SortScored(xs[..|xs| - 1]), xs[|xs| - 1])
  }

  ghost predicate StrictlySorted(xs: seq<Scored>) {
    forall i, j | 0 <= i < j < |xs| :: CloserScored(xs[i], xs[j])
  }

  ghost predicate DistinctDistances(xs: seq<Scored>) {
    forall i, j | 0 <= i < j < |xs| :: xs[i].distance != xs[j].distance
  }

  lemma {:induction false} InsertKeepsSorted(xs: seq<Scored>, x: Scored)
    requires StrictlySorted(xs)
    requires forall i | 0 <= i < |xs| :: xs[i].distance != x.distance
    ensures StrictlySorted(InsertScored(xs, x))
    ensures |InsertScored(xs, x)| == |xs| + 1
    ensures forall y :: y in InsertScored(xs, x) <==> y == x || y in xs
  {
    hide CompareDistance;
    if xs == [] {
    } else {
      CompareIsTotalOrder(x.distance, xs[0].distance, x.distance);
      assert xs == [xs[0]] + xs[1..];
      if CloserScored(x, xs[0]) {
        forall j | 0 <= j < |xs|
          ensures CloserScored(x, xs[j])
        {
          CompareIsTotalOrder(x.distance, xs[0].distance, xs[j].distance);
        }
      } else {
        InsertKeepsSorted(xs[1..], x);
        var rest := InsertScored(xs[1..], x);
        forall j | 0 <= j < |rest|
          ensures CloserScored(xs[0], rest[j])
        {
          assert rest[j] in rest;
        }
      }
    }
  }

  lemma {:induction false} SortIsSorted(xs: seq<Scored>)
    requires DistinctDistances(xs)
    ensures StrictlySorted(SortScored(xs))
    ensures |SortScored(xs)| == |xs|
    ensures forall y :: y in SortScored(xs) <==> y in xs
  {
    hide InsertScored, CloserScored;
    if xs == [] {
    } else {
      var front, last := xs[..|xs| - 1], xs[|xs| - 1];
      assert xs == front + [last];
      SortIsSorted(front);
      var s := SortScored(front);
      forall i | 0 <= i < |s|
        ensures s[i].distance != last.distance
      {
        assert s[i] in front;
      }
      InsertKeepsSorted(s, last);
    }
  }

  // ---------------------------------------------------------------------
  // The query
  // ---------------------------------------------------------------------

  method ScoreAll(all: seq<Contact>, target: Key) returns (scored: seq<Scored>)
    ensures |scored| == |all|
    ensures forall i | 0 <= i < |all| :: scored[i] == Scored(all[i], Distance(target, all[i].id))
  {
    hide Distance;
    scored := [];
    var i := 0;
    while i < |all|
      invariant 0 <= i <= |all| && |scored| == i
      invariant forall k | 0 <= k < i :: scored[k] == Scored(all[k], Distance(target, all[k].id))
    {
      var d := XORDistance(target, all[i].id);
      scored := scored + [Scored(all[i], d)];
      i := i + 1;
    }
  }

  lemma {:induction false} ConcatHasAll(bs: seq<seq<Contact>>)
    ensures forall c :: c in Concat(bs) <==> exists k :: 0 <= k < |bs| && c in bs[k]
  {
    if bs == [] {
    } else {
      var n := |bs| - 1;
      var front := bs[..n];
      ConcatHasAll(front);
      assert forall k | 0 <= k < n :: front[k] == bs[k];
      assert Concat(bs) == Concat(front) + bs[n];
    }
  }

  /**
   Returns the `count` contacts of the table nearest to the target, nearest first;
   `None` stands for the panic on slicing to a negative count.
   */
  method FindClosest(rt: RoutingTable, target: Key, count: int) returns (found: Option<seq<Contact>>)
    requires rt.Valid()
    ensures found.None? <==> count < 0
    ensures found.Some? ==> IsNearest(found.value, Elements(Concat(rt.buckets[..])), target, count)
    ensures forall c :: c in Elements(Concat(rt.buckets[..])) <==> exists k :: 0 <= k < 256 && c in rt.buckets[k]
    ensures OneContactPerId(Elements(Concat(rt.buckets[..])))
    ensures |Elements(Concat(rt.buckets[..]))| == |Concat(rt.buckets[..])|
  {
    hide Distance, CompareDistance, PrefixLen, SlotAfter, Concat;
    ConcatHasAll(rt.buckets[..]);
    var all := AllContacts(rt.buckets[..]);
    TableBucketsDisjoint(rt.buckets[..], rt.selfID, rt.history);
    ConcatDistinct(rt.buckets[..], rt.selfID);
    DistinctElements(all);
    var scored := ScoreAll(all, target);
    ScoresDistinct(all, target, scored);
    var sorted := SortScored(scored);
    SortIsSorted(scored);
    if |sorted| > count && count < 0 {
      return None;
    }
    var n := if |sorted| > count then count else |sorted|;
    var res: seq<Contact> := [];
    var i := 0;
    while i < n
      invariant 0 <= i <= n && |res| == i
      invariant forall k | 0 <= k < i :: res[k] == sorted[k].contact
    {
      res := res + [sorted[i].contact];
      i := i + 1;
    }
    PrefixIsNearest(all, target, scored, sorted, res, count);
    return Some(res);
  }

  lemma ScoresDistinct(all: seq<Contact>, target: Key, scored: seq<Scored>)
    requires DistinctIds(all) && |scored| == |all|
    requires forall i | 0 <= i < |all| :: scored[i] == Scored(all[i], Distance(target, all[i].id))
    ensures DistinctDistances(scored)
  {
    hide Distance;
    forall i, j | 0 <= i < j < |scored|
      ensures scored[i].distance != scored[j].distance
    {
      if scored[i].distance == scored[j].distance {
        DistanceInjective(target, all[i].id, all[j].id);
      }
    }
  }

  lemma PrefixIsNearest(all: seq<Contact>, target: Key, scored: seq<Scored>, sorted: seq<Scored>, res: seq<Contact>, count: nat)
    requires |scored| == |all| == |sorted| && |Elements(all)| == |all|
    requires forall i | 0 <= i < |all| :: scored[i] == Scored(all[i], Distance(target, all[i].id))
    requires StrictlySorted(sorted) && forall y :: y in sorted <==> y in scored
    requires |res| == if |sorted| > count then count else |sorted|
    requires forall i | 0 <= i < |res| :: res[i] == sorted[i].contact
    ensures IsNearest(res, Elements(all), target, count)
  {
    hide Distance, CompareDistance;
    forall i | 0 <= i < |sorted|
      ensures sorted[i].contact in all && sorted[i].distance == Distance(target, sorted[i].contact.id)
    {
      assert sorted[i] in scored;
    }
    forall c, i | c in Elements(all) && c !in res && 0 <= i < |res|
      ensures Closer(target, res[i], c)
    {
      var k :| 0 <= k < |all| && all[k] == c;
      assert scored[k] in sorted;
      var j :| 0 <= j < |sorted| && sorted[j] == scored[k];
      assert forall m | 0 <= m < |res| :: sorted[m].contact in res;
    }
  }
}
