/**
 The Kademlia routing table: 256 buckets ordered by last sighting, a short
 replacement list behind each, and the nearest-contacts query.
 */
module KademliaTable {
  import opened KeyMetric

  const BUCKET_SIZE := 8
  const REPLACEMENT_SIZE := 4

  datatype Contact = Contact(id: Key, did: string, endpoint: string, lastSeen: int)

  // ---------------------------------------------------------------------
  // One bucket on values
  // ---------------------------------------------------------------------

  datatype Slot = Slot(bucket: seq<Contact>, replacements: seq<Contact>)

  predicate HasId(cs: seq<Contact>, id: Key) {
    exists i :: 0 <= i < |cs| && cs[i].id == id
  }

  /** The first position of an ID, or the length. */
  function IndexOfId(cs: seq<Contact>, id: Key): (i: nat)
    ensures i <= |cs|
    ensures i < |cs| ==> cs[i].id == id
    ensures forall k | 0 <= k < i :: cs[k].id != id
    ensures i < |cs| <==> HasId(cs, id)
  {
    if cs == [] then 0
    else if cs[0].id == id then 0
    else
      var j := IndexOfId(cs[1..], id);
      assert forall k | 0 < k < |cs| :: cs[k] == cs[1..][k - 1];
      j + 1
  }

  function UpdateSlot(s: Slot, c: Contact): Slot {
    var i := IndexOfId(s.bucket, c.id);
    if i < |s.bucket| then s.(bucket := s.bucket[..i] + s.bucket[i + 1..] + [c])
    else if |s.bucket| < BUCKET_SIZE then s.(bucket := s.bucket + [c])
    else
      var rep := s.replacements;
      var j := IndexOfId(rep, c.id);
      if j < |rep| then s.(replacements := rep[j := c])
      else if |rep| < REPLACEMENT_SIZE then s.(replacements := rep + [c])
      else s.(replacements := rep[1..] + [c])
  }

  /** The slot after the given sightings, oldest first. */
  function SlotAfter(h: seq<Contact>): Slot {
    if h == [] then Slot([], []) else UpdateSlot(SlotAfter(h[..|h| - 1]), h[|h| - 1])
  }

  // ---------------------------------------------------------------------
  // What a bucket holds, in terms of the sightings alone
  // ---------------------------------------------------------------------

  /** The distinct IDs in order of first sighting. */
  function FirstIds(h: seq<Contact>): seq<Key> {
    if h == [] then []
    else
      var before := FirstIds(h[..|h| - 1]);
      if h[|h| - 1].id in before then before else before + [h[|h| - 1].id]
  }

  /** The first eight of them. */
  function Admitted(h: seq<Contact>): seq<Key> {
    if |FirstIds(h)| <= BUCKET_SIZE then FirstIds(h) else FirstIds(h)[..BUCKET_SIZE]
  }

  /** The last four of a list. */
  function LastFour(ids: seq<Key>): seq<Key> {
    if |ids| <= REPLACEMENT_SIZE then ids else ids[|ids| - REPLACEMENT_SIZE..]
  }

  /**
   The IDs in the order in which they joined the queue behind the bucket: a sighting
   joins if its ID is neither admitted nor among the last four that joined.
   */
  function Joined(h: seq<Contact>): seq<Key> {
    if h == [] then []
    else
      var before, id := Joined(h[..|h| - 1]), h[|h| - 1].id;
      if id in Admitted(h) || id in LastFour(before) then before else before + [id]
  }

  function IdsOf(cs: seq<Contact>): (ids: seq<Key>)
    ensures |ids| == |cs| && forall i | 0 <= i < |cs| :: ids[i] == cs[i].id
  {
    if cs == [] then [] else IdsOf(cs[..|cs| - 1]) + [cs[|cs| - 1].id]
  }

  /** One more than the position of the last sighting of an ID; 0 if it was never seen. */
  function LastSighting(h: seq<Contact>, id: Key): (n: nat)
    ensures n <= |h|
    ensures n != 0 ==> h[n - 1].id == id
    ensures forall k | n <= k < |h| :: h[k].id != id
  {
    if h == [] then 0
    else if h[|h| - 1].id == id then |h|
    else LastSighting(h[..|h| - 1], id)
  }

  /** Every entry is the last sighting of its ID. */
  ghost predicate Latest(cs: seq<Contact>, h: seq<Contact>) {
    forall i | 0 <= i < |cs| :: LastSighting(h, cs[i].id) != 0 && cs[i] == h[LastSighting(h, cs[i].id) - 1]
  }

  ghost predicate ByLastSighting(cs: seq<Contact>, h: seq<Contact>) {
    forall i, j | 0 <= i < j < |cs| :: LastSighting(h, cs[i].id) < LastSighting(h, cs[j].id)
  }

  ghost predicate DistinctIds(cs: seq<Contact>) {
    forall i, j | 0 <= i < j < |cs| :: cs[i].id != cs[j].id
  }

  ghost predicate BucketCorrect(b: seq<Contact>, h: seq<Contact>) {
    && |b| == |Admitted(h)| <= BUCKET_SIZE
    && (forall id: Key :: HasId(b, id) <==> id in Admitted(h))
    && Latest(b, h)
    && ByLastSighting(b, h)
  }

  ghost predicate ReplacementsCorrect(r: seq<Contact>, h: seq<Contact>) {
    && |r| <= REPLACEMENT_SIZE
    && DistinctIds(r)
    && Latest(r, h)
    && (forall i | 0 <= i < |r| :: r[i].id !in Admitted(h))
    && (r != [] ==> |FirstIds(h)| >= BUCKET_SIZE)
    && (h != [] && h[|h| - 1].id !in Admitted(h) ==> HasId(r, h[|h| - 1].id))
  }

  lemma SightingStep(g: seq<Contact>, c: Contact, id: Key)
    ensures LastSighting(g + [c], id) == if id == c.id then |g| + 1 else LastSighting(g, id)
  {
    assert (g + [c])[..|g|] == g;
  }

  lemma AdmittedStep(g: seq<Contact>, c: Contact)
    ensures Admitted(g + [c]) ==
            if c.id !in FirstIds(g) && |FirstIds(g)| < BUCKET_SIZE then Admitted(g) + [c.id] else Admitted(g)
    ensures FirstIds(g + [c]) == if c.id in FirstIds(g) then FirstIds(g) else FirstIds(g) + [c.id]
    ensures forall id | id in Admitted(g) :: id in FirstIds(g)
  {
    assert (g + [c])[..|g|] == g;
  }

  lemma LatestStep(cs: seq<Contact>, g: seq<Contact>, c: Contact)
    requires Latest(cs, g) && !HasId(cs, c.id)
    ensures Latest(cs, g + [c]) && Latest(cs + [c], g + [c])
  {
    forall i | 0 <= i < |cs|
      ensures LastSighting(g + [c], cs[i].id) == LastSighting(g, cs[i].id)
    {
      SightingStep(g, c, cs[i].id);
    }
    SightingStep(g, c, c.id);
  }

  lemma OrderStep(cs: seq<Contact>, g: seq<Contact>, c: Contact)
    requires ByLastSighting(cs, g) && !HasId(cs, c.id)
    ensures ByLastSighting(cs, g + [c]) && ByLastSighting(cs + [c], g + [c])
  {
    forall i | 0 <= i < |cs|
      ensures LastSighting(g + [c], cs[i].id) == LastSighting(g, cs[i].id) <= |g|
    {
      SightingStep(g, c, cs[i].id);
    }
    SightingStep(g, c, c.id);
  }

  /** Taking one entry out of an ordered bucket leaves it ordered and without that ID. */
  lemma RemoveEntry(b: seq<Contact>, g: seq<Contact>, i: nat)
    requires i < |b| && Latest(b, g) && ByLastSighting(b, g)
    ensures var rest := b[..i] + b[i + 1..];
            && Latest(rest, g) && ByLastSighting(rest, g)
            && (forall id: Key :: HasId(rest, id) <==> HasId(b, id) && id != b[i].id)
  {
    hide LastSighting, HasId;
    var rest := b[..i] + b[i + 1..];
    assert forall k | 0 <= k < |rest| :: rest[k] == b[if k < i then k else k + 1];
    assert DistinctIds(b);
    forall id: Key
      ensures HasId(rest, id) <==> HasId(b, id) && id != b[i].id
    {
      RemovedId(b, i, id);
    }
  }

  lemma RemovedId(b: seq<Contact>, i: nat, id: Key)
    requires i < |b| && DistinctIds(b)
    ensures HasId(b[..i] + b[i + 1..], id) <==> HasId(b, id) && id != b[i].id
  {
    var rest := b[..i] + b[i + 1..];
    if HasId(rest, id) {
      var k :| 0 <= k < |rest| && rest[k].id == id;
      hide HasId;
      PlaceInRest(b, i, if k < i then k else k + 1);
      HasIdAt(b, if k < i then k else k + 1);
    }
    if HasId(b, id) && id != b[i].id {
      var k :| 0 <= k < |b| && b[k].id == id;
      hide HasId;
      PlaceInRest(b, i, k);
      HasIdAt(rest, if k < i then k else k - 1);
    }
  }

  lemma PlaceInRest(b: seq<Contact>, i: nat, k: nat)
    requires i < |b| && k < |b| && k != i
    ensures (b[..i] + b[i + 1..])[if k < i then k else k - 1] == b[k]
  {
  }

  lemma HasIdAppend(cs: seq<Contact>, c: Contact, id: Key)
    ensures HasId(cs + [c], id) <==> HasId(cs, id) || id == c.id
  {
    if HasId(cs, id) {
      var i :| 0 <= i < |cs| && cs[i].id == id;
      assert (cs + [c])[i].id == id;
    }
    assert (cs + [c])[|cs|] == c;
  }

  /** One more sighting keeps the bucket as described. */
  lemma BucketStep(s: Slot, g: seq<Contact>, c: Contact)
    requires BucketCorrect(s.bucket, g)
    ensures BucketCorrect(UpdateSlot(s, c).bucket, g + [c])
  {
    hide LastSighting, Admitted, FirstIds, HasId;
    var b := s.bucket;
    AdmittedStep(g, c);
    var i := IndexOfId(b, c.id);
    if i < |b| {
      BucketMoved(b, g, c, i);
    } else if |b| < BUCKET_SIZE {
      BucketGrown(b, g, c);
    } else {
      LatestStep(b, g, c);
      OrderStep(b, g, c);
      AdmittedIsAll(g);
      OldStay(b, g, c);
    }
  }

  lemma OldStay(b: seq<Contact>, g: seq<Contact>, c: Contact)
    requires Latest(b, g) && ByLastSighting(b, g) && !HasId(b, c.id)
    ensures Latest(b, g + [c]) && ByLastSighting(b, g + [c])
  {
    forall i | 0 <= i < |b|
      ensures LastSighting(g + [c], b[i].id) == LastSighting(g, b[i].id)
    {
      SightingStep(g, c, b[i].id);
    }
  }

  /** A known contact goes to the end. */
  lemma BucketMoved(b: seq<Contact>, g: seq<Contact>, c: Contact, i: nat)
    requires BucketCorrect(b, g) && i < |b| && b[i].id == c.id && HasId(b, c.id)
    ensures BucketCorrect(b[..i] + b[i + 1..] + [c], g + [c])
  {
    hide LastSighting, Admitted, FirstIds, HasId, Latest, ByLastSighting;
    AdmittedStep(g, c);
    RemoveEntry(b, g, i);
    var rest := b[..i] + b[i + 1..];
    LatestStep(rest, g, c);
    OrderStep(rest, g, c);
    forall id: Key
      ensures HasId(rest + [c], id) <==> id in Admitted(g)
    {
      HasIdAppend(rest, c, id);
    }
  }

  /** A new contact in a bucket with room goes to the end. */
  lemma BucketGrown(b: seq<Contact>, g: seq<Contact>, c: Contact)
    requires BucketCorrect(b, g) && !HasId(b, c.id) && |b| < BUCKET_SIZE
    ensures BucketCorrect(b + [c], g + [c])
  {
    hide LastSighting, Admitted, FirstIds, HasId, Latest, ByLastSighting;
    AdmittedStep(g, c);
    AdmittedIsAll(g);
    LatestStep(b, g, c);
    OrderStep(b, g, c);
    forall id: Key
      ensures HasId(b + [c], id) <==> id in Admitted(g) || id == c.id
    {
      HasIdAppend(b, c, id);
    }
  }

  lemma AdmittedIsAll(g: seq<Contact>)
    ensures |Admitted(g)| < BUCKET_SIZE ==> Admitted(g) == FirstIds(g)
    ensures |Admitted(g)| < BUCKET_SIZE <==> |FirstIds(g)| < BUCKET_SIZE
  {
  }

  /** One more sighting moves the queue on. */
  lemma QueueStep(s: Slot, g: seq<Contact>, c: Contact)
    requires BucketCorrect(s.bucket, g)
    requires IdsOf(s.replacements) == LastFour(Joined(g))
    ensures IdsOf(UpdateSlot(s, c).replacements) == LastFour(Joined(g + [c]))
  {
    hide LastSighting, Admitted, FirstIds, HasId, Latest, ByLastSighting, Joined, LastFour, IdsOf;
    JoinedStep(g, c);
    AdmittedNow(s.bucket, g, c);
    PushFour(Joined(g), c.id);
    var r := s.replacements;
    var j := IndexOfId(r, c.id);
    InQueue(r, c.id, j);
    if j < |r| {
      IdsReplaced(r, j, c);
    } else {
      IdsPushed(r, c);
    }
  }

  lemma JoinedStep(g: seq<Contact>, c: Contact)
    ensures Joined(g + [c]) ==
            if c.id in Admitted(g + [c]) || c.id in LastFour(Joined(g)) then Joined(g) else Joined(g) + [c.id]
  {
    assert (g + [c])[..|g|] == g;
  }

  /** A sighting is admitted if the bucket knows it or has room. */
  lemma AdmittedNow(b: seq<Contact>, g: seq<Contact>, c: Contact)
    requires BucketCorrect(b, g)
    ensures c.id in Admitted(g + [c]) <==> HasId(b, c.id) || |b| < BUCKET_SIZE
  {
    hide LastSighting, FirstIds, HasId, Latest, ByLastSighting;
    AdmittedStep(g, c);
    AdmittedIsAll(g);
  }

  lemma PushFour(ids: seq<Key>, id: Key)
    ensures var four := LastFour(ids);
            LastFour(ids + [id]) == (if |four| < REPLACEMENT_SIZE then four else four[1..]) + [id]
    ensures |LastFour(ids)| <= REPLACEMENT_SIZE
  {
  }

  lemma InQueue(r: seq<Contact>, id: Key, j: nat)
    requires j == IndexOfId(r, id)
    ensures j < |r| <==> id in IdsOf(r)
  {
    if j < |r| {
      assert IdsOf(r)[j] == id;
    }
  }

  lemma IdsReplaced(r: seq<Contact>, j: nat, c: Contact)
    requires j < |r| && r[j].id == c.id
    ensures IdsOf(r[j := c]) == IdsOf(r)
  {
  }

  lemma IdsPushed(r: seq<Contact>, c: Contact)
    ensures IdsOf(r + [c]) == IdsOf(r) + [c.id]
    ensures r != [] ==> IdsOf(r[1..] + [c]) == IdsOf(r)[1..] + [c.id]
  {
  }

  /** One more sighting keeps the replacement list as described. */
  lemma ReplacementStep(s: Slot, g: seq<Contact>, c: Contact)
    requires BucketCorrect(s.bucket, g) && ReplacementsCorrect(s.replacements, g)
    ensures ReplacementsCorrect(UpdateSlot(s, c).replacements, g + [c])
  {
    hide LastSighting, Admitted, FirstIds, HasId, Latest, ByLastSighting;
    AdmittedStep(g, c);
    AdmittedIsAll(g);
    var r := s.replacements;
    var j := IndexOfId(r, c.id);
    if HasId(s.bucket, c.id) || |s.bucket| < BUCKET_SIZE {
      NoEntryOf(r, c.id, j);
      LatestStep(r, g, c);
    } else if j < |r| {
      LatestReplace(r, g, c, j);
      HasIdAt(r[j := c], j);
    } else {
      QueueGrown(r, g, c);
    }
  }

  lemma QueueGrown(r: seq<Contact>, g: seq<Contact>, c: Contact)
    requires ReplacementsCorrect(r, g) && !HasId(r, c.id)
    requires c.id !in Admitted(g) && BUCKET_SIZE <= |FirstIds(g)|
    ensures ReplacementsCorrect((if |r| < REPLACEMENT_SIZE then r else r[1..]) + [c], g + [c])
  {
    hide LastSighting, Admitted, FirstIds, Latest, ByLastSighting;
    AdmittedStep(g, c);
    LatestStep(r, g, c);
    var kept := if |r| < REPLACEMENT_SIZE then r else r[1..];
    if |r| == REPLACEMENT_SIZE {
      DropOldest(r, g + [c], c);
    }
    DistinctWithout(r, c);
    HasIdAt(kept + [c], |kept|);
  }

  lemma DistinctWithout(r: seq<Contact>, c: Contact)
    requires DistinctIds(r) && !HasId(r, c.id)
    ensures DistinctIds(r + [c]) && (r != [] ==> DistinctIds(r[1..] + [c]))
  {
    assert forall i | 0 <= i < |r| :: (r + [c])[i].id == r[i].id != c.id;
  }

  lemma HasIdAt(cs: seq<Contact>, i: nat)
    requires i < |cs|
    ensures HasId(cs, cs[i].id)
  {
  }

  lemma NoEntryOf(cs: seq<Contact>, id: Key, j: nat)
    requires j == IndexOfId(cs, id)
    requires forall i | 0 <= i < |cs| :: cs[i].id != id
    ensures !HasId(cs, id)
  {
  }

  lemma LatestReplace(r: seq<Contact>, g: seq<Contact>, c: Contact, j: nat)
    requires Latest(r, g) && DistinctIds(r) && j < |r| && r[j].id == c.id
    ensures Latest(r[j := c], g + [c]) && DistinctIds(r[j := c])
  {
    forall i | 0 <= i < |r|
      ensures LastSighting(g + [c], r[i].id) == if i == j then |g| + 1 else LastSighting(g, r[i].id)
    {
      SightingStep(g, c, r[i].id);
    }
  }

  lemma DropOldest(r: seq<Contact>, h: seq<Contact>, c: Contact)
    requires |r| != 0 && Latest(r + [c], h)
    ensures Latest(r[1..] + [c], h)
  {
    assert forall i | 0 <= i < |r[1..] + [c]| :: (r[1..] + [c])[i] == (r + [c])[i + 1];
  }

  /**
   After any sightings of one prefix, the bucket holds exactly the first eight
   distinct IDs, each as last seen and in the order of last sighting; behind it
   wait the last four other IDs to join, first come first, each as last seen; a
   sighting of one that waits does not move it.
   */
  lemma {:induction false} SlotHoldsFirstEight(h: seq<Contact>)
    ensures BucketCorrect(SlotAfter(h).bucket, h)
    ensures ReplacementsCorrect(SlotAfter(h).replacements, h)
    ensures IdsOf(SlotAfter(h).replacements) == LastFour(Joined(h))
  {
    if h == [] {
      assert forall id: Key :: !HasId([], id);
    } else {
      var g, c := h[..|h| - 1], h[|h| - 1];
      assert h == g + [c];
      SlotHoldsFirstEight(g);
      BucketStep(SlotAfter(g), g, c);
      ReplacementStep(SlotAfter(g), g, c);
      QueueStep(SlotAfter(g), g, c);
    }
  }

  /** A bucket takes eight, and four wait behind it. */
  lemma SlotSizes(h: seq<Contact>)
    ensures |SlotAfter(h).bucket| == if |FirstIds(h)| < 8 then |FirstIds(h)| else 8
    ensures |SlotAfter(h).replacements| == if |Joined(h)| < 4 then |Joined(h)| else 4
  {
    hide SlotAfter, FirstIds, Joined;
    SlotHoldsFirstEight(h);
  }

  // ---------------------------------------------------------------------
  // The table
  // ---------------------------------------------------------------------

  /** The sightings that concern bucket `k` of the node `self`. */
  function Sightings(self: Key, h: seq<Contact>, k: nat): seq<Contact> {
    if h == [] then []
    else
      var before, c := Sightings(self, h[..|h| - 1], k), h[|h| - 1];
      if c.id != self && PrefixLen(self, c.id) == k then before + [c] else before
  }

  /** Bucket `k` is told of a sighting exactly if it is of another node whose ID shares `k` bits with the local one. */
  lemma {:induction false} SightingsExactly(self: Key, h: seq<Contact>, k: nat, c: Contact)
    ensures c in Sightings(self, h, k) <==> c in h && c.id != self && PrefixLen(self, c.id) == k
    ensures |Sightings(self, h, k)| <= |h|
  {
    hide PrefixLen;
    if h == [] {
    } else {
      var g := h[..|h| - 1];
      SightingsExactly(self, g, k, c);
      assert h == g + [h[|h| - 1]];
    }
  }

  class RoutingTable {
    const selfID: Key
    const buckets: array<seq<Contact>>
    const replacements: array<seq<Contact>>

    /** Every contact ever passed to `Update`, oldest first. */
    ghost var history: seq<Contact>

    ghost predicate Valid()
      reads this, buckets, replacements
    {
      && buckets.Length == replacements.Length == KEY_BITS
      && buckets != replacements
      && forall k | 0 <= k < KEY_BITS ::
           Slot(buckets[k], replacements[k]) == SlotAfter(Sightings(selfID, history, k))
    }

    constructor (selfID: Key)
      ensures Valid() && history == [] && this.selfID == selfID
      ensures fresh(buckets) && fresh(replacements)
    {
      this.selfID := selfID;
      buckets := new seq<Contact>[KEY_BITS](_ => []);
      replacements := new seq<Contact>[KEY_BITS](_ => []);
      history := [];
    }

    method FindId(cs: seq<Contact>, id: Key) returns (i: nat)
      ensures i == IndexOfId(cs, id)
    {
      hide HasId;
      i := 0;
      while i < |cs|
        invariant 0 <= i <= |cs|
        invariant forall k | 0 <= k < i :: cs[k].id != id
      {
        if cs[i].id == id {
          FirstIndex(cs, id, i);
          return;
        }
        i := i + 1;
      }
      FirstIndex(cs, id, i);
    }

    /** Records one sighting in the bucket of its prefix length; every other bucket keeps its content. */
    method Update(c: Contact)
      requires Valid()
      modifies `history, buckets, replacements
      ensures Valid() && history == old(history) + [c]
    {
      hide SlotAfter, Sightings, IndexOfId;
      SightingsStep(selfID, history, c);
      history := history + [c];
      if c.id == selfID {
        return;
      }
      var cpl := CommonPrefixLen(selfID, c.id);
      ghost var prefix := cpl;
      if cpl >= buckets.Length {
        cpl := buckets.Length - 1;
      }
      FullPrefixMeansEqual(selfID, c.id);
      assert cpl == prefix;
      SlotStep(Sightings(selfID, old(history), cpl), c);

      var bucket := buckets[cpl];
      var i := FindId(bucket, c.id);
      if i < |bucket| {
        buckets[cpl] := bucket[..i] + bucket[i + 1..] + [c];
        return;
      }
      if |bucket| < BUCKET_SIZE {
        buckets[cpl] := bucket + [c];
        return;
      }
      var rep := replacements[cpl];
      var j := FindId(rep, c.id);
      if j < |rep| {
        replacements[cpl] := rep[j := c];
      } else if |rep| < REPLACEMENT_SIZE {
        replacements[cpl] := rep + [c];
      } else {
        replacements[cpl] := rep[1..] + [c];
      }
    }
  }

  lemma {:induction false} FirstIndex(cs: seq<Contact>, id: Key, i: nat)
    requires i <= |cs| && (forall k | 0 <= k < i :: cs[k].id != id) && (i < |cs| ==> cs[i].id == id)
    ensures i == IndexOfId(cs, id)
  {
    HasIdFrom(cs, id, i);
    HasIdFrom(cs, id, IndexOfId(cs, id));
  }

  lemma HasIdFrom(cs: seq<Contact>, id: Key, i: nat)
    requires i <= |cs| && (forall k | 0 <= k < i :: cs[k].id != id) && (i < |cs| ==> cs[i].id == id)
    ensures i < |cs| <==> HasId(cs, id)
  {
  }

  lemma SlotStep(g: seq<Contact>, c: Contact)
    ensures SlotAfter(g + [c]) == UpdateSlot(SlotAfter(g), c)
  {
    assert (g + [c])[..|g|] == g;
  }

  lemma SightingsStep(self: Key, h: seq<Contact>, c: Contact)
    ensures forall k :: Sightings(self, h + [c], k) ==
                        if c.id != self && PrefixLen(self, c.id) == k then Sightings(self, h, k) + [c]
                        else Sightings(self, h, k)
  {
    assert (h + [c])[..|h|] == h;
  }
}
