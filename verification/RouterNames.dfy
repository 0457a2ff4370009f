/**
 The ring router compares DIDs as texts, while one key has several texts. What
 keeps keys apart is that every key has one name, and nothing else does.
 */
module RouterNames {
  import opened Wrappers
  import opened KeyMetric
  import opened RingStructure
  import opened KleinbergRouter
  import opened RouterLimit

  /** No two DIDs the router takes lead to one key, and none of them to its own. */
  ghost predicate OneNameEach(r: KleinbergRouter) {
    && (forall d, e | r.Nameable(d) && r.Nameable(e) && r.decode(d) == r.decode(e) :: d == e)
    && (forall d | r.Nameable(d) :: r.decode(d) != Some(r.localPub))
  }

  ghost predicate KeysDistinct(r: KleinbergRouter)
    reads r
  {
    && (forall d, e | d in r.peerIndex && e in r.peerIndex && d != e ::
          r.peerIndex[d].publicKey != r.peerIndex[e].publicKey)
    && (forall d | d in r.peerIndex :: r.peerIndex[d].publicKey != r.localPub)
  }

  /** Where names are unique no two peers of any reachable state share a key, and the node is not its own peer. */
  lemma OneNameKeepsKeysDistinct(r: KleinbergRouter)
    requires r.Valid() && OneNameEach(r)
    ensures KeysDistinct(r)
  {
    hide Paired, Ring;
    forall d | d in r.peerIndex
      ensures r.Nameable(d) && r.decode(d) == Some(r.peerIndex[d].publicKey)
    {
      assert r.Placed(d, r.peerIndex[d]);
    }
  }

  /** Another name of the local key makes the node its own peer. */
  method OwnAliasBecomesPeer(r: KleinbergRouter, alias: string)
    requires r.Valid() && r.peerIndex == map[] && r.Nameable(alias) && r.decode(alias) == Some(r.localPub)
    modifies r
    ensures r.Valid() && alias in r.peerIndex && r.peerIndex[alias].publicKey == r.localPub
    ensures !KeysDistinct(r)
  {
    AddFirst(r, alias);
  }

  method AddFirst(r: KleinbergRouter, did: string)
    requires r.Valid() && r.peerIndex == map[] && r.Nameable(did)
    modifies r
    ensures r.Valid() && r.Measured() && r.peerIndex.Keys == {did} && |r.peerIndex| == 1
    ensures r.decode(did) == Some(r.peerIndex[did].publicKey)
    ensures |r.rings[r.HomeOf(did)]| == 1 && Sparse(r.rings)
  {
    hide Paired, Ring;
    EmptyRings(r, [did]);
    AddNext(r, did);
    assert r.Placed(did, r.peerIndex[did]);
  }

  /** Two names of one key become two peers in one ring, if a ring holds more than one. */
  method AliasesBecomePeers(r: KleinbergRouter, d: string, e: string)
    requires r.Valid() && r.peerIndex == map[] && r.config.peersPerRing > 1
    requires d != e && r.Nameable(d) && r.Nameable(e) && r.decode(d) == r.decode(e)
    modifies r
    ensures r.Valid() && d in r.peerIndex && e in r.peerIndex
    ensures r.peerIndex[d].publicKey == r.peerIndex[e].publicKey && !KeysDistinct(r)
  {
    AddFirst(r, d);
    AddSecond(r, d, e);
    hide Paired, Ring;
    assert r.Placed(d, r.peerIndex[d]) && r.Placed(e, r.peerIndex[e]);
  }

  method AddSecond(r: KleinbergRouter, d: string, e: string)
    requires r.Valid() && r.Measured() && r.peerIndex.Keys == {d} && |r.peerIndex| == 1 && d != e && r.Nameable(e)
    requires r.HomeOf(e) < |r.rings| && |r.rings[r.HomeOf(e)]| < r.config.peersPerRing && Sparse(r.rings)
    modifies r
    ensures r.Valid() && r.peerIndex.Keys == {d, e}
  {
    hide Paired, Ring, LocalVictim, Standings, KleinbergRouter.Measured, KleinbergRouter.Graded;
    hide KleinbergRouter.Placed, KleinbergRouter.LimitSafe, KleinbergRouter.Seated;
    ghost var before := r.peerIndex;
    var ok, vr, vi := r.AddOrUpdatePeer(e, "", 0.0, 0);
    assert r.config.maxTotalPeers == 1 ==> |r.peerIndex| > 1;
    BothThere(before, r.peerIndex, d, e);
  }

  /** From one entry to a second one, by at most that one leaving: two entries mean that it stayed. */
  lemma BothThere(before: Index, after: Index, d: string, e: string)
    requires before.Keys == {d} && e in after && after.Keys <= {d, e} && d != e
    ensures |after| > 1 ==> after.Keys == {d, e}
  {
    if d !in after {
      assert after.Keys == {e};
    }
  }
}
