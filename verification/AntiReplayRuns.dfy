/**
 Whole runs of the L1 anti-replay filter: any interleaving of DIDs and sessions,
 with the memory quota granting or refusing new sessions at will.
 */
module AntiReplayRuns {
  import opened MachineWord
  import opened ReplayWindow
  import opened KeyText
  import opened AntiReplaySession
  import opened MemoryArbiter

  datatype Input = Input(p: Packet, quota: bool)

  function StateAfter(run: seq<Input>): FilterState {
    if run == [] then EMPTY
    else
      var last := run[|run| - 1];
      Decide(StateAfter(run[..|run| - 1]), last.p, last.quota).0
  }

  /** What happened to packet `i`. */
  function OutcomeAt(run: seq<Input>, i: nat): Outcome
    requires i < |run|
  {
    Decide(StateAfter(run[..i]), run[i].p, run[i].quota).1
  }

  /** The packet passed the timestamp, cross-session and quota checks. */
  predicate ReachedWindow(o: Outcome) {
    o.Accepted? || o.StaleReplay? || o.ImmediateReplay?
  }

  /** The numbers that reached the window of exactly this DID and session, oldest first. */
  function Offered(run: seq<Input>, did: string, session: u64): seq<u64> {
    if run == [] then []
    else
      var before, p := run[..|run| - 1], run[|run| - 1].p;
      if p.did == did && p.session == session && ReachedWindow(OutcomeAt(run, |run| - 1))
      then Offered(before, did, session) + [p.seqNo]
      else Offered(before, did, session)
  }

  /** The map entry under the key text of a pair holds that pair's numbers and no other pair's. */
  lemma {:induction false} WindowHoldsOffered(run: seq<Input>, did: string, session: u64)
    ensures SessionKey(did, session) in StateAfter(run).windows <==> Offered(run, did, session) != []
    ensures SessionKey(did, session) in StateAfter(run).windows ==>
              StateAfter(run).windows[SessionKey(did, session)] == Offered(run, did, session)
  {
    hide SessionKey, Timely, CrossSession, WindowOutcome;
    if run == [] {
    } else {
      var before, last := run[..|run| - 1], run[|run| - 1];
      WindowHoldsOffered(before, did, session);
      if SessionKey(last.p.did, last.p.session) == SessionKey(did, session) {
        SessionKeyInjective(last.p.did, last.p.session, did, session);
      }
      WindowOutcomeReaches(StateAfter(before), last.p, last.quota);
    }
  }

  lemma WindowOutcomeReaches(s: FilterState, p: Packet, quota: bool)
    ensures var (s', o) := Decide(s, p, quota);
            var key := SessionKey(p.did, p.session);
            && (ReachedWindow(o) ==>
                  s'.windows == s.windows[key := (if key in s.windows then s.windows[key] else []) + [p.seqNo]])
            && (!ReachedWindow(o) ==> s' == s)
  {
    assert [] + [p.seqNo] == [p.seqNo];
  }

  /**
   Among the packets that reach a window, each session is decided as by a fresh
   L0 filter fed that session's numbers alone: accepted exactly when the number
   never reached this session before and is fewer than 1024 behind its highest.
   */
  lemma SessionsDecideLikeFreshFilters(run: seq<Input>, i: nat)
    requires i < |run| && ReachedWindow(OutcomeAt(run, i))
    ensures var p := run[i].p;
            var earlier := Offered(run[..i], p.did, p.session);
            && (OutcomeAt(run, i) == Accepted <==> Admits(earlier, p.seqNo))
            && (OutcomeAt(run, i) == Accepted <==>
                  p.seqNo !in earlier && Highest(earlier) - p.seqNo < WINDOW_SIZE)
            && (OutcomeAt(run, i) == ImmediateReplay ==> p.seqNo in earlier)
  {
    var p := run[i].p;
    WindowHoldsOffered(run[..i], p.did, p.session);
    AdmitsExactlyFresh(Offered(run[..i], p.did, p.session), p.seqNo);
  }

  lemma {:induction false} OfferedRemembers(run: seq<Input>, i: nat, did: string, session: u64)
    requires i < |run| && run[i].p.did == did && run[i].p.session == session
    requires ReachedWindow(OutcomeAt(run, i))
    ensures run[i].p.seqNo in Offered(run, did, session)
  {
    hide Decide;
    var n := |run| - 1;
    if n <= i {
    } else {
      var before := run[..n];
      assert before[..i] == run[..i];
      OfferedRemembers(before, i, did, session);
    }
  }

  /** No (DID, session, number) is accepted twice, whatever arrives in between. */
  lemma NoTripleAcceptedTwice(run: seq<Input>, i: nat, k: nat)
    requires i < k < |run|
    requires run[i].p.did == run[k].p.did && run[i].p.session == run[k].p.session
    requires run[i].p.seqNo == run[k].p.seqNo
    requires OutcomeAt(run, i) == Accepted
    ensures OutcomeAt(run, k) != Accepted
  {
    if OutcomeAt(run, k) == Accepted {
      SessionsDecideLikeFreshFilters(run, k);
      assert run[..k][..i] == run[..i];
      OfferedRemembers(run[..k], i, run[k].p.did, run[k].p.session);
    }
  }

  /** A packet leaves the window of every other (DID, session) as it was. */
  lemma OtherSessionsUntouched(run: seq<Input>, x: Input, did: string, session: u64)
    requires x.p.did != did || x.p.session != session
    ensures Offered(run + [x], did, session) == Offered(run, did, session)
    ensures SessionKey(did, session) in StateAfter(run + [x]).windows <==> SessionKey(did, session) in StateAfter(run).windows
    ensures SessionKey(did, session) in StateAfter(run).windows ==>
              StateAfter(run + [x]).windows[SessionKey(did, session)] == StateAfter(run).windows[SessionKey(did, session)]
  {
    hide SessionKey, Decide;
    assert (run + [x])[..|run|] == run;
    WindowHoldsOffered(run, did, session);
    WindowHoldsOffered(run + [x], did, session);
  }

  /**
   The filter itself, fed any packets in any order: it ends in the state of the
   run, every verdict is the run's, and no triple gets through twice.
   */
  method AcceptAll(f: AntiReplayFilter, packets: seq<Packet>) returns (outcomes: seq<Outcome>, ghost run: seq<Input>)
    requires f.Valid() && f.View() == EMPTY && f.stats == Stats(0, 0, 0, 0, 0, 0)
    modifies f, f.Repr, f.arbiter
    ensures f.Valid() && f.View() == StateAfter(run) && f.stats == StatsAfter(run)
    ensures |outcomes| == |run| == |packets|
    ensures forall i | 0 <= i < |packets| :: run[i].p == packets[i] && outcomes[i] == OutcomeAt(run, i)
    ensures forall i, k | 0 <= i < k < |packets| && SameTriple(packets[i], packets[k]) && outcomes[i] == Accepted ::
              outcomes[k] != Accepted
    ensures old(f.SoleUser()) ==> f.SoleUser()
  {
    hide Tally, Decide, AntiReplayFilter.SessionsApart, AntiReplayFilter.QuotaLeft, AntiReplayFilter.View, GlobalMemoryArbiter.Valid;
    outcomes, run := [], [];
    var j := 0;
    while j < |packets|
      invariant 0 <= j <= |packets| && |outcomes| == |run| == j
      invariant f.Valid() && f.View() == StateAfter(run) && f.stats == StatsAfter(run)
      invariant fresh(f.Repr - old(f.Repr))
      invariant forall i | 0 <= i < j :: run[i].p == packets[i] && outcomes[i] == OutcomeAt(run, i)
      invariant old(f.SoleUser()) ==> f.SoleUser()
    {
      var p := packets[j];
      RunStep(run, Input(p, f.QuotaLeft()));
      run := run + [Input(p, f.QuotaLeft())];
      var ok, outcome := f.Accept(p.did, p.session, p.seqNo, p.ts, p.now);
      outcomes := outcomes + [outcome];
      j := j + 1;
    }
    forall i, k | 0 <= i < k < |packets| && SameTriple(packets[i], packets[k]) && outcomes[i] == Accepted
      ensures outcomes[k] != Accepted
    {
      NoTripleAcceptedTwice(run, i, k);
    }
  }

  predicate SameTriple(p: Packet, q: Packet) {
    p.did == q.did && p.session == q.session && p.seqNo == q.seqNo
  }

  lemma RunStep(run: seq<Input>, x: Input)
    ensures StateAfter(run + [x]) == Decide(StateAfter(run), x.p, x.quota).0
    ensures OutcomeAt(run + [x], |run|) == Decide(StateAfter(run), x.p, x.quota).1
    ensures forall i | 0 <= i < |run| :: OutcomeAt(run + [x], i) == OutcomeAt(run, i)
  {
    hide Decide;
    assert (run + [x])[..|run|] == run;
    forall i | 0 <= i < |run|
      ensures OutcomeAt(run + [x], i) == OutcomeAt(run, i)
    {
      assert (run + [x])[..i] == run[..i];
    }
  }

  // ---------------------------------------------------------------------
  // Sessions of one DID
  // ---------------------------------------------------------------------

  /**
   Once a packet of a session has reached its window, a packet of a lower session of
   the same DID reaches its window only if its timestamp is no older than that packet's.
   */
  lemma LowerSessionsMustBeNewer(run: seq<Input>, i: nat, k: nat)
    requires i < k < |run| && run[i].p.did == run[k].p.did
    requires ReachedWindow(OutcomeAt(run, i)) && ReachedWindow(OutcomeAt(run, k))
    requires run[k].p.session < run[i].p.session
    ensures Seconds(run[i].p.ts) <= Seconds(run[k].p.ts)
  {
    assert run[..k][..i] == run[..i];
    assert run[..k][i] == run[i];
    LatestCovers(run[..k], i);
  }

  lemma {:induction false} LatestCovers(run: seq<Input>, i: nat)
    requires i < |run| && ReachedWindow(OutcomeAt(run, i))
    ensures SeenAt(StateAfter(run), run[i].p.did) >= Seconds(run[i].p.ts)
    ensures SessionAt(StateAfter(run), run[i].p.did) >= run[i].p.session
  {
    hide Decide, SeenAt, SessionAt, Seconds;
    var n := |run| - 1;
    var before := run[..n];
    LatestOnlyGrows(StateAfter(before), run[n].p, run[n].quota, run[i].p.did);
    if n <= i {
    } else {
      assert before[..i] == run[..i];
      LatestCovers(before, i);
    }
  }

  lemma LatestOnlyGrows(s: FilterState, p: Packet, quota: bool, did: string)
    ensures var (s', o) := Decide(s, p, quota);
            && SeenAt(s', did) >= SeenAt(s, did)
            && SessionAt(s', did) >= SessionAt(s, did)
            && (did == p.did && ReachedWindow(o) ==> SeenAt(s', did) >= Seconds(p.ts) && SessionAt(s', did) >= p.session)
  {
    hide SessionKey, Timely, CrossSession, WindowOutcome, Seconds;
  }

  // ---------------------------------------------------------------------
  // What a discarded packet leaves behind
  // ---------------------------------------------------------------------

  /**
   A discarded packet never changes what any window remembers. It leaves the newest
   timestamp and session of its DID alone too, exactly unless it got as far as its
   window and is newer than one of them.
   */
  lemma DiscardedLeavesNothingExactly(s: FilterState, p: Packet, quota: bool)
    requires Decide(s, p, quota).1 != Accepted
    ensures var (s', o) := Decide(s, p, quota);
            && s'.windows.Keys == s.windows.Keys
            && (forall k | k in s.windows :: ReceiveAll(s'.windows[k]) == ReceiveAll(s.windows[k]))
            && (s'.latestSeen == s.latestSeen && s'.latestSession == s.latestSession
                <==> !(ReachedWindow(o) && (Seconds(p.ts) > SeenAt(s, p.did) || p.session > SessionAt(s, p.did))))
  {
    hide SessionKey, Timely, CrossSession, Seconds, NoteLatest, SeenAt, SessionAt, ReceiveAll, Decide;
    DiscardedKeepsWindows(s, p, quota);
    NoteLatestMoves(s, p);
    LatestAfter(s, p, quota);
  }

  lemma DiscardedKeepsWindows(s: FilterState, p: Packet, quota: bool)
    requires Decide(s, p, quota).1 != Accepted
    ensures var s' := Decide(s, p, quota).0;
            && s'.windows.Keys == s.windows.Keys
            && (forall k | k in s.windows :: ReceiveAll(s'.windows[k]) == ReceiveAll(s.windows[k]))
  {
    hide SessionKey, Timely, CrossSession, Seconds, ReceiveAll;
    var key := SessionKey(p.did, p.session);
    if key in s.windows {
      ReceiveAllAppend(s.windows[key], p.seqNo);
    }
  }

  lemma LatestAfter(s: FilterState, p: Packet, quota: bool)
    ensures var (s', o) := Decide(s, p, quota);
            var noted := if ReachedWindow(o) then NoteLatest(s, p) else s;
            s'.latestSeen == noted.latestSeen && s'.latestSession == noted.latestSession
  {
    hide SessionKey, Timely, CrossSession, Seconds, Admits, Highest;
  }

  lemma NoteLatestMoves(s: FilterState, p: Packet)
    ensures NoteLatest(s, p).latestSeen == s.latestSeen <==> Seconds(p.ts) <= SeenAt(s, p.did)
    ensures NoteLatest(s, p).latestSession == s.latestSession <==> p.session <= SessionAt(s, p.did)
  {
    hide Seconds;
    if Seconds(p.ts) > SeenAt(s, p.did) {
      assert SeenAt(NoteLatest(s, p), p.did) != SeenAt(s, p.did);
    }
    if p.session > SessionAt(s, p.did) {
      assert SessionAt(NoteLatest(s, p), p.did) != SessionAt(s, p.did);
    }
  }

  /** A packet that reached its window, accepted or not, decides the cross-session check of its DID from then on. */
  lemma LaterCrossSessionExactly(s: FilterState, p: Packet, quota: bool, x: Packet)
    requires ReachedWindow(Decide(s, p, quota).1) && x.did == p.did
    ensures CrossSession(Decide(s, p, quota).0, x) <==>
            && (x.session < SessionAt(s, p.did) || x.session < p.session)
            && (Seconds(x.ts) < SeenAt(s, p.did) || Seconds(x.ts) < Seconds(p.ts))
  {
    hide SessionKey, Timely, Seconds, WindowOutcome;
  }

  /** So a replay can shut out a packet of a lower session that the filter would have let through. */
  lemma ReplayShutsOut(s: FilterState, p: Packet, quota: bool, x: Packet)
    requires Decide(s, p, quota).1 == ImmediateReplay && x.did == p.did
    requires x.session < p.session && SeenAt(s, p.did) <= Seconds(x.ts) < Seconds(p.ts)
    ensures !CrossSession(s, x) && CrossSession(Decide(s, p, quota).0, x)
  {
    hide Decide, Seconds;
    LaterCrossSessionExactly(s, p, quota, x);
  }

  // ---------------------------------------------------------------------
  // Timestamps in any unit
  // ---------------------------------------------------------------------

  /** `stamp` is the second `t` written in seconds, in milliseconds or in nanoseconds. */
  predicate StampOf(t: int, stamp: int) {
    || stamp == t
    || t * 1_000 <= stamp < (t + 1) * 1_000
    || t * 1_000_000_000 <= stamp < (t + 1) * 1_000_000_000
  }

  lemma StampedSecond(t: int, stamp: int)
    requires 100_000_000 < t < 100_000_000_000 && StampOf(t, stamp)
    ensures Seconds(stamp) == t
  {
  }

  /** Whatever the unit, a packet is dropped for its timestamp exactly if that is over 60 seconds old or over 10 ahead. */
  lemma TimestampDropExactly(s: FilterState, p: Packet, quota: bool, t: int)
    requires 100_000_000 < t < 100_000_000_000 && StampOf(t, p.ts)
    requires 0 <= p.now < 0x4000_0000_0000_0000
    ensures Decide(s, p, quota).1 == TimestampDrop <==> !(-10 <= p.now - t <= 60)
  {
    StampedSecond(t, p.ts);
  }

  /** The unit of a timestamp makes no difference to the verdict, nor to what the filter remembers. */
  lemma UnitsDecideAlike(s: FilterState, p: Packet, quota: bool, t: int, stamp: int)
    requires 100_000_000 < t < 100_000_000_000 && StampOf(t, p.ts) && StampOf(t, stamp)
    ensures Decide(s, p.(ts := stamp), quota) == Decide(s, p, quota)
  {
    hide Seconds, SessionKey, WindowOutcome;
    StampedSecond(t, p.ts);
    StampedSecond(t, stamp);
  }

  // ---------------------------------------------------------------------
  // Every verdict of a run
  // ---------------------------------------------------------------------

  /** Packet `i` is of this DID and got as far as its window. */
  predicate Noted(run: seq<Input>, did: string, i: nat)
    requires i < |run|
  {
    run[i].p.did == did && ReachedWindow(OutcomeAt(run, i))
  }

  /** Some noted packet of the DID has a higher session than `session`. */
  ghost predicate HigherSessionNoted(run: seq<Input>, did: string, session: u64) {
    exists i :: 0 <= i < |run| && Noted(run, did, i) && session < run[i].p.session
  }

  /** Some noted packet of the DID is newer than second `t`, or `t` is negative. */
  ghost predicate NewerNoted(run: seq<Input>, did: string, t: int) {
    t < 0 || exists i :: 0 <= i < |run| && Noted(run, did, i) && t < Seconds(run[i].p.ts)
  }

  lemma {:induction false} LatestExactly(run: seq<Input>, did: string, session: u64, t: int)
    ensures session < SessionAt(StateAfter(run), did) <==> HigherSessionNoted(run, did, session)
    ensures t < SeenAt(StateAfter(run), did) <==> NewerNoted(run, did, t)
  {
    hide Decide, Seconds, SeenAt, SessionAt;
    if run == [] {
      NothingSeen(did);
    } else {
      var n := |run| - 1;
      var before := run[..n];
      LatestExactly(before, did, session, t);
      LatestMoves(StateAfter(before), run[n].p, run[n].quota, did, session, t);
      NotedOneMore(run, did, session, t);
    }
  }

  lemma NothingSeen(did: string)
    ensures SeenAt(EMPTY, did) == 0 && SessionAt(EMPTY, did) == 0
  {
  }

  lemma LatestMoves(s: FilterState, p: Packet, quota: bool, did: string, session: u64, t: int)
    ensures var (s', o) := Decide(s, p, quota);
            var noted := did == p.did && ReachedWindow(o);
            && (session < SessionAt(s', did) <==> session < SessionAt(s, did) || (noted && session < p.session))
            && (t < SeenAt(s', did) <==> t < SeenAt(s, did) || (noted && t < Seconds(p.ts)))
  {
    hide SessionKey, Timely, CrossSession, Seconds, Admits, Highest;
  }

  lemma NotedOneMore(run: seq<Input>, did: string, session: u64, t: int)
    requires run != []
    ensures var n := |run| - 1;
            && (HigherSessionNoted(run, did, session) <==>
                  HigherSessionNoted(run[..n], did, session) || (Noted(run, did, n) && session < run[n].p.session))
            && (NewerNoted(run, did, t) <==>
                  NewerNoted(run[..n], did, t) || (Noted(run, did, n) && t < Seconds(run[n].p.ts)))
  {
    hide Decide, Seconds, StateAfter;
    var n := |run| - 1;
    var before := run[..n];
    forall i | 0 <= i < n
      ensures Noted(run, did, i) == Noted(before, did, i)
    {
      assert before[..i] == run[..i];
    }
    if HigherSessionNoted(before, did, session) {
      var i :| 0 <= i < |before| && Noted(before, did, i) && session < before[i].p.session;
      assert Noted(run, did, i) && session < run[i].p.session;
    }
    if HigherSessionNoted(run, did, session) {
      var i :| 0 <= i < |run| && Noted(run, did, i) && session < run[i].p.session;
      assert i < n ==> Noted(before, did, i) && session < before[i].p.session;
    }
    if NewerNoted(before, did, t) && 0 <= t {
      var i :| 0 <= i < |before| && Noted(before, did, i) && t < Seconds(before[i].p.ts);
      assert Noted(run, did, i) && t < Seconds(run[i].p.ts);
    }
    if NewerNoted(run, did, t) && 0 <= t {
      var i :| 0 <= i < |run| && Noted(run, did, i) && t < Seconds(run[i].p.ts);
      assert i < n ==> Noted(before, did, i) && t < Seconds(before[i].p.ts);
    }
  }

  /** The verdict of packet `i`, told by the packets before it alone. */
  ghost predicate Verdict(run: seq<Input>, i: nat, o: Outcome)
    requires i < |run|
  {
    var p, before := run[i].p, run[..i];
    var earlier := Offered(before, p.did, p.session);
    if !(-10 <= p.now - Seconds(p.ts) <= 60) then o.TimestampDrop?
    else if HigherSessionNoted(before, p.did, p.session) && NewerNoted(before, p.did, Seconds(p.ts)) then
      o.CrossSessionDrop?
    else if earlier == [] then
      if run[i].quota then o.Accepted? else o.QuotaDrop?
    else if Highest(earlier) - p.seqNo >= 1024 then o.StaleReplay?
    else if p.seqNo in earlier then o.ImmediateReplay?
    else o.Accepted?
  }

  /** Every packet of every run gets exactly that verdict. */
  lemma VerdictExactly(run: seq<Input>, i: nat)
    requires i < |run| && I64_MIN <= run[i].p.ts <= I64_MAX && 0 <= run[i].p.now <= I64_MAX - MAX_FUTURE_SEC
    ensures Verdict(run, i, OutcomeAt(run, i))
  {
    hide Seconds, SessionKey, Admits, StateAfter, Highest;
    var p, before := run[i].p, run[..i];
    TimelyIsTheTrueDifference(p);
    LatestExactly(before, p.did, p.session, Seconds(p.ts));
    WindowHoldsOffered(before, p.did, p.session);
    AdmitsExactlyFresh(Offered(before, p.did, p.session), p.seqNo);
  }

  // ---------------------------------------------------------------------
  // Statistics
  // ---------------------------------------------------------------------

  function StatsAfter(run: seq<Input>): Stats {
    if run == [] then Stats(0, 0, 0, 0, 0, 0)
    else Tally(StatsAfter(run[..|run| - 1]), OutcomeAt(run, |run| - 1))
  }

  /** How many packets of the run had this outcome. */
  function HowMany(run: seq<Input>, o: Outcome): nat {
    if run == [] then 0
    else HowMany(run[..|run| - 1], o) + if OutcomeAt(run, |run| - 1) == o then 1 else 0
  }

  /** Each counter is the number of packets with its outcome, modulo 2^64; a packet refused for memory has none. */
  lemma {:induction false} StatsCountOutcomes(run: seq<Input>)
    ensures var st := StatsAfter(run);
            && st.evaluated == |run| % 0x1_0000_0000_0000_0000
            && st.accepted == HowMany(run, Accepted) % 0x1_0000_0000_0000_0000
            && st.immediate == HowMany(run, ImmediateReplay) % 0x1_0000_0000_0000_0000
            && st.stale == HowMany(run, StaleReplay) % 0x1_0000_0000_0000_0000
            && st.crossSession == HowMany(run, CrossSessionDrop) % 0x1_0000_0000_0000_0000
            && st.timestamp == HowMany(run, TimestampDrop) % 0x1_0000_0000_0000_0000
  {
    hide OutcomeAt, Next;
    if run == [] {
    } else {
      var before, o := run[..|run| - 1], OutcomeAt(run, |run| - 1);
      StatsCountOutcomes(before);
      NextOfRemainder(|before|);
      NextOfRemainder(HowMany(before, o));
    }
  }
}
