/**
 The L1 anti-replay filter: one window per (origin DID, session), each shifted
 into a fresh word array, behind a timestamp check, a cross-session check and a
 memory quota.
 */
module AntiReplaySession {
  import opened MachineWord
  import opened ReplayWindow
  import opened KeyText
  import opened MemoryArbiter

  const MAX_JITTER_SEC := 60
  const MAX_FUTURE_SEC := 10
  const TRACKER_BYTES: u64 := 256

  datatype Packet = Packet(did: string, session: u64, seqNo: u64, ts: int, now: int)

  datatype Outcome =
    | Accepted
    | TimestampDrop
    | CrossSessionDrop
    | QuotaDrop
    | StaleReplay
    | ImmediateReplay

  datatype Stats = Stats(evaluated: u64, accepted: u64, immediate: u64, stale: u64, crossSession: u64, timestamp: u64)

  /** The counter of one outcome; a packet refused for memory has none. */
  function Count(s: Stats, o: Outcome): Stats {
    match o
    case Accepted => s.(accepted := Next(s.accepted))
    case TimestampDrop => s.(timestamp := Next(s.timestamp))
    case CrossSessionDrop => s.(crossSession := Next(s.crossSession))
    case QuotaDrop => s
    case StaleReplay => s.(stale := Next(s.stale))
    case ImmediateReplay => s.(immediate := Next(s.immediate))
  }

  function Tally(s: Stats, o: Outcome): Stats {
    Count(s.(evaluated := Next(s.evaluated)), o)
  }

  // ---------------------------------------------------------------------
  // Timestamps
  // ---------------------------------------------------------------------

  const I64_MIN := -0x8000_0000_0000_0000
  const I64_MAX := 0x7fff_ffff_ffff_ffff

  /** `int64` subtraction. */
  function WrapSub(a: int, b: int): int {
    var d := a - b;
    if d > I64_MAX then d - U64_MODULUS else if d < I64_MIN then d + U64_MODULUS else d
  }

  /** Nanosecond and millisecond timestamps brought down to seconds. */
  function Seconds(ts: int): int {
    if ts > 100_000_000_000_000 then ts / 1_000_000_000
    else if ts > 100_000_000_000 then ts / 1_000
    else ts
  }

  predicate Timely(p: Packet) {
    var diff := WrapSub(p.now, Seconds(p.ts));
    !(diff > MAX_JITTER_SEC || diff < -MAX_FUTURE_SEC)
  }

  /** The wrap of the subtraction never turns a bad timestamp into a good one. */
  lemma TimelyIsTheTrueDifference(p: Packet)
    requires I64_MIN <= p.ts <= I64_MAX && 0 <= p.now <= I64_MAX - MAX_FUTURE_SEC
    ensures Timely(p) <==> -MAX_FUTURE_SEC <= p.now - Seconds(p.ts) <= MAX_JITTER_SEC
  {
  }

  // ---------------------------------------------------------------------
  // The filter on values
  // ---------------------------------------------------------------------

  /** Per key text, the numbers that reached that window; per DID, the newest timestamp and session. */
  datatype FilterState = FilterState(
    windows: map<string, seq<u64>>,
    latestSeen: map<string, int>,
    latestSession: map<string, u64>)

  const EMPTY := FilterState(map[], map[], map[])

  function SeenAt(s: FilterState, did: string): int {
    if did in s.latestSeen then s.latestSeen[did] else 0
  }

  function SessionAt(s: FilterState, did: string): u64 {
    if did in s.latestSession then s.latestSession[did] else 0
  }

  predicate CrossSession(s: FilterState, p: Packet) {
    SessionAt(s, p.did) > 0 && p.session < SessionAt(s, p.did) && Seconds(p.ts) < SeenAt(s, p.did)
  }

  function NoteLatest(s: FilterState, p: Packet): FilterState {
    s.(latestSeen := if Seconds(p.ts) > SeenAt(s, p.did) then s.latestSeen[p.did := Seconds(p.ts)] else s.latestSeen,
       latestSession := if p.session > SessionAt(s, p.did) then s.latestSession[p.did := p.session] else s.latestSession)
  }

  function WindowOutcome(history: seq<u64>, seqNo: u64): Outcome {
    if Admits(history, seqNo) then Accepted
    else if Highest(history) - seqNo >= WINDOW_SIZE then StaleReplay
    else ImmediateReplay
  }

  function Decide(s: FilterState, p: Packet, quota: bool): (FilterState, Outcome) {
    if !Timely(p) then (s, TimestampDrop)
    else if CrossSession(s, p) then (s, CrossSessionDrop)
    else
      var key := SessionKey(p.did, p.session);
      if key !in s.windows then
        if !quota then (s, QuotaDrop)
        else (NoteLatest(s, p).(windows := s.windows[key := [p.seqNo]]), Accepted)
      else
        (NoteLatest(s, p).(windows := s.windows[key := s.windows[key] + [p.seqNo]]),
         WindowOutcome(s.windows[key], p.seqNo))
  }

  // ---------------------------------------------------------------------
  // The tracker of one session
  // ---------------------------------------------------------------------

  class SessionReplayTracker {
    const sessionID: u64
    var maxSeq: u64
    var seenBits: array<u64>
    var lastSeen: int

    /** Every number that reached this window, oldest first. */
    ghost var history: seq<u64>

    ghost predicate Valid()
      reads this, seenBits
    {
      && seenBits.Length == WORD_COUNT
      && Represents(seenBits[..], maxSeq, ReceiveAll(history))
    }

    constructor (session: u64, seqNo: u64, now: int)
      ensures Valid() && fresh(seenBits)
      ensures history == [seqNo]
    {
      sessionID, maxSeq, lastSeen := session, seqNo, now;
      seenBits := new u64[WORD_COUNT](_ => 0);
      history := [seqNo];
      new;
      ghost var cleared := seenBits[..];
      ZeroWordsAreClear(cleared);
      MarkBit(0);
      FirstNumberRepresents(cleared, seenBits[..], seqNo);
    }

    method MarkBit(offset: nat)
      requires offset < WINDOW_SIZE
      requires seenBits.Length == WORD_COUNT
      modifies seenBits
      ensures IsWindowMark(old(seenBits[..]), seenBits[..], offset)
    {
      var wordIdx, bitIdx := offset / 64, offset % 64;
      if wordIdx < seenBits.Length {
        MarkedWordIsMark(seenBits[..], offset);
        seenBits[wordIdx] := Or(seenBits[wordIdx], Shl(1, bitIdx));
        assert seenBits[..] == old(seenBits[..])[wordIdx := seenBits[wordIdx]];
      }
    }

    method IsBitSet(offset: nat) returns (isSet: bool)
      requires offset < WINDOW_SIZE
      requires seenBits.Length == WORD_COUNT
      ensures isSet <==> WindowBit(seenBits[..], offset)
    {
      var wordIdx, bitIdx := offset / 64, offset % 64;
      if wordIdx < seenBits.Length {
        TestBit(seenBits[wordIdx], bitIdx);
        return And(seenBits[wordIdx], Shl(1, bitIdx)) != 0;
      }
      return false;
    }

    /** Moves the window up, into a fresh array of words unless nothing survives. */
    method ShiftWindow(shift: u64)
      requires seenBits.Length == WORD_COUNT
      modifies `seenBits, seenBits
      ensures seenBits == old(seenBits) || fresh(seenBits)
      ensures seenBits.Length == WORD_COUNT
      ensures IsWindowShift(old(seenBits[..]), seenBits[..], shift)
    {
      if shift >= WINDOW_SIZE {
        forall k | 0 <= k < seenBits.Length {
          seenBits[k] := 0;
        }
        ZeroWordsAreClear(seenBits[..]);
        return;
      }
      var wordShift, bitShift := shift / 64, shift % 64;
      var newBits := new u64[seenBits.Length](_ => 0);
      ghost var words := seenBits[..];
      var i := 0;
      while i < newBits.Length
        invariant 0 <= i <= newBits.Length
        invariant seenBits == old(seenBits) && seenBits[..] == words
        invariant forall k | 0 <= k < i :: newBits[k] == ShiftedWord(words, wordShift, bitShift, k)
        invariant forall k | i <= k < newBits.Length :: newBits[k] == 0
      {
        ShiftedWordBound(words, wordShift, bitShift, i);
        var srcIdx := i - wordShift;
        var high := if srcIdx >= 0 then Shl(seenBits[srcIdx], bitShift) else 0;
        var low := if bitShift > 0 && srcIdx - 1 >= 0 then Shr(seenBits[srcIdx - 1], 64 - bitShift) else 0;
        assert Or(high, low) == ShiftedWord(words, wordShift, bitShift, i);
        newBits[i] := Or(high, low);
        i := i + 1;
      }
      ShiftedWordsAreShift(words, newBits[..], shift);
      seenBits := newBits;
    }

    /** The sliding half of `Accept`: nothing survives a whole window's shift. */
    method Slide(shift: u64)
      requires seenBits.Length == WORD_COUNT
      modifies `seenBits, seenBits
      ensures seenBits == old(seenBits) || fresh(seenBits)
      ensures seenBits.Length == WORD_COUNT
      ensures shift < WINDOW_SIZE ==> IsWindowShift(old(seenBits[..]), seenBits[..], shift)
      ensures shift >= WINDOW_SIZE ==> IsWindowClear(seenBits[..])
    {
      if shift >= WINDOW_SIZE {
        seenBits := new u64[WORD_COUNT](_ => 0);
        ZeroWordsAreClear(seenBits[..]);
      } else {
        ShiftWindow(shift);
      }
    }

    /** A number above the maximum: the window slides so that it is the newest position. */
    method Advance(seqNo: u64)
      requires Valid() && maxSeq < seqNo
      modifies this, seenBits
      ensures Valid() && history == old(history) + [seqNo]
      ensures seenBits == old(seenBits) || fresh(seenBits)
      ensures lastSeen == old(lastSeen)
    {
      hide Represents, ReceiveAll, Receive;
      ghost var r := ReceiveAll(history);
      RepresentedTop(seenBits[..], maxSeq, r);
      SlideAndMark(seqNo, r);
      ReceiveAllAppend(history, seqNo);
      maxSeq := seqNo;
      history := history + [seqNo];
    }

    /** The window half of that. */
    method SlideAndMark(seqNo: u64, ghost r: Receiver)
      requires seenBits.Length == WORD_COUNT
      requires Represents(seenBits[..], maxSeq, r) && maxSeq < seqNo
      modifies `seenBits, seenBits
      ensures seenBits == old(seenBits) || fresh(seenBits)
      ensures seenBits.Length == WORD_COUNT && Represents(seenBits[..], seqNo, Receive(r, seqNo).0)
    {
      hide Represents, IsWindowShift, IsWindowMark, IsWindowClear, Receive;
      ghost var words := seenBits[..];
      Slide(seqNo - maxSeq);
      ghost var shifted := seenBits[..];
      MarkBit(0);
      AdvanceRepresents(words, maxSeq, r, shifted, seenBits[..], seqNo);
    }

    /** What the window says about one number, recorded in the window. */
    method Observe(seqNo: u64, now: int) returns (outcome: Outcome)
      requires Valid()
      modifies this, seenBits
      ensures Valid() && history == old(history) + [seqNo]
      ensures outcome == WindowOutcome(old(history), seqNo)
      ensures seenBits == old(seenBits) || fresh(seenBits)
      ensures lastSeen == now
    {
      hide WindowBit, Represents, IsWindowMark, ReceiveAll;
      lastSeen := now;
      ghost var r := ReceiveAll(history);
      RepresentedTop(seenBits[..], maxSeq, r);
      ReceiverOverHistory(history);
      ReceiveAllAppend(history, seqNo);
      if seqNo > maxSeq {
        Advance(seqNo);
        return Accepted;
      }
      history := history + [seqNo];
      var offset := maxSeq - seqNo;
      if offset >= WINDOW_SIZE {
        return StaleReplay;
      }
      var seen := IsBitSet(offset);
      LateRepresents(seenBits[..], maxSeq, r, seenBits[..], seqNo);
      if seen {
        return ImmediateReplay;
      }
      MarkBit(offset);
      LateRepresents(old(seenBits[..]), maxSeq, r, seenBits[..], seqNo);
      return Accepted;
    }
  }

  // ---------------------------------------------------------------------
  // The filter over all sessions
  // ---------------------------------------------------------------------

  class AntiReplayFilter {
    var sessions: map<string, SessionReplayTracker>
    var latestSeen: map<string, int>
    var latestSession: map<string, u64>
    const arbiter: GlobalMemoryArbiter?
    var stats: Stats

    /** The trackers and their word arrays. */
    ghost var Repr: set<object>

    ghost predicate Valid()
      reads this, Repr, arbiter
    {
      && this !in Repr && arbiter !in Repr
      && (arbiter != null ==> arbiter.Valid())
      && SessionsApart()
    }

    /** Every tracker is sound, and no two share any state. */
    ghost predicate SessionsApart()
      reads `sessions, `Repr, Repr
    {
      && this !in Repr
      && (forall k | k in sessions ::
            sessions[k] in Repr && sessions[k].seenBits in Repr && sessions[k].Valid())
      && (forall k, l | k in sessions && l in sessions && k != l ::
            sessions[k] != sessions[l] && sessions[k].seenBits != sessions[l].seenBits)
    }

    ghost function Windows(): map<string, seq<u64>>
      reads `sessions, `Repr, Repr
      requires SessionsApart()
    {
      map k | k in sessions :: sessions[k].history
    }

    ghost function View(): FilterState
      reads this, Repr
      requires SessionsApart()
    {
      FilterState(Windows(), latestSeen, latestSession)
    }

    /** Whether the arbiter would pay for one more tracker. */
    ghost predicate QuotaLeft()
      requires arbiter != null ==> arbiter.Valid()
      reads arbiter
    {
      arbiter != null ==> ReserveIn(arbiter.View(), REPLAY, TRACKER_BYTES).1
    }

    /** The replay class holds exactly what this filter's trackers were charged. */
    ghost predicate SoleUser()
      requires arbiter != null ==> arbiter.Valid()
      reads this, arbiter
    {
      arbiter != null ==> arbiter.quotas[REPLAY].held == TRACKER_BYTES * |sessions|
    }

    constructor (arbiter: GlobalMemoryArbiter?)
      requires arbiter != null ==> arbiter.Valid()
      ensures Valid() && View() == EMPTY && this.arbiter == arbiter && stats == Stats(0, 0, 0, 0, 0, 0)
      ensures sessions == map[] && Repr == {}
    {
      Repr := {};
      sessions, latestSeen, latestSession := map[], map[], map[];
      stats := Stats(0, 0, 0, 0, 0, 0);
      this.arbiter := arbiter;
    }

    method NoteLatestOf(p: Packet)
      requires SessionsApart() && this !in Repr
      modifies `latestSeen, `latestSession
      ensures View() == NoteLatest(old(View()), p)
    {
      hide SessionsApart, Windows, Seconds;
      var tsSec := Seconds(p.ts);
      var lastSeenTs := if p.did in latestSeen then latestSeen[p.did] else 0;
      var lastSessID := if p.did in latestSession then latestSession[p.did] else 0;
      if tsSec > lastSeenTs {
        latestSeen := latestSeen[p.did := tsSec];
      }
      if p.session > lastSessID {
        latestSession := latestSession[p.did := p.session];
      }
    }

    /** Hands one number to an open session; every other session's window is untouched. */
    method ObserveIn(key: string, seqNo: u64, now: int) returns (outcome: Outcome)
      requires SessionsApart() && key in sessions
      modifies Repr, `Repr
      ensures SessionsApart() && fresh(Repr - old(Repr))
      ensures outcome == WindowOutcome(old(Windows())[key], seqNo)
      ensures Windows() == old(Windows())[key := old(Windows())[key] + [seqNo]]
    {
      hide SessionReplayTracker.Valid, WindowOutcome;
      var tracker := sessions[key];
      outcome := tracker.Observe(seqNo, now);
      Repr := Repr + {tracker.seenBits};
    }

    /** Opens a session on its first number. */
    method OpenSession(key: string, session: u64, seqNo: u64, now: int)
      requires SessionsApart() && key !in sessions
      modifies `sessions, `Repr
      ensures SessionsApart() && fresh(Repr - old(Repr))
      ensures sessions.Keys == old(sessions).Keys + {key}
      ensures Windows() == old(Windows())[key := [seqNo]]
    {
      hide SessionReplayTracker.Valid, SessionsApart;
      var tracker := new SessionReplayTracker(session, seqNo, now);
      Enter(key, tracker);
    }

    method Enter(key: string, tracker: SessionReplayTracker)
      requires SessionsApart() && key !in sessions && tracker.Valid()
      requires tracker !in Repr && tracker.seenBits !in Repr
      modifies `sessions, `Repr
      ensures SessionsApart() && Repr == old(Repr) + {tracker, tracker.seenBits}
      ensures sessions == old(sessions)[key := tracker]
      ensures Windows() == old(Windows())[key := tracker.history]
    {
      hide SessionReplayTracker.Valid;
      sessions := sessions[key := tracker];
      Repr := Repr + {tracker, tracker.seenBits};
    }

    /** Pays for one more tracker, if there is an arbiter to pay. */
    method ReserveTracker() returns (reserved: bool)
      requires arbiter != null ==> arbiter.Valid()
      modifies arbiter
      ensures arbiter != null ==> arbiter.Valid() && arbiter.View() == ReserveIn(old(arbiter.View()), REPLAY, TRACKER_BYTES).0
      ensures reserved == old(QuotaLeft())
      ensures arbiter != null ==>
                arbiter.quotas[REPLAY].held ==
                if reserved then old(arbiter.quotas[REPLAY].held) + TRACKER_BYTES else old(arbiter.quotas[REPLAY].held)
    {
      reserved := true;
      if arbiter != null {
        reserved := arbiter.Reserve(REPLAY, TRACKER_BYTES);
        if reserved {
          GrantChargesExactlyUnlessWrapped(old(arbiter.View()), REPLAY, TRACKER_BYTES);
        }
      }
    }

    /** The path of a packet whose session is not open yet. */
    method AcceptNew(key: string, p: Packet) returns (ok: bool)
      requires Valid() && key !in sessions
      modifies `sessions, `Repr, `latestSeen, `latestSession, arbiter
      ensures Valid() && fresh(Repr - old(Repr))
      ensures ok == old(QuotaLeft())
      ensures View() == if ok then NoteLatest(old(View()), p).(windows := old(Windows())[key := [p.seqNo]])
                        else old(View())
      ensures old(SoleUser()) ==> SoleUser()
    {
      hide GlobalMemoryArbiter.Valid, QuotaLeft, ReserveIn, SessionsApart, Windows, Seconds;
      ok := ReserveTracker();
      if ok {
        OpenSession(key, p.session, p.seqNo, p.now);
        NoteLatestOf(p);
      }
    }

    /** The path of a packet of an open session. */
    method AcceptOpen(key: string, p: Packet) returns (outcome: Outcome)
      requires Valid() && key in sessions && key in Windows()
      modifies Repr, `Repr, `latestSeen, `latestSession
      ensures Valid() && fresh(Repr - old(Repr))
      ensures outcome == WindowOutcome(old(Windows())[key], p.seqNo)
      ensures View() == NoteLatest(old(View()), p).(windows := old(Windows())[key := old(Windows())[key] + [p.seqNo]])
    {
      hide SessionsApart, Windows, WindowOutcome, GlobalMemoryArbiter.Valid, Seconds;
      NoteLatestOf(p);
      outcome := ObserveIn(key, p.seqNo, p.now);
    }

    /**
     The decision on one packet is the decision of the value-level filter, every
     packet is counted once, and each open session stays paid for.
     */
    method Accept(did: string, session: u64, seqNo: u64, ts: int, now: int) returns (ok: bool, outcome: Outcome)
      requires Valid()
      modifies this, Repr, arbiter
      ensures Valid() && fresh(Repr - old(Repr))
      ensures (View(), outcome) == Decide(old(View()), Packet(did, session, seqNo, ts, now), old(QuotaLeft()))
      ensures ok <==> outcome == Accepted
      ensures stats == Tally(old(stats), outcome)
      ensures old(SoleUser()) ==> SoleUser()
    {
      hide SessionsApart, Windows, WindowOutcome, GlobalMemoryArbiter.Valid, QuotaLeft, Seconds, WrapSub, SessionKey, NoteLatest, Count, Next;
      var p := Packet(did, session, seqNo, ts, now);
      stats := stats.(evaluated := Next(stats.evaluated));

      var diff := WrapSub(now, Seconds(ts));
      if diff > MAX_JITTER_SEC || diff < -MAX_FUTURE_SEC {
        stats := Count(stats, TimestampDrop);
        return false, TimestampDrop;
      }

      var sessionKey := SessionKey(did, session);
      var lastSeenTs := if did in latestSeen then latestSeen[did] else 0;
      var lastSessID := if did in latestSession then latestSession[did] else 0;
      if lastSessID > 0 && session < lastSessID && Seconds(ts) < lastSeenTs {
        stats := Count(stats, CrossSessionDrop);
        return false, CrossSessionDrop;
      }

      WindowKeys();
      if sessionKey !in sessions {
        ok := AcceptNew(sessionKey, p);
        outcome := if ok then Accepted else QuotaDrop;
        stats := Count(stats, outcome);
        return;
      }

      outcome := AcceptOpen(sessionKey, p);
      stats := Count(stats, outcome);
      ok := outcome == Accepted;
    }

    lemma WindowKeys()
      requires SessionsApart()
      ensures Windows().Keys == sessions.Keys
    {
    }

    /** A filter that is the only user of its class never holds more trackers than the replay quota pays for. */
    lemma TrackersWithinQuota()
      requires Valid() && SoleUser() && arbiter != null
      ensures 256 * |sessions| <= Share(arbiter.totalLimit, 20)
      ensures 100 * (256 * |sessions|) <= 20 * arbiter.totalLimit
    {
      assert REPLAY in arbiter.View().quotas;
    }
  }

  /** A tracker opened on its first number stands where a fresh L0 filter stands after that number. */
  lemma FirstNumberRepresents(cleared: seq<u64>, marked: seq<u64>, s: u64)
    requires |cleared| == |marked| == WORD_COUNT
    requires IsWindowClear(cleared) && IsWindowMark(cleared, marked, 0)
    ensures Represents(marked, s, ReceiveAll([s]))
  {
    ReceiveAllAppend([], s);
    assert [] + [s] == [s];
    forall j {:trigger WindowBit(marked, j)} | 0 <= j < WINDOW_SIZE
      ensures WindowBit(marked, j) <==> (j <= s && s - j in ReceiveAll([s]).seen)
    {
      assert WindowBit(marked, j) <==> (j == 0 || WindowBit(cleared, j));
    }
  }
}
