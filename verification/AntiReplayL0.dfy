/**
 The L0 anti-replay filter: one 1024-bit window over sixteen words, shifted in
 place. Every call keeps the words equal to the set of numbers accepted so far.
 */
module AntiReplayL0 {
  import opened MachineWord
  import opened ReplayWindow

  class AntiReplayFilter {
    var lastSeq: u64
    const bitmap: array<u64>
    var accepted: u64
    var rejected: u64

    /** Every number offered to `ValidateAndUpdate`, oldest first. */
    ghost var history: seq<u64>

    ghost predicate Valid()
      reads this, bitmap
    {
      && bitmap.Length == WORD_COUNT
      && Represents(bitmap[..], lastSeq, ReceiveAll(history))
      && accepted == CounterAfter(|ReceiveAll(history).seen|)
      && |ReceiveAll(history).seen| <= |history|
      && rejected == CounterAfter(|history| - |ReceiveAll(history).seen|)
    }

    constructor ()
      ensures Valid() && fresh(bitmap) && history == []
    {
      bitmap := new u64[WORD_COUNT](_ => 0);
      lastSeq, accepted, rejected := 0, 0, 0;
      history := [];
      new;
      ZeroWordsAreClear(bitmap[..]);
    }

    /** `f.bitmap = [16]uint64{}`. */
    method ClearBitmap()
      requires bitmap.Length == WORD_COUNT
      modifies bitmap
      ensures IsWindowClear(bitmap[..])
    {
      forall i | 0 <= i < bitmap.Length {
        bitmap[i] := 0;
      }
      ZeroWordsAreClear(bitmap[..]);
    }

    /** Moves the words up in place, whole words first and then the odd bits. */
    method ShiftLeft(diff: u64)
      requires bitmap.Length == WORD_COUNT
      modifies bitmap
      ensures IsWindowShift(old(bitmap[..]), bitmap[..], diff)
    {
      var words, bits := diff / 64, diff % 64;
      if words >= 16 {
        ClearBitmap();
        return;
      }
      if words > 0 {
        MoveWords(words);
      }
      ghost var moved := bitmap[..];
      if bits > 0 {
        CarryBits(bits);
      }
      forall i | 0 <= i < WORD_COUNT
        ensures bitmap[..][i] == ShiftedWord(old(bitmap[..]), words, bits, i)
      {
        InPlaceWord(old(bitmap[..]), moved, words, bits, i);
      }
      ShiftedWordsAreShift(old(bitmap[..]), bitmap[..], diff);
    }

    method MoveWords(words: nat)
      requires bitmap.Length == WORD_COUNT && 0 < words < WORD_COUNT
      modifies bitmap
      ensures forall i | 0 <= i < WORD_COUNT ::
                bitmap[i] == if words <= i then old(bitmap[i - words]) else 0
    {
      var i := 15;
      while i >= words
        invariant words - 1 <= i <= 15
        invariant forall k | i < k < WORD_COUNT :: bitmap[k] == old(bitmap[k - words])
        invariant forall k | 0 <= k <= i :: bitmap[k] == old(bitmap[k])
      {
        bitmap[i] := bitmap[i - words];
        i := i - 1;
      }
      i := 0;
      while i < words
        invariant 0 <= i <= words
        invariant forall k | words <= k < WORD_COUNT :: bitmap[k] == old(bitmap[k - words])
        invariant forall k | 0 <= k < i :: bitmap[k] == 0
      {
        bitmap[i] := 0;
        i := i + 1;
      }
    }

    method CarryBits(bits: nat)
      requires bitmap.Length == WORD_COUNT && 0 < bits < 64
      modifies bitmap
      ensures forall i | 0 <= i < WORD_COUNT ::
                bitmap[i] == if i == 0 then Shl(old(bitmap[0]), bits)
                             else Or(Shl(old(bitmap[i]), bits), Shr(old(bitmap[i - 1]), 64 - bits))
    {
      var carryShift := 64 - bits;
      var i := 15;
      while i > 0
        invariant 0 <= i <= 15
        invariant forall k | i < k < WORD_COUNT ::
                    bitmap[k] == Or(Shl(old(bitmap[k]), bits), Shr(old(bitmap[k - 1]), carryShift))
        invariant forall k | 0 <= k <= i :: bitmap[k] == old(bitmap[k])
      {
        WordOrBound(Shl(bitmap[i], bits), Shr(bitmap[i - 1], carryShift));
        bitmap[i] := Or(Shl(bitmap[i], bits), Shr(bitmap[i - 1], carryShift));
        i := i - 1;
      }
      bitmap[0] := Shl(bitmap[0], bits);
    }

    /** `f.bitmap[k / 64] |= 1 << (k % 64)`. */
    method Mark(k: nat)
      requires bitmap.Length == WORD_COUNT && k < WINDOW_SIZE
      modifies bitmap
      ensures IsWindowMark(old(bitmap[..]), bitmap[..], k)
    {
      MarkedWordIsMark(bitmap[..], k);
      bitmap[k / 64] := Or(bitmap[k / 64], Shl(1, k % 64));
      assert bitmap[..] == old(bitmap[..])[k / 64 := bitmap[k / 64]];
    }

    /** `f.bitmap[k / 64] & (1 << (k % 64)) != 0`. */
    method IsMarked(k: nat) returns (marked: bool)
      requires bitmap.Length == WORD_COUNT && k < WINDOW_SIZE
      ensures marked <==> WindowBit(bitmap[..], k)
    {
      TestBit(bitmap[k / 64], k % 64);
      marked := And(bitmap[k / 64], Shl(1, k % 64)) != 0;
    }

    /** Slides the window so that `seqNo` is its newest position, marked. */
    method Advance(seqNo: u64, ghost r: Receiver)
      requires bitmap.Length == WORD_COUNT
      requires Represents(bitmap[..], lastSeq, r) && lastSeq < seqNo
      modifies bitmap, `lastSeq
      ensures lastSeq == seqNo
      ensures Represents(bitmap[..], lastSeq, Receive(r, seqNo).0)
    {
      var diff := seqNo - lastSeq;
      if diff >= WINDOW_SIZE {
        ClearBitmap();
      } else {
        ShiftLeft(diff);
      }
      ghost var shifted := bitmap[..];
      Mark(0);
      AdvanceRepresents(old(bitmap[..]), lastSeq, r, shifted, bitmap[..], seqNo);
      lastSeq := seqNo;
    }

    /**
     Accepts exactly the numbers never offered before that are fewer than 1024
     behind the highest one offered, and counts every call once.
     */
    method ValidateAndUpdate(seqNo: u64) returns (ok: bool)
      requires Valid()
      modifies this, bitmap
      ensures Valid() && history == old(history) + [seqNo]
      ensures ok <==> seqNo !in old(history) && Highest(old(history)) - seqNo < 1024
      ensures lastSeq == Highest(history)
      ensures accepted == if ok then Next(old(accepted)) else old(accepted)
      ensures rejected == if ok then old(rejected) else Next(old(rejected))
    {
      hide WindowBit, Represents, IsWindowMark, ReceiveAll, CounterAfter;
      ghost var r := ReceiveAll(history);
      ReceiveOneMore(history, seqNo);
      RepresentedTop(bitmap[..], lastSeq, r);
      CounterStep(|r.seen|);
      CounterStep(|history| - |r.seen|);
      history := history + [seqNo];

      if seqNo > lastSeq {
        Advance(seqNo, r);
        accepted := Next(accepted);
        return true;
      }

      var diff := lastSeq - seqNo;
      if diff >= WINDOW_SIZE {
        rejected := Next(rejected);
        return false;
      }

      var repeated := IsMarked(diff);
      LateRepresents(bitmap[..], lastSeq, r, bitmap[..], seqNo);
      if repeated {
        rejected := Next(rejected);
        return false;
      }
      Mark(diff);
      LateRepresents(old(bitmap[..]), lastSeq, r, bitmap[..], seqNo);
      accepted := Next(accepted);
      return true;
    }
  }

  /** One more number: the receiver takes one step, and a number is counted on the side it fell. */
  lemma ReceiveOneMore(history: seq<u64>, s: u64)
    ensures ReceiveAll(history + [s]) == Receive(ReceiveAll(history), s).0
    ensures Admits(history, s) <==> s !in history && Highest(history) - s < WINDOW_SIZE
    ensures ReceiveAll(history + [s]).top == Highest(history + [s])
    ensures |ReceiveAll(history + [s]).seen| ==
            |ReceiveAll(history).seen| + (if Admits(history, s) then 1 else 0)
  {
    ReceiveAllAppend(history, s);
    ReceiverOverHistory(history);
    ReceiverOverHistory(history + [s]);
    AdmitsExactlyFresh(history, s);
  }

  /** Moving whole words first and carrying bits second gives the shifted word. */
  lemma InPlaceWord(words: seq<u64>, moved: seq<u64>, whole: nat, bits: nat, i: nat)
    requires |words| == |moved| == WORD_COUNT && bits < 64 && i < WORD_COUNT
    requires forall k | 0 <= k < WORD_COUNT :: moved[k] == if whole <= k then words[k - whole] else 0
    ensures ShiftedWord(words, whole, bits, i) ==
            if bits == 0 then moved[i]
            else if i == 0 then Shl(moved[0], bits)
            else Or(Shl(moved[i], bits), Shr(moved[i - 1], 64 - bits))
  {
    ZeroShifted(bits);
    ZeroShifted(64 - bits);
    OrWithZero(Shl(moved[i], bits));
    OrWithZero(0);
  }

  lemma WordOrBound(a: u64, b: u64)
    ensures Or(a, b) < U64_MODULUS
  {
    Pow2At64();
    OrBound(a, b, 64);
  }

  lemma {:induction false} OrWithZero(a: nat)
    ensures Or(a, 0) == a
  {
    if a == 0 {
    } else {
      OrWithZero(a / 2);
    }
  }

  lemma {:induction false} ZeroShifted(n: nat)
    ensures Shl(0, n) == 0 && Shr(0, n) == 0
  {
    if n == 0 {
    } else {
      ZeroShifted(n - 1);
    }
  }
}
