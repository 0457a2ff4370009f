/**
 The 1024-bit sliding window shared by both anti-replay filters: what a bit of
 the sixteen words means, what shifting the window means, and the receiver rule
 of section 3.4.3 of RFC 4303 stated on the numbers received so far.
 */
module ReplayWindow {
  import opened MachineWord

  const WINDOW_SIZE := 1024
  const WORD_COUNT := 16

  // ---------------------------------------------------------------------
  // Bits of the window
  // ---------------------------------------------------------------------

  /** Position `j` of the window is marked. */
  predicate WindowBit(words: seq<u64>, j: nat)
    requires |words| == WORD_COUNT && j < WINDOW_SIZE
  {
    BitSet(words[j / 64], j % 64)
  }

  /** `shifted` is `words` moved up by `n` positions, zeros coming in below. */
  ghost predicate IsWindowShift(words: seq<u64>, shifted: seq<u64>, n: nat)
    requires |words| == |shifted| == WORD_COUNT
  {
    forall j {:trigger WindowBit(shifted, j)} | 0 <= j < WINDOW_SIZE ::
      WindowBit(shifted, j) <==> (n <= j && WindowBit(words, j - n))
  }

  /** `marked` is `words` with position `k` marked and nothing else changed. */
  ghost predicate IsWindowMark(words: seq<u64>, marked: seq<u64>, k: nat)
    requires |words| == |marked| == WORD_COUNT
  {
    forall j {:trigger WindowBit(marked, j)} | 0 <= j < WINDOW_SIZE ::
      WindowBit(marked, j) <==> (j == k || WindowBit(words, j))
  }

  ghost predicate IsWindowClear(words: seq<u64>)
    requires |words| == WORD_COUNT
  {
    forall j {:trigger WindowBit(words, j)} | 0 <= j < WINDOW_SIZE :: !WindowBit(words, j)
  }

  /** Word `i` of a window moved up by `whole` words and `bits` bits. */
  function ShiftedWord(words: seq<u64>, whole: nat, bits: nat, i: nat): nat
    requires |words| == WORD_COUNT && bits < 64 && i < WORD_COUNT
  {
    Or(if whole <= i then Shl(words[i - whole], bits) else 0,
       if 0 < bits && whole + 1 <= i then Shr(words[i - whole - 1], 64 - bits) else 0)
  }

  lemma ShiftedWordBit(words: seq<u64>, whole: nat, bits: nat, i: nat, r: nat)
    requires |words| == WORD_COUNT && bits < 64 && i < WORD_COUNT && r < 64
    ensures BitSet(ShiftedWord(words, whole, bits, i), r) <==>
            if bits <= r then whole <= i && BitSet(words[i - whole], r - bits)
            else whole + 1 <= i && BitSet(words[i - whole - 1], 64 - bits + r)
  {
    var hi := if whole <= i then Shl(words[i - whole], bits) else 0;
    var lo := if 0 < bits && whole + 1 <= i then Shr(words[i - whole - 1], 64 - bits) else 0;
    BitOfOr(hi, lo, r);
    ShrZero(r);
    if whole <= i {
      BitOfShl(words[i - whole], bits, r);
    }
    if 0 < bits && whole + 1 <= i {
      BitOfShr(words[i - whole - 1], 64 - bits, r);
    }
  }

  lemma ShiftedWordBound(words: seq<u64>, whole: nat, bits: nat, i: nat)
    requires |words| == WORD_COUNT && bits < 64 && i < WORD_COUNT
    ensures ShiftedWord(words, whole, bits, i) < U64_MODULUS
  {
    var hi := if whole <= i then Shl(words[i - whole], bits) else 0;
    var lo := if 0 < bits && whole + 1 <= i then Shr(words[i - whole - 1], 64 - bits) else 0;
    Pow2At64();
    OrBound(hi, lo, 64);
  }

  /** Word-by-word shifting moves every one of the 1024 positions, word-aligned or not. */
  lemma ShiftedWordsAreShift(words: seq<u64>, shifted: seq<u64>, n: nat)
    requires |words| == |shifted| == WORD_COUNT
    requires forall i | 0 <= i < WORD_COUNT :: shifted[i] == ShiftedWord(words, n / 64, n % 64, i)
    ensures IsWindowShift(words, shifted, n)
  {
    forall j {:trigger WindowBit(shifted, j)} | 0 <= j < WINDOW_SIZE
      ensures WindowBit(shifted, j) <==> (n <= j && WindowBit(words, j - n))
    {
      ShiftedWordBit(words, n / 64, n % 64, j / 64, j % 64);
      PositionDifference(j, n);
    }
  }

  lemma PositionDifference(j: nat, n: nat)
    ensures n % 64 <= j % 64 ==> (n <= j <==> n / 64 <= j / 64)
    ensures j % 64 < n % 64 ==> (n <= j <==> n / 64 + 1 <= j / 64)
    ensures n <= j && n % 64 <= j % 64 ==> (j - n) / 64 == j / 64 - n / 64 && (j - n) % 64 == j % 64 - n % 64
    ensures n <= j && j % 64 < n % 64 ==> (j - n) / 64 == j / 64 - n / 64 - 1 && (j - n) % 64 == 64 - n % 64 + j % 64
  {
  }

  lemma MarkedWordIsMark(words: seq<u64>, k: nat)
    requires |words| == WORD_COUNT && k < WINDOW_SIZE
    ensures Or(words[k / 64], Shl(1, k % 64)) < U64_MODULUS
    ensures IsWindowMark(words, words[k / 64 := Or(words[k / 64], Shl(1, k % 64))], k)
  {
    MarkBit(words[k / 64], k % 64, 0);
    var marked: seq<u64> := words[k / 64 := Or(words[k / 64], Shl(1, k % 64))];
    forall j {:trigger WindowBit(marked, j)} | 0 <= j < WINDOW_SIZE
      ensures WindowBit(marked, j) <==> (j == k || WindowBit(words, j))
    {
      MarkBit(words[k / 64], k % 64, j % 64);
    }
  }

  lemma ZeroWordsAreClear(words: seq<u64>)
    requires |words| == WORD_COUNT && forall i | 0 <= i < WORD_COUNT :: words[i] == 0
    ensures IsWindowClear(words)
  {
    forall j {:trigger WindowBit(words, j)} | 0 <= j < WINDOW_SIZE
      ensures !WindowBit(words, j)
    {
      ShrZero(j % 64);
    }
  }

  // ---------------------------------------------------------------------
  // The filter as a set of accepted numbers
  // ---------------------------------------------------------------------

  /** The highest number accepted (0 before any) and every number accepted. */
  datatype Receiver = Receiver(top: u64, seen: set<u64>)

  const FRESH := Receiver(0, {})

  /** The filter's decision on one number, and what it remembers afterwards. */
  function Receive(r: Receiver, s: u64): (Receiver, bool) {
    if s > r.top then (Receiver(s, r.seen + {s}), true)
    else if r.top - s >= WINDOW_SIZE then (r, false)
    else if s in r.seen then (r, false)
    else (Receiver(r.top, r.seen + {s}), true)
  }

  /** The receiver after a history of numbers, oldest first. */
  function ReceiveAll(history: seq<u64>): Receiver {
    if history == [] then FRESH
    else Receive(ReceiveAll(history[..|history| - 1]), history[|history| - 1]).0
  }

  /** The decision on `s` after `history`. */
  predicate Admits(history: seq<u64>, s: u64) {
    Receive(ReceiveAll(history), s).1
  }

  /** The words and `last` hold exactly what `r` remembers of the window. */
  ghost predicate Represents(words: seq<u64>, last: u64, r: Receiver)
    requires |words| == WORD_COUNT
  {
    && last == r.top
    && (forall s | s in r.seen :: s <= last)
    && (forall j {:trigger WindowBit(words, j)} | 0 <= j < WINDOW_SIZE ::
          WindowBit(words, j) <==> (j <= last && last - j in r.seen))
  }

  lemma RepresentedTop(words: seq<u64>, last: u64, r: Receiver)
    requires |words| == WORD_COUNT && Represents(words, last, r)
    ensures last == r.top
  {
  }

  lemma ReceiveAllAppend(history: seq<u64>, s: u64)
    ensures ReceiveAll(history + [s]) == Receive(ReceiveAll(history), s).0
  {
    assert (history + [s])[..|history|] == history;
  }

  lemma AdvanceRepresents(words: seq<u64>, last: u64, r: Receiver, shifted: seq<u64>, marked: seq<u64>, s: u64)
    requires |words| == |shifted| == |marked| == WORD_COUNT
    requires Represents(words, last, r) && last < s
    requires s - last < WINDOW_SIZE ==> IsWindowShift(words, shifted, s - last)
    requires s - last >= WINDOW_SIZE ==> IsWindowClear(shifted)
    requires IsWindowMark(shifted, marked, 0)
    ensures Represents(marked, s, Receive(r, s).0)
  {
    var r' := Receive(r, s).0;
    forall j {:trigger WindowBit(marked, j)} | 0 <= j < WINDOW_SIZE
      ensures WindowBit(marked, j) <==> (j <= s && s - j in r'.seen)
    {
      assert WindowBit(marked, j) <==> (j == 0 || WindowBit(shifted, j));
      if s - last <= j {
        var i := j - (s - last);
        assert WindowBit(words, i) <==> (i <= last && last - i in r.seen);
      }
    }
  }

  lemma LateRepresents(words: seq<u64>, last: u64, r: Receiver, marked: seq<u64>, s: u64)
    requires |words| == |marked| == WORD_COUNT
    requires Represents(words, last, r) && s <= last && last - s < WINDOW_SIZE
    ensures WindowBit(words, last - s) <==> s in r.seen
    ensures !WindowBit(words, last - s) && IsWindowMark(words, marked, last - s)
            ==> Represents(marked, last, Receive(r, s).0)
  {
    assert WindowBit(words, last - s) <==> last - (last - s) in r.seen;
    if !WindowBit(words, last - s) && IsWindowMark(words, marked, last - s) {
      var r' := Receive(r, s).0;
      forall j {:trigger WindowBit(marked, j)} | 0 <= j < WINDOW_SIZE
        ensures WindowBit(marked, j) <==> (j <= last && last - j in r'.seen)
      {
        assert WindowBit(marked, j) <==> (j == last - s || WindowBit(words, j));
      }
    }
  }

  // ---------------------------------------------------------------------
  // The rule over whole histories
  // ---------------------------------------------------------------------

  /** The highest number received, whether or not it was accepted; 0 before any. */
  function Highest(history: seq<u64>): u64 {
    if history == [] then 0
    else
      var before, s := Highest(history[..|history| - 1]), history[|history| - 1];
      if s > before then s else before
  }

  lemma {:induction false} ReceiverOverHistory(history: seq<u64>)
    ensures ReceiveAll(history).top == Highest(history)
    ensures forall s | s in ReceiveAll(history).seen :: s in history
    ensures forall s | s in history && Highest(history) - s < WINDOW_SIZE :: s in ReceiveAll(history).seen
    ensures forall s | s in history :: s <= Highest(history)
  {
    if history == [] {
    } else {
      var before, s := history[..|history| - 1], history[|history| - 1];
      assert history == before + [s];
      ReceiverOverHistory(before);
    }
  }

  /**
   After any history the filter admits a number exactly when it was never
   received before and is not 1024 or more behind the highest one received.
   */
  lemma AdmitsExactlyFresh(history: seq<u64>, s: u64)
    ensures Admits(history, s) <==> s !in history && Highest(history) - s < 1024
  {
    ReceiverOverHistory(history);
  }

  /** The highest number received is received, unless there is none above 0, and none is higher. */
  lemma HighestExactly(history: seq<u64>)
    ensures forall s | s in history :: s <= Highest(history)
    ensures Highest(history) in history || (Highest(history) == 0 && forall s | s in history :: s == 0)
  {
    ReceiverOverHistory(history);
    HighestIsReceived(history);
  }

  /** No number is admitted twice, however far apart its copies arrive. */
  lemma NeverAdmittedTwice(history: seq<u64>, i: nat, k: nat)
    requires i < k < |history| && history[i] == history[k]
    ensures !Admits(history[..k], history[k])
  {
    AdmitsExactlyFresh(history[..k], history[k]);
    assert history[..k][i] == history[k];
  }

  /** Delivering a window's worth of numbers in any order admits every one of them once. */
  lemma ReorderedWindowAdmitted(history: seq<u64>, k: nat)
    requires k < |history|
    requires forall i | 0 <= i < |history| :: i != k ==> history[i] != history[k]
    requires forall i | 0 <= i < |history| :: history[i] - history[k] < WINDOW_SIZE
    ensures Admits(history[..k], history[k])
  {
    AdmitsExactlyFresh(history[..k], history[k]);
    HighestIsReceived(history[..k]);
  }

  lemma {:induction false} HighestIsReceived(history: seq<u64>)
    ensures Highest(history) == 0 || Highest(history) in history
  {
    if history == [] {
    } else {
      HighestIsReceived(history[..|history| - 1]);
    }
  }
}
