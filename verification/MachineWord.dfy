/**
 Unsigned machine words by value. A word is the natural number Go's `uint8`,
 `uint16`, `uint32` or `uint64` holds; the bitwise operators are defined on
 binary digits, and a shift by `n` is `n` shifts by one, as in the Go
 specification. `BitSet(w, r)` is bit `r` of `w`, least significant first.
 */
module MachineWord {

  const U64_MODULUS: nat := 0x1_0000_0000_0000_0000

  type u64 = x: int | 0 <= x < U64_MODULUS

  /** `x++` on `uint64`. */
  function Next(x: u64): u64 {
    if x == U64_MODULUS - 1 then 0 else x + 1
  }

  /** A `uint64` counter that started at zero, after `n` increments. */
  function CounterAfter(n: nat): u64 {
    if n == 0 then 0 else Next(CounterAfter(n - 1))
  }

  lemma CounterStep(n: nat)
    ensures CounterAfter(n + 1) == Next(CounterAfter(n))
  {
  }

  lemma {:induction false} CounterIsExact(n: nat)
    ensures CounterAfter(n) == n % U64_MODULUS
  {
    if n == 0 {
    } else {
      CounterIsExact(n - 1);
      NextOfRemainder(n - 1);
    }
  }

  lemma NextOfRemainder(m: nat)
    ensures (m + 1) % U64_MODULUS == Next(m % U64_MODULUS)
  {
    var q, x := m / U64_MODULUS, m % U64_MODULUS;
    assert m == q * U64_MODULUS + x;
    if x == U64_MODULUS - 1 {
      assert m + 1 == (q + 1) * U64_MODULUS;
    } else {
      assert m + 1 == q * U64_MODULUS + (x + 1);
    }
  }

  function Pow2(n: nat): (p: nat)
    ensures 1 <= p
  {
    if n == 0 then 1 else 2 * Pow2(n - 1)
  }

  /** `w << n` on `uint64`: the bits pushed past bit 63 are lost. */
  function Shl(w: u64, n: nat): u64 {
    if n == 0 then w else (2 * Shl(w, n - 1)) % U64_MODULUS
  }

  /** `w >> n`. */
  function Shr(w: nat, n: nat): (s: nat)
    ensures s <= w
  {
    if n == 0 then w else Shr(w, n - 1) / 2
  }

  predicate BitSet(w: nat, r: nat) {
    Shr(w, r) % 2 == 1
  }

  function Or(a: nat, b: nat): nat {
    if a == 0 && b == 0 then 0
    else 2 * Or(a / 2, b / 2) + (if a % 2 == 1 || b % 2 == 1 then 1 else 0)
  }

  function And(a: nat, b: nat): nat {
    if a == 0 || b == 0 then 0
    else 2 * And(a / 2, b / 2) + (if a % 2 == 1 && b % 2 == 1 then 1 else 0)
  }

  function Xor(a: nat, b: nat): nat {
    if a == 0 && b == 0 then 0
    else 2 * Xor(a / 2, b / 2) + (if a % 2 != b % 2 then 1 else 0)
  }

  // ---------------------------------------------------------------------
  // Right shifts
  // ---------------------------------------------------------------------

  lemma {:induction false} ShrShr(w: nat, a: nat, b: nat)
    ensures Shr(Shr(w, a), b) == Shr(w, a + b)
  {
    if b == 0 {
    } else {
      ShrShr(w, a, b - 1);
    }
  }

  lemma ShrFirst(w: nat, n: nat)
    requires 0 < n
    ensures Shr(w, n) == Shr(w / 2, n - 1)
  {
    ShrShr(w, 1, n - 1);
  }

  lemma {:induction false} ShrBelow(w: nat, k: nat, n: nat)
    requires w < Pow2(k) && n <= k
    ensures Shr(w, n) < Pow2(k - n)
  {
    if n == 0 {
    } else {
      ShrBelow(w, k, n - 1);
    }
  }

  lemma {:induction false} ShrZero(n: nat)
    ensures Shr(0, n) == 0
  {
  }

  lemma Pow2At16()
    ensures Pow2(8) == 0x100 && Pow2(16) == 0x1_0000
  {
    Pow2Add(4, 4);
    Pow2Add(8, 8);
  }

  lemma Pow2At64()
    ensures Pow2(63) == 0x8000_0000_0000_0000
    ensures Pow2(64) == U64_MODULUS
  {
    Pow2At16();
    Pow2Add(16, 16);
    Pow2Add(32, 32);
  }

  lemma {:induction false} Pow2Add(a: nat, b: nat)
    ensures Pow2(a + b) == Pow2(a) * Pow2(b)
  {
    if b == 0 {
    } else {
      Pow2Add(a, b - 1);
    }
  }

  /** Bits past the width of the word are clear. */
  lemma BitPastWidth(w: nat, k: nat, r: nat)
    requires w < Pow2(k) && k <= r
    ensures !BitSet(w, r)
  {
    ShrBelow(w, k, k);
    ShrShr(w, k, r - k);
  }

  lemma BitOfShr(w: u64, c: nat, r: nat)
    ensures BitSet(Shr(w, c), r) <==> r + c < 64 && BitSet(w, r + c)
  {
    ShrShr(w, c, r);
    if 64 <= r + c {
      Pow2At64();
      BitPastWidth(w, 64, r + c);
    }
  }

  // ---------------------------------------------------------------------
  // Left shifts
  // ---------------------------------------------------------------------

  /** Clearing the bit at the top leaves the bits under it. */
  lemma {:induction false} BitUnderTop(w: nat, k: nat, r: nat)
    requires r < k && Pow2(k) <= w
    ensures BitSet(w - Pow2(k), r) <==> BitSet(w, r)
  {
    if r == 0 {
    } else {
      ShrFirst(w, r);
      ShrFirst(w - Pow2(k), r);
      assert (w - Pow2(k)) / 2 == w / 2 - Pow2(k - 1);
      BitUnderTop(w / 2, k - 1, r - 1);
    }
  }

  lemma BitOfShlOne(w: u64, r: nat)
    requires r < 64
    ensures BitSet((2 * w) % U64_MODULUS, r) <==> 0 < r && BitSet(w, r - 1)
  {
    hide BitSet, Pow2;
    var d := (2 * w) % U64_MODULUS;
    Pow2At64();
    var kept := if w >= Pow2(63) then w - Pow2(63) else w;
    assert d == 2 * kept;
    if r == 0 {
      EvenBit(kept);
    } else {
      HalvedBit(kept, r);
      if w >= Pow2(63) {
        BitUnderTop(w, 63, r - 1);
      }
    }
  }

  lemma EvenBit(k: nat)
    ensures !BitSet(2 * k, 0)
  {
  }

  lemma HalvedBit(k: nat, r: nat)
    requires 0 < r
    ensures BitSet(2 * k, r) <==> BitSet(k, r - 1)
  {
    ShrFirst(2 * k, r);
  }

  lemma {:induction false} BitOfShl(w: u64, s: nat, r: nat)
    requires r < 64
    ensures BitSet(Shl(w, s), r) <==> s <= r && BitSet(w, r - s)
  {
    if s == 0 {
    } else {
      BitOfShlOne(Shl(w, s - 1), r);
      if r != 0 {
        BitOfShl(w, s - 1, r - 1);
      }
    }
  }

  lemma BitOfOne(r: nat)
    ensures BitSet(1, r) <==> r == 0
  {
    if r != 0 {
      ShrFirst(1, r);
      ShrZero(r - 1);
    }
  }

  // ---------------------------------------------------------------------
  // Bitwise operators
  // ---------------------------------------------------------------------

  lemma OrByHalves(a: nat, b: nat)
    ensures Or(a, b) / 2 == Or(a / 2, b / 2)
    ensures Or(a, b) % 2 == 1 <==> a % 2 == 1 || b % 2 == 1
  {
  }

  lemma {:induction false} BitOfOr(a: nat, b: nat, r: nat)
    ensures BitSet(Or(a, b), r) <==> BitSet(a, r) || BitSet(b, r)
  {
    hide Or;
    OrByHalves(a, b);
    if r == 0 {
    } else {
      ShrFirst(a, r);
      ShrFirst(b, r);
      ShrFirst(Or(a, b), r);
      BitOfOr(a / 2, b / 2, r - 1);
    }
  }

  lemma {:induction false} OrBound(a: nat, b: nat, k: nat)
    requires a < Pow2(k) && b < Pow2(k)
    ensures Or(a, b) < Pow2(k)
  {
    if a == 0 && b == 0 {
    } else {
      OrBound(a / 2, b / 2, k - 1);
    }
  }

  /** `word |= mask` with a one-bit mask marks that bit and no other. */
  lemma MarkBit(w: u64, k: nat, r: nat)
    requires k < 64 && r < 64
    ensures Or(w, Shl(1, k)) < U64_MODULUS
    ensures BitSet(Or(w, Shl(1, k)), r) <==> r == k || BitSet(w, r)
  {
    Pow2At64();
    OrBound(w, Shl(1, k), 64);
    BitOfOr(w, Shl(1, k), r);
    BitOfShl(1, k, r);
    if k <= r {
      BitOfOne(r - k);
    }
  }

  /** `word & mask != 0` with a one-bit mask tests that bit. */
  lemma {:induction false} TestBit(w: nat, k: nat)
    requires k < 64
    ensures And(w, Shl(1, k)) != 0 <==> BitSet(w, k)
  {
    OneShifted(k);
    TestPow2(w, k);
  }

  lemma DoubledFits(p: nat, q: nat)
    requires q == 2 * p && q < U64_MODULUS
    ensures (2 * p) % U64_MODULUS == q
  {
  }

  lemma {:induction false} OneShifted(k: nat)
    requires k < 64
    ensures Shl(1, k) == Pow2(k)
  {
    if k == 0 {
    } else {
      OneShifted(k - 1);
      Pow2At64();
      Pow2Mono(k, 63);
      DoubledFits(Pow2(k - 1), Pow2(k));
    }
  }

  lemma {:induction false} Pow2Mono(a: nat, b: nat)
    requires a <= b
    ensures Pow2(a) <= Pow2(b)
  {
    if b <= a {
    } else {
      Pow2Mono(a, b - 1);
    }
  }

  lemma {:induction false} TestPow2(w: nat, k: nat)
    ensures And(w, Pow2(k)) != 0 <==> BitSet(w, k)
  {
    if k == 0 {
    } else {
      ShrFirst(w, k);
      if w == 0 { ShrZero(k - 1); }
      TestPow2(w / 2, k - 1);
    }
  }

  // ---------------------------------------------------------------------
  // Exclusive or, lengths and byte strings
  // ---------------------------------------------------------------------

  type u8 = x: int | 0 <= x < 256

  lemma XorByHalves(a: nat, b: nat)
    ensures Xor(a, b) / 2 == Xor(a / 2, b / 2)
    ensures Xor(a, b) % 2 == 1 <==> a % 2 != b % 2
  {
  }

  lemma {:induction false} BitOfXor(a: nat, b: nat, r: nat)
    ensures BitSet(Xor(a, b), r) <==> BitSet(a, r) != BitSet(b, r)
  {
    hide Xor;
    XorByHalves(a, b);
    if r == 0 {
    } else {
      ShrFirst(a, r);
      ShrFirst(b, r);
      ShrFirst(Xor(a, b), r);
      BitOfXor(a / 2, b / 2, r - 1);
    }
  }

  /** The exclusive or works on the two parts of `high * 2^k + low` apart. */
  lemma {:induction false} XorOfConcat(h: nat, l: nat, g: nat, m: nat, k: nat)
    requires l < Pow2(k) && m < Pow2(k)
    ensures Xor(h * Pow2(k) + l, g * Pow2(k) + m) == Xor(h, g) * Pow2(k) + Xor(l, m)
  {
    hide Xor;
    if k == 0 {
      XorOfZeros();
    } else {
      var p, w, v := Pow2(k - 1), h * Pow2(k) + l, g * Pow2(k) + m;
      HalfOfConcat(h, l, p);
      HalfOfConcat(g, m, p);
      HalfOfConcat(Xor(h, g), Xor(l, m), p);
      XorByHalves(w, v);
      XorByHalves(l, m);
      XorOfConcat(h, l / 2, g, m / 2, k - 1);
    }
  }

  lemma XorOfZeros()
    ensures Xor(0, 0) == 0
  {
  }

  lemma HalfOfConcat(h: nat, l: nat, p: nat)
    ensures (h * (2 * p) + l) / 2 == h * p + l / 2 && (h * (2 * p) + l) % 2 == l % 2
  {
    assert h * (2 * p) == 2 * (h * p);
  }

  lemma {:induction false} XorBound(a: nat, b: nat, k: nat)
    requires a < Pow2(k) && b < Pow2(k)
    ensures Xor(a, b) < Pow2(k)
  {
    if a == 0 && b == 0 {
    } else {
      XorBound(a / 2, b / 2, k - 1);
    }
  }

  /** `a ^ b` on bytes. */
  function XorByte(x: u8, y: u8): u8 {
    Pow2At16();
    XorBound(x, y, 8);
    Xor(x, y)
  }

  lemma {:induction false} XorSymmetric(a: nat, b: nat)
    ensures Xor(a, b) == Xor(b, a)
  {
    if a == 0 && b == 0 {
    } else {
      hide Xor;
      XorByHalves(a, b);
      XorByHalves(b, a);
      XorSymmetric(a / 2, b / 2);
      assert Xor(a, b) / 2 == Xor(b, a) / 2 && Xor(a, b) % 2 == Xor(b, a) % 2;
    }
  }

  /** The exclusive or with the same word gives the other operand back. */
  lemma {:induction false} XorUndone(a: nat, b: nat)
    ensures Xor(Xor(a, b), b) == a
  {
    if a == 0 && b == 0 {
    } else {
      hide Xor;
      var x := Xor(a, b);
      XorByHalves(a, b);
      XorByHalves(x, b);
      XorUndone(a / 2, b / 2);
      assert Xor(x, b) / 2 == a / 2;
      assert Xor(x, b) % 2 == a % 2;
    }
  }

  /** The number of binary digits; Go's `bits.Len`. */
  function Len(w: nat): nat {
    if w == 0 then 0 else 1 + Len(w / 2)
  }

  lemma {:induction false} LenMarksTopBit(w: nat)
    ensures Pow2(Len(w)) > w
    ensures w != 0 ==> BitSet(w, Len(w) - 1)
  {
    if w == 0 {
    } else {
      LenMarksTopBit(w / 2);
      ShrFirst(w, Len(w));
      if Len(w) != 1 {
        ShrFirst(w, Len(w) - 1);
      }
    }
  }

  lemma {:induction false} LenWithin(w: nat, k: nat)
    requires w < Pow2(k)
    ensures Len(w) <= k
  {
    if w == 0 {
    } else {
      LenWithin(w / 2, k - 1);
    }
  }

  /** A set bit bounds the word from below. */
  lemma {:induction false} SetBitBound(w: nat, r: nat)
    requires BitSet(w, r)
    ensures Pow2(r) <= w
  {
    if r == 0 {
    } else {
      ShrFirst(w, r);
      SetBitBound(w / 2, r - 1);
    }
  }

  /** Words with clear high bits are small. */
  lemma ClearBitsBound(w: nat, r: nat, k: nat)
    requires w < Pow2(k) && r <= k
    requires forall i | r <= i < k :: !BitSet(w, i)
    ensures w < Pow2(r)
  {
    LenMarksTopBit(w);
    LenWithin(w, k);
    assert Len(w) <= r || w == 0;
    Pow2Mono(Len(w), r);
  }

  /** Where the bits of `high * 2^k + low` come from. */
  lemma {:induction false} BitOfConcat(high: nat, low: nat, k: nat, r: nat)
    requires low < Pow2(k)
    ensures BitSet(high * Pow2(k) + low, r) <==> if r < k then BitSet(low, r) else BitSet(high, r - k)
  {
    if k == 0 {
    } else {
      var w := high * Pow2(k) + low;
      assert high * Pow2(k) == 2 * (high * Pow2(k - 1));
      assert w / 2 == high * Pow2(k - 1) + low / 2;
      if r != 0 {
        ShrFirst(w, r);
        ShrFirst(low, r);
        BitOfConcat(high, low / 2, k - 1, r - 1);
      }
    }
  }

  /** Go's `binary.BigEndian.Uint64`, for any number of bytes. */
  function BigEndian(bytes: seq<u8>): nat {
    if bytes == [] then 0 else BigEndian(bytes[..|bytes| - 1]) * 256 + bytes[|bytes| - 1]
  }

  lemma {:induction false} BigEndianBound(bytes: seq<u8>)
    ensures BigEndian(bytes) < Pow2(8 * |bytes|)
  {
    if bytes == [] {
    } else {
      BigEndianBound(bytes[..|bytes| - 1]);
      Pow2Add(8 * (|bytes| - 1), 8);
      Pow2At16();
    }
  }

  /** Bit `t` from the top of a big-endian word is bit `t % 8` from the top of byte `t / 8`. */
  lemma {:induction false} BitOfBigEndian(bytes: seq<u8>, t: nat)
    requires t < 8 * |bytes|
    ensures BitSet(BigEndian(bytes), 8 * |bytes| - 1 - t) <==> BitSet(bytes[t / 8], 7 - t % 8)
  {
    var n := |bytes| - 1;
    var front, last := bytes[..n], bytes[n];
    Pow2At16();
    BitOfConcat(BigEndian(front), last, 8, 8 * |bytes| - 1 - t);
    if 8 * n <= t {
    } else {
      BitOfBigEndian(front, t);
    }
  }

  // ---------------------------------------------------------------------
  // Two-byte fields
  // ---------------------------------------------------------------------

  /** `binary.BigEndian.AppendUint16(nil, uint16(v))`. */
  function U16(v: nat): seq<u8> {
    [(v / 256) % 256, v % 256]
  }

  /** `binary.BigEndian.Uint16(data[i : i+2])`. */
  function U16At(data: seq<u8>, i: nat): nat
    requires i + 2 <= |data|
  {
    var high: int, low: int := data[i], data[i + 1];
    high * 256 + low
  }

  lemma U16RoundTrip(v: nat)
    ensures |U16(v)| == 2
    ensures U16At(U16(v), 0) == v % 0x1_0000
  {
    U16Digits(v);
  }

  lemma FieldAt(p: seq<u8>, v: nat, q: seq<u8>)
    ensures U16At(p + U16(v) + q, |p|) == v % 0x1_0000
  {
    var w := p + U16(v) + q;
    assert w[|p|] == U16(v)[0] && w[|p| + 1] == U16(v)[1];
    U16Digits(v);
  }

  lemma U16Digits(v: nat)
    ensures (v / 256) % 256 * 256 + v % 256 == v % 0x1_0000
  {
  }
}
