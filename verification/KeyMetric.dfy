/**
 The XOR metric on 256-bit keys. The repository counts leading zeros of the
 exclusive or twice, byte by byte for the Kademlia table and by 64-bit words for
 the ring router; both are the length of the longest common bit prefix.
 */
module KeyMetric {
  import opened MachineWord

  const KEY_BYTES := 32
  const KEY_BITS := 256
  const DEFAULT_NUM_RINGS := 16

  type Key = k: seq<u8> | |k| == KEY_BYTES witness seq(KEY_BYTES, _ => 0)

  /** Bit `i` of a key, most significant bit of the first byte first. */
  predicate KeyBit(k: Key, i: nat)
    requires i < KEY_BITS
  {
    BitSet(k[i / 8], 7 - i % 8)
  }

  /** The keys agree on their first `n` bits. */
  ghost predicate AgreeTo(a: Key, b: Key, n: nat)
    requires n <= KEY_BITS
  {
    forall i | 0 <= i < n :: KeyBit(a, i) == KeyBit(b, i)
  }

  /** The keys agree on their first `n` bits, and on no more. */
  ghost predicate IsCommonPrefix(a: Key, b: Key, n: nat) {
    && n <= KEY_BITS
    && AgreeTo(a, b, n)
    && (n < KEY_BITS ==> KeyBit(a, n) != KeyBit(b, n))
  }

  function PrefixFrom(a: Key, b: Key, i: nat): (n: nat)
    requires i <= KEY_BITS
    ensures i <= n <= KEY_BITS
    decreases KEY_BITS - i
  {
    if i == KEY_BITS || KeyBit(a, i) != KeyBit(b, i) then i else PrefixFrom(a, b, i + 1)
  }

  /** The length of the longest common bit prefix. */
  function PrefixLen(a: Key, b: Key): (n: nat)
    ensures n <= KEY_BITS
  {
    PrefixFrom(a, b, 0)
  }

  lemma {:induction false} PrefixFromIsCommon(a: Key, b: Key, i: nat)
    requires i <= KEY_BITS
    requires AgreeTo(a, b, i)
    ensures IsCommonPrefix(a, b, PrefixFrom(a, b, i))
    decreases KEY_BITS - i
  {
    if i == KEY_BITS || KeyBit(a, i) != KeyBit(b, i) {
    } else {
      PrefixFromIsCommon(a, b, i + 1);
    }
  }

  /** `PrefixLen` is the one length with the prefix property. */
  lemma PrefixLenIsCommon(a: Key, b: Key, n: nat)
    ensures IsCommonPrefix(a, b, n) <==> n == PrefixLen(a, b)
  {
    PrefixFromIsCommon(a, b, 0);
  }

  // ---------------------------------------------------------------------
  // Byte by byte
  // ---------------------------------------------------------------------

  /** The XOR distance of two keys, as a value. */
  function Distance(a: Key, b: Key): Key {
    seq(KEY_BYTES, i requires 0 <= i < KEY_BYTES => XorByte(a[i], b[i]))
  }

  method XORDistance(a: Key, b: Key) returns (dist: seq<u8>)
    ensures dist == Distance(a, b)
  {
    dist := seq(KEY_BYTES, _ => 0);
    var i := 0;
    while i < KEY_BYTES
      invariant 0 <= i <= KEY_BYTES && |dist| == KEY_BYTES
      invariant forall k | 0 <= k < i :: dist[k] == XorByte(a[k], b[k])
    {
      dist := dist[i := XorByte(a[i], b[i])];
      i := i + 1;
    }
  }

  /** Go's `bits.LeadingZeros8`. */
  function LeadingZeros8(x: u8): (n: nat)
    ensures n <= 8
  {
    Pow2At16();
    LenWithin(x, 8);
    8 - Len(x)
  }

  /** Go's `bits.LeadingZeros64`. */
  function LeadingZeros64(x: u64): (n: nat)
    ensures n <= 64
  {
    Pow2At64();
    LenWithin(x, 64);
    64 - Len(x)
  }

  /** The first differing bit of two bytes is where their exclusive or starts. */
  lemma FirstDifferenceInByte(x: u8, y: u8, t: nat)
    requires t < 8
    ensures XorByte(x, y) == 0 ==> (BitSet(x, 7 - t) <==> BitSet(y, 7 - t))
    ensures t < LeadingZeros8(XorByte(x, y)) ==> (BitSet(x, 7 - t) <==> BitSet(y, 7 - t))
    ensures XorByte(x, y) != 0 && t == LeadingZeros8(XorByte(x, y)) ==> (BitSet(x, 7 - t) <==> !BitSet(y, 7 - t))
  {
    var d := XorByte(x, y);
    BitOfXor(x, y, 7 - t);
    LenMarksTopBit(d);
    ShrZero(7 - t);
    if t < LeadingZeros8(d) {
      BitPastWidth(d, Len(d), 7 - t);
    }
  }

  /** One more byte of agreement, or the place where it ends. */
  lemma ByteStep(a: Key, b: Key, i: nat)
    requires i < KEY_BYTES && AgreeTo(a, b, 8 * i)
    ensures var d := XorByte(a[i], b[i]);
            if d == 0 then AgreeTo(a, b, 8 * i + 8) else IsCommonPrefix(a, b, 8 * i + LeadingZeros8(d))
  {
    var d := XorByte(a[i], b[i]);
    var n := if d == 0 then 8 else LeadingZeros8(d);
    forall k | 8 * i <= k < 8 * i + n
      ensures KeyBit(a, k) == KeyBit(b, k)
    {
      FirstDifferenceInByte(a[i], b[i], k - 8 * i);
    }
    if n < 8 {
      FirstDifferenceInByte(a[i], b[i], n);
    }
  }

  /** Counts the leading zeros of the XOR distance byte by byte. */
  method CommonPrefixLen(a: Key, b: Key) returns (n: nat)
    ensures n == PrefixLen(a, b)
  {
    hide AgreeTo, PrefixLen, XorByte, LeadingZeros8, KeyBit;
    var dist := XORDistance(a, b);
    AgreeToNothing(a, b);
    var i := 0;
    while i < KEY_BYTES
      invariant 0 <= i <= KEY_BYTES
      invariant AgreeTo(a, b, 8 * i)
    {
      var val := dist[i];
      ByteStep(a, b, i);
      if val != 0 {
        PrefixLenIsCommon(a, b, i * 8 + LeadingZeros8(val));
        return i * 8 + LeadingZeros8(val);
      }
      i := i + 1;
    }
    PrefixLenIsCommon(a, b, KEY_BITS);
    return KEY_BITS;
  }

  lemma AgreeToNothing(a: Key, b: Key)
    ensures AgreeTo(a, b, 0)
  {
  }

  // ---------------------------------------------------------------------
  // Word by word
  // ---------------------------------------------------------------------

  /** Word `i` of a key: `binary.BigEndian.Uint64(key[i*8 : (i+1)*8])`. */
  function KeyWord(k: Key, i: nat): u64
    requires i < 4
  {
    BigEndianBound(k[8 * i..8 * i + 8]);
    Pow2At64();
    BigEndian(k[8 * i..8 * i + 8])
  }

  lemma KeyWordBit(k: Key, i: nat, t: nat)
    requires i < 4 && t < 64
    ensures BitSet(KeyWord(k, i), 63 - t) <==> KeyBit(k, 64 * i + t)
  {
    BitOfBigEndian(k[8 * i..8 * i + 8], t);
  }

  function XorWord(x: u64, y: u64): u64 {
    Pow2At64();
    XorBound(x, y, 64);
    Xor(x, y)
  }

  lemma FirstDifferenceInWord(a: Key, b: Key, i: nat, t: nat)
    requires i < 4 && t < 64
    ensures var d := XorWord(KeyWord(a, i), KeyWord(b, i));
            && (d == 0 || t < LeadingZeros64(d) ==> KeyBit(a, 64 * i + t) == KeyBit(b, 64 * i + t))
            && (d != 0 && t == LeadingZeros64(d) ==> KeyBit(a, 64 * i + t) != KeyBit(b, 64 * i + t))
  {
    hide KeyBit;
    var x, y := KeyWord(a, i), KeyWord(b, i);
    var d := XorWord(x, y);
    KeyWordBit(a, i, t);
    KeyWordBit(b, i, t);
    BitOfXor(x, y, 63 - t);
    LenMarksTopBit(d);
    ShrZero(63 - t);
    if t < LeadingZeros64(d) {
      BitPastWidth(d, Len(d), 63 - t);
    }
  }

  lemma WordStep(a: Key, b: Key, i: nat)
    requires i < 4 && AgreeTo(a, b, 64 * i)
    ensures var d := XorWord(KeyWord(a, i), KeyWord(b, i));
            if d == 0 then AgreeTo(a, b, 64 * i + 64) else IsCommonPrefix(a, b, 64 * i + LeadingZeros64(d))
  {
    hide KeyBit, KeyWord, XorWord;
    var d := XorWord(KeyWord(a, i), KeyWord(b, i));
    var n := if d == 0 then 64 else LeadingZeros64(d);
    forall k | 64 * i <= k < 64 * i + n
      ensures KeyBit(a, k) == KeyBit(b, k)
    {
      FirstDifferenceInWord(a, b, i, k - 64 * i);
    }
    if n < 64 {
      FirstDifferenceInWord(a, b, i, n);
    }
  }

  /** The ring of a prefix length: the fewer leading zeros, the farther the ring. */
  function RingOf(lz: nat, numRings: nat): (ring: nat)
    requires lz <= KEY_BITS && 0 < numRings
    ensures ring < numRings
  {
    var bitsPerRing := if KEY_BITS / numRings <= 0 then 1 else KEY_BITS / numRings;
    var ring := (KEY_BITS - lz) / bitsPerRing;
    if ring >= numRings then numRings - 1 else ring
  }

  /** The ring of one key as seen from another. */
  function Ring(a: Key, b: Key, numRings: int): (ring: nat)
    ensures ring < if numRings <= 0 then DEFAULT_NUM_RINGS else numRings
  {
    RingOf(PrefixLen(a, b), if numRings <= 0 then DEFAULT_NUM_RINGS else numRings)
  }

  /** Counts the leading zeros word by word and buckets them into rings. */
  method XORKeyDistanceN(keyA: seq<u8>, keyB: seq<u8>, numRings: int) returns (ring: int)
    ensures |keyA| == KEY_BYTES && |keyB| == KEY_BYTES ==> ring == Ring(keyA, keyB, numRings)
    ensures |keyA| != KEY_BYTES || |keyB| != KEY_BYTES ==>
              ring == (if numRings <= 0 then DEFAULT_NUM_RINGS else numRings) - 1
  {
    var n := if numRings <= 0 then DEFAULT_NUM_RINGS else numRings;
    if |keyA| != KEY_BYTES || |keyB| != KEY_BYTES {
      return n - 1;
    }
    var lz := LeadingZerosByWord(keyA, keyB);
    hide PrefixLen;
    ring := RingOfZeros(lz, n);
  }

  /** The bucketing half of `XORKeyDistanceN`. */
  method RingOfZeros(lz: nat, n: nat) returns (ring: int)
    requires lz <= KEY_BITS && 0 < n
    ensures ring == RingOf(lz, n)
  {
    var bitsPerRing := KEY_BITS / n;
    if bitsPerRing <= 0 {
      bitsPerRing := 1;
    }
    ring := (KEY_BITS - lz) / bitsPerRing;
    QuotientBound(KEY_BITS - lz, bitsPerRing);
    if ring >= n {
      ring := n - 1;
    }
    if ring < 0 {
      ring := 0;
    }
  }

  method LeadingZerosByWord(keyA: Key, keyB: Key) returns (lz: nat)
    ensures lz == PrefixLen(keyA, keyB)
  {
    hide AgreeTo, PrefixLen, XorWord, KeyWord, LeadingZeros64, KeyBit;
    lz := 0;
    AgreeToNothing(keyA, keyB);
    var i := 0;
    while i < 4
      invariant 0 <= i <= 4 && lz == 64 * i
      invariant AgreeTo(keyA, keyB, lz)
    {
      var xor := XorWord(KeyWord(keyA, i), KeyWord(keyB, i));
      WordStep(keyA, keyB, i);
      if xor == 0 {
        lz := lz + 64;
      } else {
        lz := lz + LeadingZeros64(xor);
        PrefixLenIsCommon(keyA, keyB, lz);
        return;
      }
      i := i + 1;
    }
    PrefixLenIsCommon(keyA, keyB, KEY_BITS);
  }

  // ---------------------------------------------------------------------
  // The metric laws
  // ---------------------------------------------------------------------

  lemma {:induction false} PrefixSymmetric(a: Key, b: Key)
    ensures PrefixLen(a, b) == PrefixLen(b, a)
  {
    PrefixLenIsCommon(a, b, PrefixLen(a, b));
    PrefixLenIsCommon(b, a, PrefixLen(a, b));
  }

  /** Two keys that share 256 bits are the same key. */
  lemma FullPrefixMeansEqual(a: Key, b: Key)
    ensures PrefixLen(a, b) == KEY_BITS <==> a == b
  {
    PrefixLenIsCommon(a, b, PrefixLen(a, b));
    PrefixLenIsCommon(a, b, KEY_BITS);
    hide PrefixLen;
    if PrefixLen(a, b) == KEY_BITS {
      forall i | 0 <= i < KEY_BYTES
        ensures a[i] == b[i]
      {
        SameBitsSameByteAt(a, b, i);
      }
    }
  }

  lemma SameBitsSameByteAt(a: Key, b: Key, i: nat)
    requires AgreeTo(a, b, KEY_BITS) && i < KEY_BYTES
    ensures a[i] == b[i]
  {
    forall r | 0 <= r < 8
      ensures BitSet(a[i], r) == BitSet(b[i], r)
    {
      assert KeyBit(a, 8 * i + (7 - r)) == KeyBit(b, 8 * i + (7 - r));
    }
    SameBitsSameByte(a[i], b[i]);
  }

  lemma SameBitsSameByte(x: u8, y: u8)
    requires forall r | 0 <= r < 8 :: BitSet(x, r) == BitSet(y, r)
    ensures x == y
  {
    Pow2At16();
    var d := XorByte(x, y);
    forall r | 0 <= r < 8
      ensures !BitSet(d, r)
    {
      BitOfXor(x, y, r);
    }
    ClearBitsBound(d, 0, 8);
    XorZeroMeansEqual(x, y);
  }

  lemma {:induction false} XorZeroMeansEqual(a: nat, b: nat)
    ensures Xor(a, b) == 0 <==> a == b
  {
    if a == 0 && b == 0 {
    } else {
      XorZeroMeansEqual(a / 2, b / 2);
    }
  }

  /** The prefix of a pair is at least the shorter of the prefixes to any third key. */
  lemma PrefixUltrametric(a: Key, b: Key, c: Key)
    ensures PrefixLen(a, c) >= PrefixLen(a, b) || PrefixLen(a, c) >= PrefixLen(b, c)
  {
    var n := PrefixLen(a, c);
    PrefixLenIsCommon(a, b, PrefixLen(a, b));
    PrefixLenIsCommon(b, c, PrefixLen(b, c));
    PrefixLenIsCommon(a, c, n);
  }

  lemma {:induction false} RingOfMonotone(m: nat, n: nat, numRings: nat)
    requires m <= n <= KEY_BITS && 0 < numRings
    ensures RingOf(n, numRings) <= RingOf(m, numRings)
  {
    var bitsPerRing := if KEY_BITS / numRings <= 0 then 1 else KEY_BITS / numRings;
    QuotientMonotone(KEY_BITS - n, KEY_BITS - m, bitsPerRing);
  }

  lemma QuotientMonotone(x: nat, y: nat, d: nat)
    requires x <= y && 0 < d
    ensures x / d <= y / d
  {
    var q, p := x / d, y / d;
    assert d * q <= x && y < d * p + d;
    assert d * (p + 1) == d * p + d;
    FactorOrder(d, q, p + 1);
  }

  lemma FactorOrder(d: nat, q: nat, p: nat)
    requires d * q < d * p
    ensures q < p
  {
  }

  /** Rings are symmetric, a key is in its own ring 0, and rings satisfy the strong triangle law. */
  lemma RingLaws(a: Key, b: Key, c: Key, numRings: int)
    ensures Ring(a, b, numRings) < if numRings <= 0 then DEFAULT_NUM_RINGS else numRings
    ensures Ring(a, b, numRings) == Ring(b, a, numRings)
    ensures Ring(a, a, numRings) == 0
    ensures Ring(a, c, numRings) <= Ring(a, b, numRings) || Ring(a, c, numRings) <= Ring(b, c, numRings)
  {
    var n := if numRings <= 0 then DEFAULT_NUM_RINGS else numRings;
    PrefixSymmetric(a, b);
    FullPrefixMeansEqual(a, a);
    PrefixUltrametric(a, b, c);
    if PrefixLen(a, c) >= PrefixLen(a, b) {
      RingOfMonotone(PrefixLen(a, b), PrefixLen(a, c), n);
    } else {
      RingOfMonotone(PrefixLen(b, c), PrefixLen(a, c), n);
    }
  }

  /**
   Rings are equally many bits wide, as wide as all of them fit into 256, and one bit if
   there are more than that; a key lies in the ring its differing bits fall into, the
   last ring taking all that is left. Sixteen rings are the default.
   */
  lemma RingExactly(a: Key, b: Key, numRings: nat, width: nat)
    requires 0 < numRings
    requires if numRings <= 256 then numRings * width <= 256 < numRings * (width + 1) else width == 1
    ensures var far := 256 - PrefixLen(a, b);
            var ring := Ring(a, b, numRings);
            ring * width <= far && (ring < numRings - 1 ==> far < (ring + 1) * width)
    ensures forall n: int | n <= 0 :: Ring(a, b, n) == Ring(a, b, 16)
  {
    hide PrefixLen;
    WidthExactly(numRings, width);
    RingOfExactly(PrefixLen(a, b), numRings, width);
  }

  lemma WidthExactly(n: nat, width: nat)
    requires 0 < n
    requires if n <= 256 then n * width <= 256 < n * (width + 1) else width == 1
    ensures width == (if KEY_BITS / n <= 0 then 1 else KEY_BITS / n) && 0 < width
  {
    QuotientOf(KEY_BITS, n);
    assert n * (width + 1) == n * width + n;
    if n <= 256 {
      SameQuotient(n, KEY_BITS, width, KEY_BITS / n);
    } else {
      QuotientBelow(KEY_BITS, n);
    }
  }

  lemma SameQuotient(n: nat, x: nat, p: nat, q: nat)
    requires 0 < n && n * p <= x < n * p + n && n * q <= x < n * q + n && n <= x
    ensures p == q && 0 < p
  {
    assert n * (p + 1) == n * p + n && n * (q + 1) == n * q + n;
    FactorOrder(n, p, q + 1);
    FactorOrder(n, q, p + 1);
    assert p == 0 ==> n * p == 0;
  }

  lemma QuotientBelow(x: nat, n: nat)
    requires x < n
    ensures x / n == 0
  {
  }

  lemma RingOfExactly(lz: nat, n: nat, width: nat)
    requires lz <= KEY_BITS && 0 < n && 0 < width && width == if KEY_BITS / n <= 0 then 1 else KEY_BITS / n
    ensures var ring := RingOf(lz, n);
            ring * width <= KEY_BITS - lz && (ring < n - 1 ==> KEY_BITS - lz < (ring + 1) * width)
  {
    var q := (KEY_BITS - lz) / width;
    QuotientOf(KEY_BITS - lz, width);
    assert (q + 1) * width == width * q + width;
    if q >= n {
      TimesGrows(n - 1, q, width);
    }
  }

  lemma TimesGrows(p: nat, q: nat, w: nat)
    requires p <= q
    ensures p * w <= w * q
  {
    assert w * q == p * w + (q - p) * w;
  }

  // ---------------------------------------------------------------------
  // Which rings have keys
  // ---------------------------------------------------------------------

  /** The key with bit `n` turned over. */
  function Flipped(k: Key, n: nat): Key
    requires n < KEY_BITS
  {
    Pow2Mono(7 - n % 8, 7);
    Pow2At16();
    k[n / 8 := XorByte(k[n / 8], Pow2(7 - n % 8))]
  }

  lemma BitOfPow2(t: nat, r: nat)
    requires t < 8
    ensures BitSet(Pow2(t), r) <==> r == t
  {
    if r < t {
      BelowTop(t, r);
    } else {
      ShrPow2(t, r);
    }
  }

  lemma {:induction false} ShrPow2(t: nat, r: nat)
    requires t <= r
    ensures BitSet(Pow2(t), r) <==> r == t
  {
    if t == 0 {
      BitOfOne(r);
    } else {
      ShrFirst(Pow2(t), r);
      ShrPow2(t - 1, r - 1);
    }
  }

  lemma {:induction false} BelowTop(t: nat, r: nat)
    requires r < t
    ensures !BitSet(Pow2(t), r)
  {
    if r == 0 {
      assert Pow2(t) == 2 * Pow2(t - 1);
    } else {
      ShrFirst(Pow2(t), r);
      BelowTop(t - 1, r - 1);
    }
  }

  /** Turning bit `n` over ends the common prefix there. */
  lemma FlippedPrefix(k: Key, n: nat)
    requires n < KEY_BITS
    ensures PrefixLen(k, Flipped(k, n)) == n
  {
    hide BitSet, Xor;
    var f := Flipped(k, n);
    forall i | 0 <= i <= n
      ensures KeyBit(f, i) == (KeyBit(k, i) != (i == n))
    {
      if i / 8 == n / 8 {
        BitOfXor(k[n / 8], Pow2(7 - n % 8), 7 - i % 8);
        BitOfPow2(7 - n % 8, 7 - i % 8);
      }
    }
    PrefixLenIsCommon(k, f, n);
  }

  /** The rings that hold any key at all are those up to the 256th. */
  lemma RingInhabited(a: Key, numRings: nat, r: nat)
    requires r < numRings
    ensures (exists b: Key :: Ring(a, b, numRings) == r) <==> r <= KEY_BITS
  {
    hide Ring;
    forall b: Key
      ensures Ring(a, b, numRings) <= KEY_BITS
    {
      RingBound(a, b, numRings);
    }
    if r <= KEY_BITS {
      var b := RingWitness(a, numRings, r);
      assert Ring(a, b, numRings) == r;
    }
  }

  lemma RingBound(a: Key, b: Key, numRings: nat)
    requires 0 < numRings
    ensures Ring(a, b, numRings) <= KEY_BITS
  {
    QuotientBound(KEY_BITS - PrefixLen(a, b), if KEY_BITS / numRings <= 0 then 1 else KEY_BITS / numRings);
  }

  lemma RingWitness(a: Key, numRings: nat, r: nat) returns (b: Key)
    requires r < numRings && r <= KEY_BITS
    ensures Ring(a, b, numRings) == r
  {
    hide PrefixLen;
    if r == 0 {
      RingLaws(a, a, a, numRings);
      b := a;
    } else {
      var d := if KEY_BITS / numRings <= 0 then 1 else KEY_BITS / numRings;
      RingFits(numRings, d, r);
      FlippedPrefix(a, KEY_BITS - r * d);
      b := Flipped(a, KEY_BITS - r * d);
    }
  }

  /**
   The rings that hold any key but one's own: those up to the 256th, and ring 0
   only among at most 128 rings; with more, a ring is one bit wide there.
   */
  lemma OtherKeyInRing(a: Key, numRings: nat, r: nat)
    requires r < numRings
    ensures (exists b: Key :: b != a && Ring(a, b, numRings) == r)
            <==> r <= KEY_BITS && (r != 0 || numRings <= 128)
  {
    hide Ring;
    forall b: Key | b != a && Ring(a, b, numRings) == r
      ensures r <= KEY_BITS && (r != 0 || numRings <= 128)
    {
      RingBound(a, b, numRings);
      if numRings > 128 {
        NarrowRingZero(a, b, numRings);
      }
    }
    if r != 0 && r <= KEY_BITS {
      var b := RingWitness(a, numRings, r);
      RingLaws(a, a, a, numRings);
      assert b != a && Ring(a, b, numRings) == r;
    } else if r == 0 && numRings <= 128 {
      NextKeyInRingZero(a, numRings);
      assert Flipped(a, 255) != a && Ring(a, Flipped(a, 255), numRings) == r;
    }
  }

  lemma NarrowRingZero(a: Key, b: Key, numRings: nat)
    requires numRings > 128
    ensures Ring(a, b, numRings) == 0 <==> a == b
  {
    hide PrefixLen;
    FullPrefixMeansEqual(a, b);
    OneBitWide(numRings);
  }

  lemma OneBitWide(numRings: nat)
    requires numRings > 128
    ensures KEY_BITS / numRings <= 1
  {
    QuotientOf(KEY_BITS, numRings);
    if KEY_BITS / numRings >= 2 {
      TwiceFits(KEY_BITS / numRings, numRings);
    }
  }

  lemma TwiceFits(q: nat, n: nat)
    requires 2 <= q
    ensures 2 * n <= n * q
  {
    assert n * q == 2 * n + n * (q - 2);
  }

  lemma NextKeyInRingZero(a: Key, numRings: nat)
    requires 0 < numRings <= 128
    ensures Flipped(a, 255) != a && Ring(a, Flipped(a, 255), numRings) == 0
  {
    hide PrefixLen, Flipped;
    FlippedPrefix(a, 255);
    FullPrefixMeansEqual(a, Flipped(a, 255));
    var d := KEY_BITS / numRings;
    QuotientMonotone(2 * numRings, KEY_BITS, numRings);
    assert d >= 2;
    assert 1 / d == 0;
  }

  lemma QuotientBound(x: nat, d: nat)
    requires 0 < d
    ensures x / d <= x
  {
    ScaledUp(d, x / d);
    assert d * (x / d) <= x;
  }

  lemma ScaledUp(d: nat, q: nat)
    requires 0 < d
    ensures q <= d * q
  {
    assert d * q == q + (d - 1) * q;
  }

  lemma RingFits(n: nat, d: nat, r: nat)
    requires 0 < r < n && r <= KEY_BITS && d == if KEY_BITS / n <= 0 then 1 else KEY_BITS / n
    ensures 0 < r * d <= KEY_BITS && (r * d) / d == r
  {
    QuotientOf(KEY_BITS, n);
    if KEY_BITS / n > 0 {
      LessTimes(r, n, d);
    }
    WholeTimes(r, d);
  }

  lemma WholeTimes(r: nat, d: nat)
    requires 0 < d
    ensures (r * d) / d == r
  {
    var x := r * d;
    QuotientOf(x, d);
    WholeQuotient(d, x / d, r);
  }

  lemma QuotientOf(x: nat, d: nat)
    requires 0 < d
    ensures d * (x / d) <= x < d * (x / d) + d
  {
  }

  lemma LessTimes(r: nat, n: nat, d: nat)
    requires 0 < r < n && 0 < d && n * d <= KEY_BITS
    ensures 0 < r * d <= KEY_BITS
  {
    assert n * d == r * d + (n - r) * d;
  }

  lemma WholeQuotient(d: nat, q: nat, r: nat)
    requires 0 < d && d * q <= r * d < d * q + d
    ensures q == r
  {
    assert d * (q + 1) == d * q + d && d * (r + 1) == r * d + d;
    FactorOrder(d, r, q + 1);
    FactorOrder(d, q, r + 1);
  }

  // ---------------------------------------------------------------------
  // Comparing distances
  // ---------------------------------------------------------------------

  /** Go's `bytes.Compare` on byte strings of equal length. */
  function CompareDistance(d: seq<u8>, e: seq<u8>): int
    requires |d| == |e|
  {
    if d == [] then 0
    else if d[0] < e[0] then -1
    else if d[0] > e[0] then 1
    else CompareDistance(d[1..], e[1..])
  }

  lemma {:induction false} CompareIsTotalOrder(d: seq<u8>, e: seq<u8>, f: seq<u8>)
    requires |d| == |e| == |f|
    ensures CompareDistance(d, e) == 0 <==> d == e
    ensures CompareDistance(d, e) == -CompareDistance(e, d)
    ensures CompareDistance(d, e) < 0 && CompareDistance(e, f) < 0 ==> CompareDistance(d, f) < 0
  {
    if d == [] {
    } else {
      CompareIsTotalOrder(d[1..], e[1..], f[1..]);
      assert d == [d[0]] + d[1..] && e == [e[0]] + e[1..];
    }
  }

  /** The first byte that differs decides the comparison. */
  lemma {:induction false} CompareAtFirstDifference(d: seq<u8>, e: seq<u8>, i: nat)
    requires |d| == |e| && i < |d|
    requires forall k | 0 <= k < i :: d[k] == e[k]
    requires d[i] < e[i]
    ensures CompareDistance(d, e) < 0
  {
    if i == 0 {
    } else {
      CompareAtFirstDifference(d[1..], e[1..], i - 1);
    }
  }

  /** No two keys are at the same distance from a third. */
  lemma DistanceInjective(t: Key, a: Key, b: Key)
    requires Distance(t, a) == Distance(t, b)
    ensures a == b
  {
    forall i | 0 <= i < KEY_BYTES
      ensures a[i] == b[i]
    {
      assert Distance(t, a)[i] == XorByte(t[i], a[i]) && Distance(t, b)[i] == XorByte(t[i], b[i]);
      XorSymmetric(t[i], a[i]);
      XorSymmetric(t[i], b[i]);
      XorUndone(a[i], t[i]);
      XorUndone(b[i], t[i]);
    }
  }

  /** Agreement on whole bytes is a zero distance there. */
  lemma AgreeingBytesCancel(a: Key, b: Key, n: nat, i: nat)
    requires n <= KEY_BITS && AgreeTo(a, b, n) && 8 * i + 8 <= n
    ensures Distance(a, b)[i] == 0
  {
    forall r | 0 <= r < 8
      ensures BitSet(a[i], r) == BitSet(b[i], r)
    {
      assert KeyBit(a, 8 * i + (7 - r)) == KeyBit(b, 8 * i + (7 - r));
    }
    SameBitsSameByte(a[i], b[i]);
    XorZeroMeansEqual(a[i], b[i]);
  }

  /** The first differing bit sizes the byte of the distance it falls in. */
  lemma DistanceByteAtPrefix(a: Key, b: Key, n: nat)
    requires n < KEY_BITS && AgreeTo(a, b, n)
    ensures KeyBit(a, n) != KeyBit(b, n) ==> Distance(a, b)[n / 8] >= Pow2(7 - n % 8)
    ensures KeyBit(a, n) == KeyBit(b, n) ==> Distance(a, b)[n / 8] < Pow2(7 - n % 8)
  {
    var i, t := n / 8, n % 8;
    assert Distance(a, b)[i] == XorByte(a[i], b[i]);
    BitOfXor(a[i], b[i], 7 - t);
    if KeyBit(a, n) != KeyBit(b, n) {
      SetBitBound(XorByte(a[i], b[i]), 7 - t);
    } else {
      forall r | 7 - t <= r < 8
        ensures BitSet(a[i], r) == BitSet(b[i], r)
      {
        var m := 8 * i + (7 - r);
        assert KeyBit(a, m) == KeyBit(b, m);
      }
      AgreeingHighBits(a[i], b[i], 7 - t);
    }
  }

  /** Bytes that agree from bit `k` up differ by less than that bit. */
  lemma AgreeingHighBits(x: u8, y: u8, k: nat)
    requires k < 8 && forall r | k <= r < 8 :: BitSet(x, r) == BitSet(y, r)
    ensures XorByte(x, y) < Pow2(k)
  {
    forall r | k <= r < 8
      ensures !BitSet(XorByte(x, y), r)
    {
      BitOfXor(x, y, r);
    }
    Pow2At16();
    ClearBitsBound(XorByte(x, y), k, 8);
  }

  /** A longer common prefix is a strictly smaller XOR distance. */
  lemma LongerPrefixIsCloser(a: Key, b: Key, c: Key)
    requires PrefixLen(a, b) > PrefixLen(a, c)
    ensures CompareDistance(Distance(a, b), Distance(a, c)) < 0
  {
    var n := PrefixLen(a, c);
    PrefixLenIsCommon(a, b, PrefixLen(a, b));
    PrefixLenIsCommon(a, c, n);
    assert AgreeTo(a, b, n);
    DistanceByteAtPrefix(a, b, n);
    DistanceByteAtPrefix(a, c, n);
    forall i | 0 <= i < n / 8
      ensures Distance(a, b)[i] == Distance(a, c)[i]
    {
      AgreeingBytesCancel(a, b, n, i);
      AgreeingBytesCancel(a, c, n, i);
    }
    CompareAtFirstDifference(Distance(a, b), Distance(a, c), n / 8);
  }

  /** A key that is no farther by XOR distance is in no farther ring. */
  lemma RingMonotoneInDistance(a: Key, b: Key, c: Key, numRings: int)
    requires CompareDistance(Distance(a, b), Distance(a, c)) <= 0
    ensures Ring(a, b, numRings) <= Ring(a, c, numRings)
  {
    hide Distance, CompareDistance;
    CompareIsTotalOrder(Distance(a, b), Distance(a, c), Distance(a, b));
    if PrefixLen(a, c) > PrefixLen(a, b) {
      LongerPrefixIsCloser(a, c, b);
    }
    RingOfMonotone(PrefixLen(a, c), PrefixLen(a, b), if numRings <= 0 then DEFAULT_NUM_RINGS else numRings);
  }
}
