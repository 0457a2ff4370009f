/**
 The STUN Binding Response parser (sections 6, 15 and 15.2 of RFC 5389): a walk
 over padded type-length-value attributes that stops at the first one holding a
 usable mapped address.
 */
module StunMessage {
  import opened MachineWord

  const BINDING_RESPONSE := 0x0101
  const MAGIC_COOKIE: nat := 0x2112A442
  const COOKIE_TOP := 0x2112
  const COOKIE_BYTES: seq<u8> := [0x21, 0x12, 0xA4, 0x42]
  const ATTR_MAPPED := 0x0001
  const ATTR_XOR_MAPPED := 0x0020
  const FAMILY_IPV4 := 0x01
  const FAMILY_IPV6 := 0x02
  const HEADER := 20

  type TxId = t: seq<u8> | |t| == 12 witness seq(12, _ => 0)
  const NO_TX: TxId := [0, 0, 0, 0, 0, 0, 0, 0, 0, 0, 0, 0]

  datatype Answer = Address(ip: seq<u8>, port: nat) | NotFound | Refused

  /** `binary.BigEndian.PutUint32`. */
  function Put32(v: nat): seq<u8> {
    [(v / 0x100_0000) % 256, (v / 0x1_0000) % 256, (v / 256) % 256, v % 256]
  }

  /** The bytes of `x` and `key`, exclusive-ored place by place. */
  function XorBytes(x: seq<u8>, key: seq<u8>): seq<u8>
    requires |x| == |key|
  {
    seq(|x|, i requires 0 <= i < |x| => XorByte(x[i], key[i]))
  }

  function PaddedLen(n: nat): (p: nat)
    ensures n <= p
  {
    (n + 3) / 4 * 4
  }

  /** Values are padded to the next multiple of four. */
  lemma PaddedToFour(n: nat)
    ensures n <= PaddedLen(n) < n + 4 && PaddedLen(n) % 4 == 0
  {
  }

  /** The mapped address one attribute gives, if it gives one. */
  function Mapped(attrType: nat, val: seq<u8>, tx: TxId): Answer {
    if attrType == ATTR_XOR_MAPPED && |val| >= 8 then
      var port := Xor(U16At(val, 2), COOKIE_TOP);
      if val[1] == FAMILY_IPV4 then Address(Put32(Xor(BigEndian(val[4..8]), MAGIC_COOKIE)), port)
      else if val[1] == FAMILY_IPV6 && |val| >= 20 then Address(XorBytes(val[4..20], COOKIE_BYTES + tx), port)
      else NotFound
    else if attrType == ATTR_MAPPED && |val| >= 8 && val[1] == FAMILY_IPV4 then Address(val[4..8], U16At(val, 2))
    else NotFound
  }

  /** The attributes from `offset` on, up to `limit`. */
  function Scan(resp: seq<u8>, tx: TxId, offset: nat, limit: nat): Answer
    decreases |resp| - offset
  {
    if offset >= limit || offset + 4 > |resp| then NotFound
    else
      var attrLen := U16At(resp, offset + 2);
      var start := offset + 4;
      if start + attrLen > |resp| then NotFound
      else
        var found := Mapped(U16At(resp, offset), resp[start..start + attrLen], tx);
        if found.Address? then found else Scan(resp, tx, start + PaddedLen(attrLen), limit)
  }

  function Parse(resp: seq<u8>, expected: TxId): Answer {
    if |resp| < HEADER then Refused
    else if U16At(resp, 0) != BINDING_RESPONSE then Refused
    else if BigEndian(resp[4..8]) != MAGIC_COOKIE then Refused
    else if expected != NO_TX && resp[8..20] != expected then Refused
    else if |resp| < HEADER + U16At(resp, 2) then Refused
    else Scan(resp, expected, HEADER, HEADER + U16At(resp, 2))
  }

  // ---------------------------------------------------------------------
  // The parser as code
  // ---------------------------------------------------------------------

  /** Reads arbitrary bytes without ever leaving them. */
  method ParseSTUNBindingResponse(resp: seq<u8>, expected: TxId) returns (r: Answer)
    ensures r == Parse(resp, expected)
  {
    if |resp| < HEADER {
      return Refused;
    }
    var msgType := U16At(resp, 0);
    if msgType != BINDING_RESPONSE {
      return Refused;
    }
    var magicCookie := BigEndian(resp[4..8]);
    if magicCookie != MAGIC_COOKIE {
      return Refused;
    }
    if expected != NO_TX {
      var i := 0;
      while i < 12
        invariant 0 <= i <= 12
        invariant forall k | 0 <= k < i :: resp[8 + k] == expected[k]
      {
        if resp[8 + i] != expected[i] {
          assert resp[8..20][i] != expected[i];
          return Refused;
        }
        i := i + 1;
      }
      assert resp[8..20] == expected;
    }
    var msgLen := U16At(resp, 2);
    if |resp| < HEADER + msgLen {
      return Refused;
    }
    r := ScanAttributes(resp, expected, HEADER + msgLen);
  }

  method ScanAttributes(resp: seq<u8>, tx: TxId, limit: nat) returns (r: Answer)
    ensures r == Scan(resp, tx, HEADER, limit)
  {
    hide Mapped;
    var offset := HEADER;
    while offset < limit
      invariant Scan(resp, tx, offset, limit) == Scan(resp, tx, HEADER, limit)
      decreases limit - offset
    {
      if offset + 4 > |resp| {
        break;
      }
      var attrType := U16At(resp, offset);
      var attrLen := U16At(resp, offset + 2);
      if offset + 4 + attrLen > |resp| {
        break;
      }
      var attrVal := resp[offset + 4..offset + 4 + attrLen];
      var found := ReadAttribute(attrType, attrVal, tx);
      if found.Address? {
        return found;
      }
      offset := offset + 4 + PaddedLen(attrLen);
    }
    return NotFound;
  }

  method ReadAttribute(attrType: nat, attrVal: seq<u8>, tx: TxId) returns (r: Answer)
    ensures r == Mapped(attrType, attrVal, tx)
  {
    hide BigEndian, Xor, XorByte, U16At;
    r := NotFound;
    if attrType == ATTR_XOR_MAPPED {
      if |attrVal| >= 8 {
        var family := attrVal[1];
        var xport := U16At(attrVal, 2);
        var port := Xor(xport, COOKIE_TOP);
        if family == FAMILY_IPV4 && |attrVal| >= 8 {
          var xip := BigEndian(attrVal[4..8]);
          return Address(Put32(Xor(xip, MAGIC_COOKIE)), port);
        } else if family == FAMILY_IPV6 && |attrVal| >= 20 {
          var xip := attrVal[4..20];
          var xorKey := COOKIE_BYTES + tx;
          var ipBytes: seq<u8> := [];
          var i := 0;
          while i < 16
            invariant 0 <= i <= 16 && |ipBytes| == i
            invariant forall k | 0 <= k < i :: ipBytes[k] == XorByte(xip[k], xorKey[k])
          {
            ipBytes := ipBytes + [XorByte(xip[i], xorKey[i])];
            i := i + 1;
          }
          assert ipBytes == XorBytes(xip, xorKey);
          return Address(ipBytes, port);
        }
      }
    } else if attrType == ATTR_MAPPED {
      if |attrVal| >= 8 {
        var family := attrVal[1];
        var port := U16At(attrVal, 2);
        if family == FAMILY_IPV4 {
          return Address(attrVal[4..8], port);
        }
      }
    }
  }

  // ---------------------------------------------------------------------
  // Well-formed responses
  // ---------------------------------------------------------------------

  datatype Attribute = Attribute(attrType: nat, val: seq<u8>, padding: seq<u8>)

  predicate WellFormed(a: Attribute) {
    a.attrType < 0x1_0000 && |a.val| < 0x1_0000 && |a.val| + |a.padding| == PaddedLen(|a.val|)
  }

  function Encode(a: Attribute): seq<u8> {
    U16(a.attrType) + U16(|a.val|) + a.val + a.padding
  }

  function EncodeAll(attrs: seq<Attribute>): seq<u8> {
    if attrs == [] then [] else Encode(attrs[0]) + EncodeAll(attrs[1..])
  }

  function Response(tx: TxId, attrs: seq<Attribute>): seq<u8> {
    U16(BINDING_RESPONSE) + U16(|EncodeAll(attrs)|) + COOKIE_BYTES + tx + EncodeAll(attrs)
  }

  /** The first attribute that gives an address. */
  function FirstMapped(attrs: seq<Attribute>, tx: TxId): Answer
    decreases |attrs|
  {
    if attrs == [] then NotFound
    else
      var found := Mapped(attrs[0].attrType, attrs[0].val, tx);
      if found.Address? then found else FirstMapped(attrs[1..], tx)
  }

  lemma EncodedAt(pre: seq<u8>, a: Attribute, rest: seq<u8>)
    requires WellFormed(a)
    ensures var w := pre + (Encode(a) + rest);
            var o := |pre|;
            && |w| == o + 4 + PaddedLen(|a.val|) + |rest|
            && U16At(w, o) == a.attrType && U16At(w, o + 2) == |a.val|
            && w[o + 4..o + 4 + |a.val|] == a.val
            && |Encode(a)| == 4 + PaddedLen(|a.val|)
  {
    hide PaddedLen, U16, U16At;
    var w := pre + (Encode(a) + rest);
    U16RoundTrip(a.attrType);
    U16RoundTrip(|a.val|);
    assert w == pre + U16(a.attrType) + (U16(|a.val|) + a.val + a.padding + rest);
    FieldAt(pre, a.attrType, U16(|a.val|) + a.val + a.padding + rest);
    assert w == (pre + U16(a.attrType)) + U16(|a.val|) + (a.val + a.padding + rest);
    FieldAt(pre + U16(a.attrType), |a.val|, a.val + a.padding + rest);
  }

  /** Scanning encoded attributes finds the first mapped one, whatever precedes and follows them. */
  lemma {:induction false} ScanFindsFirst(pre: seq<u8>, attrs: seq<Attribute>, tail: seq<u8>, tx: TxId)
    requires forall i | 0 <= i < |attrs| :: WellFormed(attrs[i])
    ensures Scan(pre + (EncodeAll(attrs) + tail), tx, |pre|, |pre| + |EncodeAll(attrs)|) == FirstMapped(attrs, tx)
    decreases |attrs|
  {
    hide Mapped, Encode, PaddedLen, U16At, WellFormed;
    if attrs == [] {
    } else {
      var a, more := attrs[0], EncodeAll(attrs[1..]);
      var w := pre + (EncodeAll(attrs) + tail);
      assert w == pre + (Encode(a) + (more + tail));
      EncodedAt(pre, a, more + tail);
      assert w == (pre + Encode(a)) + (more + tail);
      ScanFindsFirst(pre + Encode(a), attrs[1..], tail, tx);
    }
  }

  /**
   A well-formed response is answered by its first mapped attribute, decoded with
   the expected transaction ID, unless that ID was given and is not the response's.
   */
  lemma ResponseAnsweredByFirstMapped(tx: TxId, attrs: seq<Attribute>, tail: seq<u8>, expected: TxId)
    requires forall i | 0 <= i < |attrs| :: WellFormed(attrs[i])
    requires |EncodeAll(attrs)| < 0x1_0000
    ensures Parse(Response(tx, attrs) + tail, expected) ==
            if expected != NO_TX && expected != tx then Refused else FirstMapped(attrs, expected)
  {
    hide U16At, U16, Scan, EncodeAll, WellFormed, BigEndian;
    var block := EncodeAll(attrs);
    var resp := Response(tx, attrs) + tail;
    U16RoundTrip(BINDING_RESPONSE);
    U16RoundTrip(|block|);
    FieldAt([], BINDING_RESPONSE, U16(|block|) + COOKIE_BYTES + tx + block + tail);
    assert resp == [] + U16(BINDING_RESPONSE) + (U16(|block|) + COOKIE_BYTES + tx + block + tail);
    FieldAt(U16(BINDING_RESPONSE), |block|, COOKIE_BYTES + tx + block + tail);
    assert resp == U16(BINDING_RESPONSE) + U16(|block|) + (COOKIE_BYTES + tx + block + tail);
    assert resp[4..8] == COOKIE_BYTES;
    CookieReads();
    assert resp[8..20] == tx;
    var pre := U16(BINDING_RESPONSE) + U16(|block|) + COOKIE_BYTES + tx;
    assert resp == pre + (block + tail);
    ScanFindsFirst(pre, attrs, tail, expected);
  }

  lemma CookieReads()
    ensures BigEndian(COOKIE_BYTES) == MAGIC_COOKIE
  {
    assert COOKIE_BYTES[..3][..2][..1] == [0x21];
    assert COOKIE_BYTES[..3][..2] == [0x21, 0x12];
    assert COOKIE_BYTES[..3] == [0x21, 0x12, 0xA4];
    assert BigEndian([0x21]) == 0x21;
    assert BigEndian([0x21, 0x12]) == 0x2112;
    assert BigEndian([0x21, 0x12, 0xA4]) == 0x2112A4;
  }

  // ---------------------------------------------------------------------
  // XOR-MAPPED-ADDRESS as a server writes it
  // ---------------------------------------------------------------------

  function XorMapped(family: u8, xport: nat, xip: seq<u8>): Attribute {
    Attribute(ATTR_XOR_MAPPED, [0, family] + U16(xport) + xip, [])
  }

  function XorMapped4(ip: seq<u8>, port: nat): Attribute
    requires |ip| == 4
  {
    XorMapped(FAMILY_IPV4, Xor(port, COOKIE_TOP), Put32(Xor(BigEndian(ip), MAGIC_COOKIE)))
  }

  function XorMapped6(ip: seq<u8>, port: nat, tx: TxId): Attribute
    requires |ip| == 16
  {
    XorMapped(FAMILY_IPV6, Xor(port, COOKIE_TOP), XorBytes(ip, COOKIE_BYTES + tx))
  }

  /** A four-byte field, written out. */
  lemma BigEndianOfFour(s: seq<u8>)
    requires |s| == 4
    ensures var a: int, b: int, c: int, d: int := s[0], s[1], s[2], s[3];
            BigEndian(s) == ((a * 256 + b) * 256 + c) * 256 + d
  {
    assert BigEndian([s[0]]) == s[0];
    assert [s[0], s[1]][..1] == [s[0]];
    assert BigEndian([s[0], s[1]]) == BigEndian([s[0]]) * 256 + s[1];
    assert [s[0], s[1], s[2]][..2] == [s[0], s[1]];
    assert BigEndian([s[0], s[1], s[2]]) == BigEndian([s[0], s[1]]) * 256 + s[2];
    assert s[..3] == [s[0], s[1], s[2]];
    assert BigEndian(s) == BigEndian(s[..3]) * 256 + s[3];
  }

  lemma FourDigits(v: nat, a: nat, b: nat, c: nat, d: nat)
    requires a < 256 && b < 256 && c < 256 && d < 256
    requires v == ((a * 256 + b) * 256 + c) * 256 + d
    ensures Put32(v) == [a, b, c, d]
    ensures v < 0x1_0000_0000
  {
    LastDigit(v, (a * 256 + b) * 256 + c, d);
    LastDigit(v / 256, a * 256 + b, c);
    LastDigit(v / 256 / 256, a, b);
    QuotientsOf256(v);
  }

  lemma LastDigit(v: nat, q: nat, d: nat)
    requires d < 256 && v == q * 256 + d
    ensures v / 256 == q && v % 256 == d
  {
  }

  lemma QuotientsOf256(v: nat)
    ensures v / 0x1_0000 == v / 256 / 256
    ensures v / 0x100_0000 == v / 256 / 256 / 256
  {
  }

  lemma Put32OfBigEndian(ip: seq<u8>)
    requires |ip| == 4
    ensures Put32(BigEndian(ip)) == ip
    ensures BigEndian(ip) < 0x1_0000_0000
  {
    hide Put32, BigEndian;
    BigEndianOfFour(ip);
    FourDigits(BigEndian(ip), ip[0], ip[1], ip[2], ip[3]);
  }

  lemma BigEndianOfPut32(v: nat)
    requires v < 0x1_0000_0000
    ensures BigEndian(Put32(v)) == v
  {
    hide BigEndian;
    BigEndianOfFour(Put32(v));
    QuotientsOf256(v);
    var a, b, c := v / 256 / 256 / 256, v / 256 / 256, v / 256;
    assert v == c * 256 + v % 256 && c == b * 256 + c % 256 && b == a * 256 + b % 256;
    assert a < 256;
  }

  lemma Pow2At32()
    ensures Pow2(32) == 0x1_0000_0000
  {
    Pow2At16();
    Pow2Add(16, 16);
  }

  lemma PortRoundTrip(port: nat)
    requires port < 0x1_0000
    ensures Xor(port, COOKIE_TOP) < 0x1_0000
    ensures Xor(Xor(port, COOKIE_TOP), COOKIE_TOP) == port
  {
    Pow2At16();
    XorBound(port, COOKIE_TOP, 16);
    XorUndone(port, COOKIE_TOP);
  }

  /** The fields of an encoded XOR-MAPPED-ADDRESS. */
  lemma XorMappedFields(family: u8, xport: nat, xip: seq<u8>)
    requires xport < 0x1_0000
    ensures var val := XorMapped(family, xport, xip).val;
            && |val| == 4 + |xip| && val[1] == family && U16At(val, 2) == xport && val[4..] == xip
  {
  }

  /** An IPv4 address and port come back whatever transaction ID is used. */
  lemma Ipv4RoundTrip(ip: seq<u8>, port: nat, tx: TxId)
    requires |ip| == 4 && port < 0x1_0000
    ensures Mapped(ATTR_XOR_MAPPED, XorMapped4(ip, port).val, tx) == Address(ip, port)
  {
    hide XorMapped, BigEndian, Xor, Put32, U16At;
    PortRoundTrip(port);
    Put32OfBigEndian(ip);
    Pow2At32();
    XorBound(BigEndian(ip), MAGIC_COOKIE, 32);
    var xip := Put32(Xor(BigEndian(ip), MAGIC_COOKIE));
    BigEndianOfPut32(Xor(BigEndian(ip), MAGIC_COOKIE));
    XorUndone(BigEndian(ip), MAGIC_COOKIE);
    XorMappedFields(FAMILY_IPV4, Xor(port, COOKIE_TOP), xip);
    Put32Length(Xor(BigEndian(ip), MAGIC_COOKIE));
    var val := XorMapped4(ip, port).val;
    assert val[4..8] == val[4..];
  }

  /** What the cookie does to an address and a port it does byte by byte. */
  lemma CookieBytewise(x: seq<u8>)
    requires |x| == 4
    ensures Put32(Xor(BigEndian(x), MAGIC_COOKIE)) == XorBytes(x, [0x21, 0x12, 0xA4, 0x42])
  {
    hide Xor, Put32, BigEndian;
    BigEndianOfFour(x);
    Pow2At16();
    var a: int, b: int, c: int, d: int := x[0], x[1], x[2], x[3];
    var ab, abc := a * 256 + b, (a * 256 + b) * 256 + c;
    XorOfConcat(a, b, 0x21, 0x12, 8);
    XorOfConcat(ab, c, 0x2112, 0xA4, 8);
    XorOfConcat(abc, d, 0x2112A4, 0x42, 8);
    var e, f, g, h := XorByte(x[0], 0x21), XorByte(x[1], 0x12), XorByte(x[2], 0xA4), XorByte(x[3], 0x42);
    FourDigits(Xor(BigEndian(x), MAGIC_COOKIE), e, f, g, h);
  }

  lemma PortBytewise(high: u8, low: u8)
    ensures Xor((high as int) * 256 + low, COOKIE_TOP) == (XorByte(high, 0x21) as int) * 256 + XorByte(low, 0x12)
  {
    hide Xor;
    Pow2At16();
    XorOfConcat(high, low, 0x21, 0x12, 8);
  }

  /** An IPv4 XOR-MAPPED-ADDRESS is its bytes with the cookie's 21 12 A4 42 taken off the address and 21 12 off the port. */
  lemma XorMappedBytewise(val: seq<u8>, tx: TxId)
    requires 8 <= |val| && val[1] == 0x01
    ensures Mapped(0x0020, val, tx) ==
            Address(XorBytes(val[4..8], [0x21, 0x12, 0xA4, 0x42]),
                    (XorByte(val[2], 0x21) as int) * 256 + XorByte(val[3], 0x12))
  {
    hide Xor, XorBytes;
    CookieBytewise(val[4..8]);
    PortBytewise(val[2], val[3]);
  }

  /** An IPv6 one besides has the transaction ID taken off the last twelve bytes. */
  lemma XorMapped6Bytewise(val: seq<u8>, tx: TxId)
    requires 20 <= |val| && val[1] == 0x02
    ensures Mapped(0x0020, val, tx) ==
            Address(XorBytes(val[4..20], [0x21, 0x12, 0xA4, 0x42] + tx),
                    (XorByte(val[2], 0x21) as int) * 256 + XorByte(val[3], 0x12))
  {
    hide Xor, XorBytes;
    PortBytewise(val[2], val[3]);
  }

  /** A plain MAPPED-ADDRESS is read as it stands. */
  lemma PlainMappedAsItStands(ip: seq<u8>, high: u8, low: u8, more: seq<u8>, tx: TxId)
    requires |ip| == 4
    ensures Mapped(0x0001, [0, 0x01, high, low] + ip + more, tx) == Address(ip, (high as int) * 256 + low)
  {
    assert ([0, 0x01, high, low] + ip + more)[4..8] == ip;
  }

  /** A response is refused exactly for its length, its type, the cookie or the transaction ID. */
  lemma RefusedExactly(resp: seq<u8>, expected: TxId)
    ensures Parse(resp, expected) == Refused <==>
            || |resp| < 20
            || resp[0] != 0x01 || resp[1] != 0x01
            || resp[4..8] != [0x21, 0x12, 0xA4, 0x42]
            || ((exists i :: 0 <= i < 12 && expected[i] != 0) && resp[8..20] != expected)
            || |resp| < 20 + (resp[2] as int) * 256 + resp[3]
  {
    hide Scan, BigEndian, Put32;
    if 20 <= |resp| {
      ScanIsAnAnswer(resp, expected, HEADER, HEADER + U16At(resp, 2));
      CookieReads();
      CookieReadsOnly(resp[4..8]);
      assert expected != NO_TX <==> exists i :: 0 <= i < 12 && expected[i] != 0 by {
        if forall i | 0 <= i < 12 :: expected[i] == 0 {
          assert expected == NO_TX;
        }
      }
    }
  }

  lemma CookieReadsOnly(x: seq<u8>)
    requires |x| == 4
    ensures BigEndian(x) == MAGIC_COOKIE <==> x == [0x21, 0x12, 0xA4, 0x42]
  {
    hide BigEndian, Put32;
    CookieReads();
    Put32OfBigEndian(x);
    Put32OfBigEndian(COOKIE_BYTES);
  }

  lemma Put32Length(v: nat)
    ensures |Put32(v)| == 4
  {
  }

  /** An IPv6 address comes back exactly when it is read with the transaction ID it was written with. */
  lemma Ipv6RoundTrip(ip: seq<u8>, port: nat, tx: TxId, used: TxId)
    requires |ip| == 16 && port < 0x1_0000
    ensures Mapped(ATTR_XOR_MAPPED, XorMapped6(ip, port, tx).val, used).Address?
    ensures Mapped(ATTR_XOR_MAPPED, XorMapped6(ip, port, tx).val, used) == Address(ip, port) <==> used == tx
  {
    hide XorMapped, BigEndian, Xor, Put32, U16At, XorBytes;
    PortRoundTrip(port);
    var xip := XorBytes(ip, COOKIE_BYTES + tx);
    XorBytesLength(ip, COOKIE_BYTES + tx);
    XorMappedFields(FAMILY_IPV6, Xor(port, COOKIE_TOP), xip);
    var val := XorMapped6(ip, port, tx).val;
    assert val[4..20] == val[4..];
    XorBytesUndoneOnlyBySameKey(ip, COOKIE_BYTES + tx, COOKIE_BYTES + used);
    if COOKIE_BYTES + tx == COOKIE_BYTES + used {
      assert tx == (COOKIE_BYTES + tx)[4..] == (COOKIE_BYTES + used)[4..] == used;
    }
  }

  lemma XorBytesLength(x: seq<u8>, key: seq<u8>)
    requires |x| == |key|
    ensures |XorBytes(x, key)| == |x|
  {
  }

  lemma XorBytesUndoneOnlyBySameKey(x: seq<u8>, key: seq<u8>, used: seq<u8>)
    requires |x| == |key| == |used|
    ensures |XorBytes(x, key)| == |x|
    ensures XorBytes(XorBytes(x, key), used) == x <==> key == used
  {
    hide Xor;
    var y := XorBytes(x, key);
    var z := XorBytes(y, used);
    assert forall i | 0 <= i < |x| :: y[i] == XorByte(x[i], key[i]) && z[i] == XorByte(y[i], used[i]);
    forall i | 0 <= i < |x|
      ensures z[i] == x[i] <==> key[i] == used[i]
    {
      XorUndone(x[i], key[i]);
      XorUndone(y[i], used[i]);
      XorSymmetric(x[i], key[i]);
      XorUndone(key[i], x[i]);
      XorSymmetric(x[i], used[i]);
      XorUndone(used[i], x[i]);
    }
  }

  /** An attribute of another type, or a mapped address too short or of an unknown family. */
  predicate Silent(a: Attribute) {
    !Mapped(a.attrType, a.val, NO_TX).Address?
  }

  lemma {:induction false} FirstMappedAfterSilent(before: seq<Attribute>, a: Attribute, after: seq<Attribute>, tx: TxId)
    requires forall i | 0 <= i < |before| :: Silent(before[i])
    requires Mapped(a.attrType, a.val, tx).Address?
    ensures FirstMapped(before + [a] + after, tx) == Mapped(a.attrType, a.val, tx)
    decreases |before|
  {
    hide Mapped;
    var attrs := before + [a] + after;
    if before == [] {
    } else {
      assert attrs[1..] == before[1..] + [a] + after;
      SilentMapsNothing(before[0], tx);
      FirstMappedAfterSilent(before[1..], a, after, tx);
    }
  }

  lemma SilentMapsNothing(a: Attribute, tx: TxId)
    requires Silent(a)
    ensures Mapped(a.attrType, a.val, tx) == NotFound
  {
  }

  /**
   A response carrying an IPv4 XOR-MAPPED-ADDRESS behind any other attributes is
   read back exactly when no transaction ID was demanded or the right one was.
   */
  lemma Ipv4ResponseRoundTrip(tx: TxId, before: seq<Attribute>, ip: seq<u8>, port: nat, after: seq<Attribute>,
                              tail: seq<u8>, expected: TxId)
    requires |ip| == 4 && port < 0x1_0000
    requires var attrs := before + [XorMapped4(ip, port)] + after;
             |EncodeAll(attrs)| < 0x1_0000 && forall i | 0 <= i < |attrs| :: WellFormed(attrs[i])
    requires forall i | 0 <= i < |before| :: Silent(before[i])
    ensures Parse(Response(tx, before + [XorMapped4(ip, port)] + after) + tail, expected) == Address(ip, port)
            <==> expected == NO_TX || expected == tx
  {
    hide Parse, Response, Mapped, XorMapped, WellFormed, EncodeAll;
    var a := XorMapped4(ip, port);
    XorMappedIsXorMapped(FAMILY_IPV4, Xor(port, COOKIE_TOP), Put32(Xor(BigEndian(ip), MAGIC_COOKIE)));
    ResponseAnsweredByFirstMapped(tx, before + [a] + after, tail, expected);
    Ipv4RoundTrip(ip, port, expected);
    FirstMappedAfterSilent(before, a, after, expected);
  }

  lemma XorMappedIsXorMapped(family: u8, xport: nat, xip: seq<u8>)
    ensures XorMapped(family, xport, xip).attrType == ATTR_XOR_MAPPED
  {
  }

  /**
   With an IPv6 XOR-MAPPED-ADDRESS the address is read back exactly when the
   response's own transaction ID is passed in; passing none accepts the response
   but decodes another address.
   */
  lemma Ipv6ResponseRoundTrip(tx: TxId, before: seq<Attribute>, ip: seq<u8>, port: nat, after: seq<Attribute>,
                              tail: seq<u8>, expected: TxId)
    requires |ip| == 16 && port < 0x1_0000
    requires var attrs := before + [XorMapped6(ip, port, tx)] + after;
             |EncodeAll(attrs)| < 0x1_0000 && forall i | 0 <= i < |attrs| :: WellFormed(attrs[i])
    requires forall i | 0 <= i < |before| :: Silent(before[i])
    ensures Parse(Response(tx, before + [XorMapped6(ip, port, tx)] + after) + tail, expected) == Address(ip, port)
            <==> expected == tx
    ensures expected == NO_TX ==> Parse(Response(tx, before + [XorMapped6(ip, port, tx)] + after) + tail, expected).Address?
  {
    hide Parse, Response, Mapped, XorMapped, WellFormed, EncodeAll;
    var a := XorMapped6(ip, port, tx);
    XorMappedIsXorMapped(FAMILY_IPV6, Xor(port, COOKIE_TOP), XorBytes(ip, COOKIE_BYTES + tx));
    ResponseAnsweredByFirstMapped(tx, before + [a] + after, tail, expected);
    Ipv6RoundTrip(ip, port, tx, expected);
    FirstMappedAfterSilent(before, a, after, expected);
  }

  // ---------------------------------------------------------------------
  // Bytes behind the message
  // ---------------------------------------------------------------------

  /** The start of an attribute the message ends inside of, if the walk gets there without an answer. */
  function Dangling(resp: seq<u8>, tx: TxId, offset: nat): seq<u8>
    decreases |resp| - offset
  {
    if offset >= |resp| then []
    else if Cut(resp[offset..]) then resp[offset..]
    else
      var attrLen := U16At(resp, offset + 2);
      if Mapped(U16At(resp, offset), resp[offset + 4..offset + 4 + attrLen], tx).Address? then []
      else Dangling(resp, tx, offset + 4 + PaddedLen(attrLen))
  }

  /** Type, length and value are not all there. */
  predicate Cut(d: seq<u8>) {
    |d| < 4 || 4 + U16At(d, 2) > |d|
  }

  /** The answer of the attribute at the head of `w`. */
  function HeadAnswer(w: seq<u8>, tx: TxId): Answer {
    if Cut(w) then NotFound else Mapped(U16At(w, 0), w[4..4 + U16At(w, 2)], tx)
  }

  /** Nothing read so far rules an address out. */
  predicate CanAnswer(d: seq<u8>)
    requires d != []
  {
    && d[0] == 0
    && (2 <= |d| ==> d[1] == 0x20 || d[1] == 0x01)
    && (4 <= |d| ==> 8 <= U16At(d, 2))
    && (6 <= |d| ==> d[5] == 1 || (d[5] == 2 && d[1] == 0x20 && 20 <= U16At(d, 2)))
  }

  /** Bytes behind the message only ever complete the attribute it ends inside of. */
  lemma {:induction false} ScanUnderTail(resp: seq<u8>, tail: seq<u8>, tx: TxId, offset: nat)
    ensures var d := Dangling(resp, tx, offset);
            if d == [] then Scan(resp + tail, tx, offset, |resp|) == Scan(resp, tx, offset, |resp|)
            else
              && Cut(d)
              && Scan(resp, tx, offset, |resp|) == NotFound
              && Scan(resp + tail, tx, offset, |resp|) == HeadAnswer(d + tail, tx)
    decreases |resp| - offset
  {
    var w := resp + tail;
    if offset >= |resp| {
    } else if Cut(resp[offset..]) {
      hide Mapped, PaddedLen;
      assert w[offset..] == resp[offset..] + tail;
      CutScan(w, tx, offset, |resp|);
    } else {
      SameAttribute(resp, tail, tx, offset);
      ScanStep(resp, tx, offset, |resp|);
      ScanStep(w, tx, offset, |resp|);
      DanglingStep(resp, tx, offset);
      hide Cut, HeadAnswer, Scan, Dangling, FoundAt, NextAt, Whole;
      ScanUnderTail(resp, tail, tx, NextAt(resp, offset));
    }
  }

  /** The attribute at `offset` is all there. */
  predicate Whole(resp: seq<u8>, offset: nat) {
    offset + 4 <= |resp| && offset + 4 + U16At(resp, offset + 2) <= |resp|
  }

  function FoundAt(resp: seq<u8>, tx: TxId, offset: nat): Answer
    requires Whole(resp, offset)
  {
    Mapped(U16At(resp, offset), resp[offset + 4..offset + 4 + U16At(resp, offset + 2)], tx)
  }

  function NextAt(resp: seq<u8>, offset: nat): (next: nat)
    requires Whole(resp, offset)
    ensures offset < next
  {
    offset + 4 + PaddedLen(U16At(resp, offset + 2))
  }

  lemma SameAttribute(resp: seq<u8>, tail: seq<u8>, tx: TxId, offset: nat)
    requires offset < |resp| && !Cut(resp[offset..])
    ensures Whole(resp, offset) && Whole(resp + tail, offset)
    ensures FoundAt(resp + tail, tx, offset) == FoundAt(resp, tx, offset)
    ensures NextAt(resp + tail, offset) == NextAt(resp, offset)
  {
    hide Mapped, PaddedLen;
    var w := resp + tail;
    assert U16At(resp[offset..], 2) == U16At(resp, offset + 2);
    assert U16At(w, offset) == U16At(resp, offset) && U16At(w, offset + 2) == U16At(resp, offset + 2);
    var n := U16At(resp, offset + 2);
    hide U16At, Cut;
    assert w[offset + 4..offset + 4 + n] == resp[offset + 4..offset + 4 + n];
  }

  lemma ScanStep(w: seq<u8>, tx: TxId, offset: nat, limit: nat)
    requires offset < limit && Whole(w, offset)
    ensures Scan(w, tx, offset, limit) ==
            if FoundAt(w, tx, offset).Address? then FoundAt(w, tx, offset) else Scan(w, tx, NextAt(w, offset), limit)
  {
    hide Mapped, PaddedLen, U16At;
  }

  lemma DanglingStep(resp: seq<u8>, tx: TxId, offset: nat)
    requires offset < |resp| && !Cut(resp[offset..]) && Whole(resp, offset)
    ensures Dangling(resp, tx, offset) ==
            if FoundAt(resp, tx, offset).Address? then [] else Dangling(resp, tx, NextAt(resp, offset))
  {
    hide Mapped, PaddedLen, U16At, Cut;
  }

  /** A walk that meets a cut attribute ends there, with or without it completed. */
  lemma CutScan(w: seq<u8>, tx: TxId, offset: nat, limit: nat)
    requires offset < limit <= |w| && Cut(w[offset..limit])
    ensures Scan(w, tx, offset, limit) == HeadAnswer(w[offset..], tx)
  {
    hide Mapped, PaddedLen;
    var rest := w[offset..];
    if !Cut(rest) {
      assert U16At(w, offset) == U16At(rest, 0) && U16At(w, offset + 2) == U16At(rest, 2);
      assert rest[4..4 + U16At(rest, 2)] == w[offset + 4..offset + 4 + U16At(rest, 2)];
      MappedIsAnAnswer(U16At(rest, 0), rest[4..4 + U16At(rest, 2)], tx);
    }
  }

  lemma MappedIsAnAnswer(attrType: nat, val: seq<u8>, tx: TxId)
    ensures !Mapped(attrType, val, tx).Refused?
  {
  }

  /** Which attributes give an address. */
  lemma MappedExactly(attrType: nat, val: seq<u8>, tx: TxId)
    ensures Mapped(attrType, val, tx).Address? <==>
            && 8 <= |val|
            && (attrType == ATTR_MAPPED || attrType == ATTR_XOR_MAPPED)
            && (val[1] == 1 || (val[1] == 2 && attrType == ATTR_XOR_MAPPED && 20 <= |val|))
  {
  }

  /** A cut attribute can be completed to an address exactly when nothing read of it rules that out. */
  lemma CutAnswers(d: seq<u8>, tx: TxId)
    requires d != [] && Cut(d)
    ensures (exists tail: seq<u8> :: HeadAnswer(d + tail, tx).Address?) <==> CanAnswer(d)
  {
    hide Mapped;
    forall tail: seq<u8> | HeadAnswer(d + tail, tx).Address?
      ensures CanAnswer(d)
    {
      AnswerStartsRight(d, tail, tx);
    }
    if CanAnswer(d) {
      var tail := Completion(d);
      CompletionAnswers(d, tx);
    }
  }

  lemma AnswerStartsRight(d: seq<u8>, tail: seq<u8>, tx: TxId)
    requires d != [] && HeadAnswer(d + tail, tx).Address?
    ensures CanAnswer(d)
  {
    hide Mapped;
    var w := d + tail;
    MappedExactly(U16At(w, 0), w[4..4 + U16At(w, 2)], tx);
    assert w[4..4 + U16At(w, 2)][1] == w[5];
    assert w[0] == 0 && (w[1] == 0x20 || w[1] == 0x01);
    assert forall i | 0 <= i < |d| :: w[i] == d[i];
  }

  const ANSWERED: seq<u8> := [0x00, 0x20, 0x00, 0x08, 0x00, 0x01, 0, 0, 0, 0, 0, 0]

  /** A completion of a cut attribute: what is missing of an IPv4 address, and zeros. */
  function Completion(d: seq<u8>): (tail: seq<u8>)
    requires d != [] && Cut(d)
    ensures |tail| == Missing(d)
  {
    var zeros: seq<u8> := seq(Missing(d), _ => 0);
    if |d| < 12 then (ANSWERED[|d|..] + zeros)[..Missing(d)] else zeros
  }

  function Missing(d: seq<u8>): nat
    requires Cut(d)
  {
    if |d| < 3 then 12 - |d|
    else if |d| == 3 then 12 + d[2] * 256 - |d|
    else 4 + U16At(d, 2) - |d|
  }

  lemma CompletionAnswers(d: seq<u8>, tx: TxId)
    requires d != [] && Cut(d) && CanAnswer(d)
    ensures HeadAnswer(d + Completion(d), tx).Address?
  {
    hide Mapped;
    var w := d + Completion(d);
    CompletionLength(d);
    CompletionBytes(d);
    var len := U16At(w, 2);
    MappedExactly(U16At(w, 0), w[4..4 + len], tx);
    assert w[4..4 + len][1] == w[5];
  }

  /** A completed attribute ends where its length field says. */
  lemma CompletionLength(d: seq<u8>)
    requires d != [] && Cut(d)
    ensures var w := d + Completion(d);
            12 <= |w| || 4 <= |d|
    ensures var w := d + Completion(d);
            4 <= |w| && |w| == 4 + U16At(w, 2)
  {
    var w := d + Completion(d);
    assert |w| == |d| + Missing(d);
    if |d| < 4 {
      assert w[3] == ANSWERED[3];
      assert w[2] == if |d| < 3 then ANSWERED[2] else d[2];
    } else {
      assert w[2] == d[2] && w[3] == d[3];
    }
  }

  lemma CompletionBytes(d: seq<u8>)
    requires d != [] && Cut(d) && CanAnswer(d)
    ensures var w := d + Completion(d);
            12 <= |w| && forall k | 0 <= k < 6 :: w[k] == if k < |d| then d[k] else ANSWERED[k]
  {
    CompletionLength(d);
    var w := d + Completion(d);
    assert 4 <= |d| ==> U16At(w, 2) == U16At(d, 2);
  }

  lemma {:induction false} ScanIsAnAnswer(resp: seq<u8>, tx: TxId, offset: nat, limit: nat)
    ensures !Scan(resp, tx, offset, limit).Refused?
    decreases |resp| - offset
  {
    hide Mapped;
    if offset >= limit || offset + 4 > |resp| {
    } else {
      var attrLen := U16At(resp, offset + 2);
      if offset + 4 + attrLen <= |resp| {
        ScanIsAnAnswer(resp, tx, offset + 4 + PaddedLen(attrLen), limit);
      }
    }
  }

  lemma SameHeader(resp: seq<u8>, tail: seq<u8>, expected: TxId)
    requires HEADER <= |resp| == HEADER + U16At(resp, 2)
    ensures Parse(resp + tail, expected) ==
            if Parse(resp, expected) == Refused then Refused else Scan(resp + tail, expected, HEADER, |resp|)
    ensures Parse(resp, expected) != Refused ==> Parse(resp, expected) == Scan(resp, expected, HEADER, |resp|)
  {
    hide Scan, BigEndian;
    ScanIsAnAnswer(resp, expected, HEADER, |resp|);
    var w := resp + tail;
    assert U16At(w, 0) == U16At(resp, 0) && U16At(w, 2) == U16At(resp, 2);
    assert w[4..8] == resp[4..8] && w[8..20] == resp[8..20];
  }

  /**
   Bytes behind a message never matter, exactly unless the walk ends without an
   answer inside an attribute that could still turn out to be a mapped address.
   */
  lemma TrailingBytesIgnored(resp: seq<u8>, expected: TxId)
    requires HEADER <= |resp| == HEADER + U16At(resp, 2)
    ensures (forall tail: seq<u8> :: Parse(resp + tail, expected) == Parse(resp, expected))
            <==> (var d := Dangling(resp, expected, HEADER);
                  Parse(resp, expected) == Refused || d == [] || !CanAnswer(d))
  {
    hide Scan, Dangling, CanAnswer, Cut, HeadAnswer, Parse, U16At;
    var d := Dangling(resp, expected, HEADER);
    forall tail: seq<u8>
      ensures Parse(resp + tail, expected) ==
              if Parse(resp, expected) == Refused then Refused
              else if d == [] then Parse(resp, expected)
              else HeadAnswer(d + tail, expected)
      ensures Parse(resp, expected) != Refused && d != [] ==> Cut(d) && Parse(resp, expected) == NotFound
    {
      SameHeader(resp, tail, expected);
      ScanUnderTail(resp, tail, expected, HEADER);
    }
    assert Parse(resp + [], expected) == Parse(resp, expected) by { assert resp + [] == resp; }
    if Parse(resp, expected) != Refused && d != [] {
      CutAnswers(d, expected);
      forall tail: seq<u8>
        ensures Parse(resp + tail, expected) == NotFound || HeadAnswer(d + tail, expected).Address?
      {
        HeadIsAnAnswer(d + tail, expected);
      }
    }
  }

  lemma HeadIsAnAnswer(w: seq<u8>, tx: TxId)
    ensures !HeadAnswer(w, tx).Refused?
  {
    hide Mapped;
    if !Cut(w) {
      MappedIsAnAnswer(U16At(w, 0), w[4..4 + U16At(w, 2)], tx);
    }
  }

  /** A message that ends behind the header of its one attribute: no answer alone, an address with eight more bytes. */
  lemma EightBytesBehindAnswer(tx: TxId)
    ensures var resp := U16(BINDING_RESPONSE) + U16(4) + COOKIE_BYTES + tx + [0x00, 0x20, 0x00, 0x08];
            && Parse(resp, tx) == NotFound
            && Parse(resp + [0, 1, 0, 0, 0, 0, 0, 0], tx).Address?
  {
    hide Scan, BigEndian, Mapped, Dangling, CanAnswer;
    var head := [0x00, 0x20, 0x00, 0x08];
    var tail: seq<u8> := [0, 1, 0, 0, 0, 0, 0, 0];
    var resp := U16(BINDING_RESPONSE) + U16(4) + COOKIE_BYTES + tx + head;
    assert resp[4..8] == COOKIE_BYTES && resp[8..20] == tx && resp[20..] == head;
    CookieReads();
    ScanIsAnAnswer(resp, tx, HEADER, |resp|);
    HeadDangles(resp, tx);
    SameHeader(resp, tail, tx);
    ScanUnderTail(resp, tail, tx, HEADER);
    var w := head + tail;
    assert U16At(w, 0) == 0x20 && U16At(w, 2) == 8;
    assert w[4..12] == tail;
    MappedExactly(U16At(w, 0), w[4..12], tx);
  }

  lemma HeadDangles(resp: seq<u8>, tx: TxId)
    requires HEADER < |resp| && Cut(resp[HEADER..])
    ensures Dangling(resp, tx, HEADER) == resp[HEADER..]
  {
  }
}
