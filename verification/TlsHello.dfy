/**
 The synthetic TLS 1.3 ClientHello (sections 4.1.2 and 4.2.1 of RFC 8446, section
 3 of RFC 6066) and the parser that reads the server name back. Entropy is a
 parameter of the builder; lengths are cut to their field as Go's conversions do.
 */
module TlsHello {
  import opened MachineWord

  const RECORD_HANDSHAKE: u8 := 0x16
  const CLIENT_HELLO: u8 := 0x01
  const VERSION_LEGACY := 0x0303
  const VERSION_RECORD := 0x0301
  const VERSION_13 := 0x0304
  const RECORD_HEADER := 5
  const EXT_SERVER_NAME := 0x0000
  const EXT_SUPPORTED_GROUPS := 0x000a
  const EXT_KEY_SHARE := 0x0033
  const EXT_SUPPORTED_VERSIONS := 0x002b
  const GROUP_X25519 := 0x001d

  // ---------------------------------------------------------------------
  // The parser on values
  // ---------------------------------------------------------------------

  datatype Hello = Hello(sni: seq<u8>, hasTLS13: bool) | Malformed

  /** Some entry of a version list, read in steps of two from `i`, is TLS 1.3. */
  function ListsVersion13(rest: seq<u8>, extLen: nat, listLen: nat, i: nat): bool
    requires extLen <= |rest|
    decreases extLen - i
  {
    if i + 2 <= extLen && i < 1 + listLen then
      U16At(rest, i) == VERSION_13 || ListsVersion13(rest, extLen, listLen, i + 2)
    else false
  }

  /** The k-th entry of a version list is within its extension and its own length, and is 0304. */
  predicate EntryIsVersion13(rest: seq<u8>, extLen: nat, listLen: nat, k: nat)
    requires extLen <= |rest|
  {
    2 * k + 3 <= extLen && 2 * k < listLen && rest[2 * k + 1] == 0x03 && rest[2 * k + 2] == 0x04
  }

  lemma {:induction false} ListsVersion13Exactly(rest: seq<u8>, extLen: nat, listLen: nat, from: nat)
    requires extLen <= |rest|
    ensures ListsVersion13(rest, extLen, listLen, 2 * from + 1)
            <==> exists k :: from <= k && EntryIsVersion13(rest, extLen, listLen, k)
    decreases extLen - from
  {
    if extLen < 2 * from + 3 || listLen <= 2 * from {
      assert forall k | from <= k :: !EntryIsVersion13(rest, extLen, listLen, k);
    } else {
      ListsVersion13Exactly(rest, extLen, listLen, from + 1);
      assert U16At(rest, 2 * from + 1) == VERSION_13 <==> EntryIsVersion13(rest, extLen, listLen, from);
    }
  }

  /** Of a server name extension the name is read whatever its list length and kind say; a supported-versions one is read to its end; others add nothing. */
  lemma EffectExactly(h: Hello, extType: nat, rest: seq<u8>, extLen: nat)
    requires h.Hello? && extLen <= |rest|
    ensures var g := Effect(h, extType, rest, extLen);
            && (extType == 0x0000 && extLen > 5 && 5 + (rest[3] as int) * 256 + rest[4] <= |rest| ==>
                  g == Hello(rest[5..5 + (rest[3] as int) * 256 + rest[4]], h.hasTLS13))
            && (extType == 0x0000 && (extLen <= 5 || 5 + (rest[3] as int) * 256 + rest[4] > |rest|) ==> g == h)
            && (extType == 0x002b ==>
                  g == Hello(h.sni, h.hasTLS13 || (extLen >= 1 && exists k: nat :: EntryIsVersion13(rest, extLen, rest[0], k))))
            && (extType != 0x0000 && extType != 0x002b ==> g == h)
  {
    if extLen >= 1 {
      ListsVersion13Exactly(rest, extLen, rest[0], 0);
    }
  }

  /** What one extension adds; `rest` runs from its data to the end of the block. */
  function Effect(h: Hello, extType: nat, rest: seq<u8>, extLen: nat): Hello
    requires h.Hello? && extLen <= |rest|
    ensures Effect(h, extType, rest, extLen).Hello?
  {
    if extType == EXT_SUPPORTED_VERSIONS then
      if extLen >= 1 && ListsVersion13(rest, extLen, rest[0], 1) then h.(hasTLS13 := true) else h
    else if extType == EXT_SERVER_NAME then
      if extLen > 5 && 5 + U16At(rest, 3) <= |rest| then h.(sni := rest[5..5 + U16At(rest, 3)]) else h
    else h
  }

  /** The extension block read to its end, or to the first extension that does not fit. */
  function Walk(h: Hello, rest: seq<u8>): Hello
    requires h.Hello?
    ensures Walk(h, rest).Hello?
    decreases |rest|
  {
    if |rest| < 4 then h
    else
      var extLen := U16At(rest, 2);
      if 4 + extLen > |rest| then h
      else Walk(Effect(h, U16At(rest, 0), rest[4..], extLen), rest[4 + extLen..])
  }

  /** The whole message: fixed header, three length-prefixed fields, extensions. */
  function Validate(data: seq<u8>): Hello {
    if |data| < RECORD_HEADER + 4 then Malformed
    else if data[0] != RECORD_HANDSHAKE then Malformed
    else if data[5] != CLIENT_HELLO then Malformed
    else if |data| <= 43 then Malformed
    else
      var sessionLen: int := data[43];
      var afterSession := 44 + sessionLen;
      if |data| <= afterSession + 2 then Malformed
      else
        var afterCiphers := afterSession + 2 + U16At(data, afterSession);
        if |data| <= afterCiphers + 1 then Malformed
        else ReadRest(data, afterCiphers)
  }

  /** Compression methods and extensions, from `at` on. */
  function ReadRest(data: seq<u8>, at: nat): Hello
    requires at < |data|
  {
    var compLen: int := data[at];
    var afterComp := at + 1 + compLen;
    if |data| < afterComp + 2 then Hello([], false)
    else
      var start := afterComp + 2;
      var blockEnd := start + U16At(data, afterComp);
      Walk(Hello([], false), data[start..if blockEnd > |data| then |data| else blockEnd])
  }

  // ---------------------------------------------------------------------
  // The parser as code
  // ---------------------------------------------------------------------

  /** Reads arbitrary bytes without ever leaving them. */
  method ValidateClientHello(data: seq<u8>) returns (r: Hello)
    ensures r == Validate(data)
  {
    if |data| < RECORD_HEADER + 4 {
      return Malformed;
    }
    if data[0] != RECORD_HANDSHAKE {
      return Malformed;
    }
    if data[5] != CLIENT_HELLO {
      return Malformed;
    }
    var offset: nat := 5 + 4 + 2 + 32;
    if |data| <= offset {
      return Malformed;
    }
    var sessionIDLen: int := data[offset];
    offset := offset + 1 + sessionIDLen;
    if |data| <= offset + 2 {
      return Malformed;
    }
    var cipherSuitesLen := U16At(data, offset);
    offset := offset + 2 + cipherSuitesLen;
    if |data| <= offset + 1 {
      return Malformed;
    }
    var compMethodsLen: int := data[offset];
    offset := offset + 1 + compMethodsLen;
    if |data| < offset + 2 {
      return Hello([], false);
    }
    var extTotalLen := U16At(data, offset);
    offset := offset + 2;
    var blockEnd := offset + extTotalLen;
    if blockEnd > |data| {
      blockEnd := |data|;
    }
    r := WalkExtensions(data, offset, blockEnd);
  }

  method WalkExtensions(data: seq<u8>, start: nat, blockEnd: nat) returns (r: Hello)
    requires start <= blockEnd <= |data|
    ensures r == Walk(Hello([], false), data[start..blockEnd])
  {
    hide Effect;
    r := Hello([], false);
    var offset := start;
    while offset + 4 <= blockEnd
      invariant start <= offset <= blockEnd && r.Hello?
      invariant Walk(r, data[offset..blockEnd]) == Walk(Hello([], false), data[start..blockEnd])
      decreases blockEnd - offset
    {
      ghost var rest := data[offset..blockEnd];
      var extType := U16At(data, offset);
      var extLen := U16At(data, offset + 2);
      assert extType == U16At(rest, 0) && extLen == U16At(rest, 2);
      offset := offset + 4;
      if offset + extLen > blockEnd {
        return;
      }
      assert rest[4..] == data[offset..blockEnd] && rest[4 + extLen..] == data[offset + extLen..blockEnd];
      r := ApplyExtension(r, data, offset, blockEnd, extType, extLen);
      offset := offset + extLen;
    }
  }

  method ApplyExtension(h: Hello, data: seq<u8>, offset: nat, blockEnd: nat, extType: nat, extLen: nat) returns (r: Hello)
    requires h.Hello? && offset + extLen <= blockEnd <= |data|
    ensures r == Effect(h, extType, data[offset..blockEnd], extLen)
  {
    r := h;
    ghost var rest := data[offset..blockEnd];
    if extType == EXT_SUPPORTED_VERSIONS {
      if extLen >= 1 {
        var vListLen: int := data[offset];
        assert rest[0] == vListLen;
        var i := 1;
        while i + 2 <= extLen && i < 1 + vListLen
          invariant 1 <= i && r.Hello? && r.sni == h.sni
          invariant r.hasTLS13 || ListsVersion13(rest, extLen, vListLen, i)
                    <==> h.hasTLS13 || ListsVersion13(rest, extLen, vListLen, 1)
          decreases extLen - i
        {
          var ver := U16At(data, offset + i);
          assert ver == U16At(rest, i);
          if ver == VERSION_13 {
            r := r.(hasTLS13 := true);
          }
          i := i + 2;
        }
      }
    } else if extType == EXT_SERVER_NAME {
      if extLen > 5 {
        var nameLen := U16At(data, offset + 3);
        assert nameLen == U16At(rest, 3);
        if offset + 5 + nameLen <= blockEnd {
          SliceOfSlice(data, offset, blockEnd, 5, 5 + nameLen);
          r := r.(sni := data[offset + 5..offset + 5 + nameLen]);
        }
      }
    }
  }

  lemma SliceOfSlice(data: seq<u8>, lo: nat, hi: nat, a: nat, b: nat)
    requires lo <= hi <= |data| && a <= b <= hi - lo
    ensures data[lo..hi][a..b] == data[lo + a..lo + b]
  {
    var x, y := data[lo..hi][a..b], data[lo + a..lo + b];
    assert forall i | 0 <= i < |x| :: x[i] == y[i];
  }

  // ---------------------------------------------------------------------
  // Encoding
  // ---------------------------------------------------------------------

  datatype Extension = Extension(extType: nat, data: seq<u8>)

  function EncodeExtension(e: Extension): seq<u8> {
    U16(e.extType) + U16(|e.data|) + e.data
  }

  function EncodeExtensions(es: seq<Extension>): seq<u8> {
    if es == [] then [] else EncodeExtension(es[0]) + EncodeExtensions(es[1..])
  }

  /** A server name that claims bytes past the end of its own extension. */
  predicate Overruns(e: Extension) {
    e.extType == EXT_SERVER_NAME && |e.data| > 5 && 5 + U16At(e.data, 3) > |e.data|
  }

  /** Type and length fit their fields, and a server name stays inside its extension. */
  predicate WellFormed(e: Extension) {
    e.extType < 0x1_0000 && |e.data| < 0x1_0000 && !Overruns(e)
  }

  /** The extensions taken one by one, each seen alone. */
  function Fold(h: Hello, es: seq<Extension>): Hello
    requires h.Hello?
    ensures Fold(h, es).Hello?
    decreases |es|
  {
    if es == [] then h else Fold(Effect(h, es[0].extType, es[0].data, |es[0].data|), es[1..])
  }

  /** A ClientHello record with the given variable fields. */
  function Record(random: seq<u8>, session: seq<u8>, ciphers: seq<u8>, compression: seq<u8>, extensions: seq<u8>): seq<u8> {
    var body := Body(random, session, ciphers, compression, extensions);
    var handshake := [CLIENT_HELLO, (|body| / 0x1_0000) % 256, (|body| / 256) % 256, |body| % 256] + body;
    [RECORD_HANDSHAKE] + U16(VERSION_RECORD) + U16(|handshake|) + handshake
  }

  function Body(random: seq<u8>, session: seq<u8>, ciphers: seq<u8>, compression: seq<u8>, extensions: seq<u8>): seq<u8> {
    U16(VERSION_LEGACY) + random + [|session| % 256] + session + U16(|ciphers|) + ciphers
    + [|compression| % 256] + compression + U16(|extensions|) + extensions
  }

  /**
   Bytes after an extension cannot change what it adds, exactly unless it is a
   server name that overruns its extension: the parser bounds the name by the end
   of the whole block.
   */
  lemma EffectIsLocal(h: Hello, e: Extension)
    requires h.Hello?
    ensures (forall tail: seq<u8> ::
               Effect(h, e.extType, e.data + tail, |e.data|) == Effect(h, e.extType, e.data, |e.data|))
            <==> !Overruns(e)
  {
    if Overruns(e) {
      var n := U16At(e.data, 3);
      var b: u8 := if |h.sni| == n && h.sni[n - 1] == 0 then 1 else 0;
      var tail: seq<u8> := seq(n, _ => b);
      assert (e.data + tail)[5..5 + n][n - 1] == b;
      assert Effect(h, e.extType, e.data + tail, |e.data|).sni == (e.data + tail)[5..5 + n];
      assert Effect(h, e.extType, e.data + tail, |e.data|) != Effect(h, e.extType, e.data, |e.data|);
    } else {
      forall tail: seq<u8>
        ensures Effect(h, e.extType, e.data + tail, |e.data|) == Effect(h, e.extType, e.data, |e.data|)
      {
        LocalUnlessOverrun(h, e, tail);
      }
    }
  }

  lemma LocalUnlessOverrun(h: Hello, e: Extension, tail: seq<u8>)
    requires h.Hello? && !Overruns(e)
    ensures Effect(h, e.extType, e.data + tail, |e.data|) == Effect(h, e.extType, e.data, |e.data|)
  {
    if |e.data| >= 1 {
      VersionsAreLocal(e.data, tail, e.data[0], 1);
    }
    if |e.data| > 5 {
      assert U16At(e.data + tail, 3) == U16At(e.data, 3);
    }
  }

  /** The name "A" with a claimed length of five, and an empty extension of type 9 behind it. */
  const OVERRUN: seq<u8> := [0, 0, 0, 6, 0, 0, 0, 0, 5, 65, 0, 9, 0, 0]

  lemma OverrunIsTwoExtensions()
    ensures OVERRUN == EncodeExtensions([Extension(EXT_SERVER_NAME, OVERRUN[4..10]), Extension(9, [])])
  {
    var es := [Extension(EXT_SERVER_NAME, OVERRUN[4..10]), Extension(9, [])];
    assert es[1..] == [Extension(9, [])] && es[1..][1..] == [];
    assert EncodeExtension(es[0]) == OVERRUN[..10];
    assert EncodeExtension(es[1]) == OVERRUN[10..];
    assert EncodeExtensions(es) == EncodeExtension(es[0]) + (EncodeExtension(es[1]) + EncodeExtensions([]));
  }

  lemma OverrunWalked()
    ensures Walk(Hello([], false), OVERRUN) == Hello([65, 0, 9, 0, 0], false)
  {
    var h := Hello([65, 0, 9, 0, 0], false);
    assert U16At(OVERRUN, 0) == 0 && U16At(OVERRUN, 2) == 6;
    assert Effect(Hello([], false), 0, OVERRUN[4..], 6) == h by {
      assert OVERRUN[4..][5..10] == [65, 0, 9, 0, 0];
    }
    var rest := OVERRUN[10..];
    assert U16At(rest, 0) == 9 && U16At(rest, 2) == 0;
    assert Walk(h, rest[4..]) == h;
  }

  /** In any ClientHello with this block, the name swallows the header of the next extension. */
  lemma NameSwallowsNextExtension(random: seq<u8>, session: seq<u8>, ciphers: seq<u8>, compression: seq<u8>)
    requires |random| == 32 && |session| < 256 && 0 < |ciphers| < 0x1_0000 && 0 < |compression| < 256
    ensures OVERRUN == EncodeExtensions([Extension(EXT_SERVER_NAME, OVERRUN[4..10]), Extension(9, [])])
    ensures Validate(Record(random, session, ciphers, compression, OVERRUN)) == Hello([65, 0, 9, 0, 0], false)
  {
    hide Validate, Record, EncodeExtensions, Walk;
    HeaderIsSkipped(random, session, ciphers, compression, OVERRUN);
    assert OVERRUN[..14] == OVERRUN;
    OverrunIsTwoExtensions();
    OverrunWalked();
  }

  lemma {:induction false} VersionsAreLocal(data: seq<u8>, tail: seq<u8>, listLen: nat, i: nat)
    ensures ListsVersion13(data + tail, |data|, listLen, i) == ListsVersion13(data, |data|, listLen, i)
    decreases |data| - i
  {
    if |data| < i + 2 || 1 + listLen <= i {
    } else {
      assert U16At(data + tail, i) == U16At(data, i);
      VersionsAreLocal(data, tail, listLen, i + 2);
    }
  }

  lemma EncodedHead(e: Extension, tail: seq<u8>)
    requires WellFormed(e)
    ensures var rest := EncodeExtension(e) + tail;
            && |rest| == 4 + |e.data| + |tail|
            && U16At(rest, 0) == e.extType && U16At(rest, 2) == |e.data|
            && rest[4..] == e.data + tail && rest[4 + |e.data|..] == tail
  {
  }

  /** Walking an encoded list of extensions applies each of them, in order and alone. */
  lemma {:induction false} WalkReadsEncoded(h: Hello, es: seq<Extension>)
    requires h.Hello? && forall i | 0 <= i < |es| :: WellFormed(es[i])
    ensures Walk(h, EncodeExtensions(es)) == Fold(h, es)
    decreases |es|
  {
    hide Effect, EncodeExtension, Overruns, U16At;
    if es == [] {
    } else {
      var e, tail := es[0], EncodeExtensions(es[1..]);
      var rest := EncodeExtensions(es);
      EncodedHead(e, tail);
      LocalUnlessOverrun(h, e, tail);
      WalkReadsEncoded(Effect(h, e.extType, e.data, |e.data|), es[1..]);
    }
  }

  /** A server name cannot be longer than the bytes it is read from. */
  lemma {:induction false} SniFitsBlock(h: Hello, rest: seq<u8>)
    requires h.Hello?
    ensures |Walk(h, rest).sni| <= |h.sni| || |Walk(h, rest).sni| < |rest|
    decreases |rest|
  {
    if |rest| < 4 {
    } else {
      var extLen := U16At(rest, 2);
      if 4 + extLen <= |rest| {
        SniFitsBlock(Effect(h, U16At(rest, 0), rest[4..], extLen), rest[4 + extLen..]);
      }
    }
  }

  // ---------------------------------------------------------------------
  // The builder
  // ---------------------------------------------------------------------

  const CIPHERS: seq<u8> := [0x13, 0x01, 0x13, 0x03]
  const NULL_COMPRESSION: seq<u8> := [0x00]

  function SniData(name: seq<u8>): seq<u8> {
    U16(|name| + 3) + [0x00] + U16(|name|) + name
  }

  function SniExtension(name: seq<u8>): Extension {
    Extension(EXT_SERVER_NAME, SniData(name))
  }

  function VersionsExtension(): Extension {
    Extension(EXT_SUPPORTED_VERSIONS, [0x02] + U16(VERSION_13))
  }

  function GroupsExtension(): Extension {
    Extension(EXT_SUPPORTED_GROUPS, U16(0x0002) + U16(GROUP_X25519))
  }

  function KeyShareExtension(pub: seq<u8>): Extension {
    Extension(EXT_KEY_SHARE, U16(2 + 2 + 32) + U16(GROUP_X25519) + U16(32) + pub)
  }

  function StockExtensions(name: seq<u8>, pub: seq<u8>): seq<Extension> {
    [SniExtension(name), VersionsExtension(), GroupsExtension(), KeyShareExtension(pub)]
  }

  /** The record the builder makes for a server name and its random fields. */
  function StockRecord(name: seq<u8>, random: seq<u8>, session: seq<u8>, pub: seq<u8>): seq<u8> {
    Record(random, session, CIPHERS, NULL_COMPRESSION, EncodeExtensions(StockExtensions(name, pub)))
  }

  /** `appendExtension`: type, length and data at the end of the block. */
  method AppendExtension(block: seq<u8>, extType: nat, data: seq<u8>) returns (r: seq<u8>)
    ensures r == block + EncodeExtension(Extension(extType, data))
  {
    hide U16;
    r := block + U16(extType);
    r := r + U16(|data|);
    r := r + data;
  }

  method BuildClientHello(name: seq<u8>, random: seq<u8>, session: seq<u8>, pub: seq<u8>) returns (record: seq<u8>)
    requires |random| == 32 && |session| == 32 && |pub| == 32
    ensures record == StockRecord(name, random, session, pub)
  {
    hide U16, EncodeExtension;
    var chBody := U16(VERSION_LEGACY);
    chBody := chBody + random;
    chBody := chBody + [|session| % 256];
    chBody := chBody + session;
    chBody := chBody + U16(|CIPHERS|);
    chBody := chBody + CIPHERS;
    chBody := chBody + [0x01, 0x00];

    var sniExtData := U16(|name| + 3);
    sniExtData := sniExtData + [0x00];
    sniExtData := sniExtData + U16(|name|);
    sniExtData := sniExtData + name;
    var extensions := AppendExtension([], EXT_SERVER_NAME, sniExtData);
    extensions := AppendExtension(extensions, EXT_SUPPORTED_VERSIONS, [0x02] + U16(VERSION_13));
    extensions := AppendExtension(extensions, EXT_SUPPORTED_GROUPS, U16(0x0002) + U16(GROUP_X25519));
    extensions := AppendExtension(extensions, EXT_KEY_SHARE, U16(2 + 2 + 32) + U16(GROUP_X25519) + U16(32) + pub);
    FourExtensions(StockExtensions(name, pub));
    assert extensions == EncodeExtensions(StockExtensions(name, pub));

    chBody := chBody + U16(|extensions|);
    chBody := chBody + extensions;
    assert chBody == Body(random, session, CIPHERS, NULL_COMPRESSION, extensions);

    var handshakeLen := |chBody|;
    var handshakeMsg := [CLIENT_HELLO, (handshakeLen / 0x1_0000) % 256, (handshakeLen / 256) % 256, handshakeLen % 256] + chBody;
    record := [RECORD_HANDSHAKE] + U16(VERSION_RECORD) + U16(|handshakeMsg|) + handshakeMsg;
  }

  lemma FourExtensions(es: seq<Extension>)
    requires |es| == 4
    ensures EncodeExtensions(es) ==
            EncodeExtension(es[0]) + EncodeExtension(es[1]) + EncodeExtension(es[2]) + EncodeExtension(es[3])
  {
    hide EncodeExtension;
    assert EncodeExtensions(es[4..]) == [];
    assert EncodeExtensions(es[3..]) == EncodeExtension(es[3]) + EncodeExtensions(es[3..][1..]);
    assert EncodeExtensions(es[2..]) == EncodeExtension(es[2]) + EncodeExtensions(es[2..][1..]);
    assert EncodeExtensions(es[1..]) == EncodeExtension(es[1]) + EncodeExtensions(es[1..][1..]);
    assert es[1..][1..] == es[2..] && es[2..][1..] == es[3..] && es[3..][1..] == es[4..];
  }

  // ---------------------------------------------------------------------
  // Round trips
  // ---------------------------------------------------------------------

  /** Skipping the header and the three prefixed fields of a record arrives at its extension block. */
  /** What the two-byte length field says of a block: its length, cut. */
  function FieldOf(extensions: seq<u8>): (n: nat)
    ensures n <= |extensions| && n == |extensions| % 0x1_0000
  {
    |extensions| % 0x1_0000
  }

  lemma HeaderIsSkipped(random: seq<u8>, session: seq<u8>, ciphers: seq<u8>, compression: seq<u8>, extensions: seq<u8>)
    requires |random| == 32 && |session| < 256 && 0 < |ciphers| < 0x1_0000 && 0 < |compression| < 256
    ensures var data := Record(random, session, ciphers, compression, extensions);
            Validate(data) == Walk(Hello([], false), extensions[..FieldOf(extensions)])
  {
    hide Walk, Body, U16, U16At, Record;
    var data := Record(random, session, ciphers, compression, extensions);
    var body := Body(random, session, ciphers, compression, extensions);
    BodyLayout(random, session, ciphers, compression, extensions);
    RecordLayout(random, session, ciphers, compression, extensions);
    var x := 34 + 1 + |session| + 2 + |ciphers| + 1 + |compression|;
    assert data[9 + x + 2..] == body[x + 2..];
    var field := FieldOf(extensions);
    assert data[9 + x + 2..9 + x + 2 + field] == extensions[..field];
  }

  lemma RecordLayout(random: seq<u8>, session: seq<u8>, ciphers: seq<u8>, compression: seq<u8>, extensions: seq<u8>)
    ensures var data := Record(random, session, ciphers, compression, extensions);
            var body := Body(random, session, ciphers, compression, extensions);
            && |data| == 9 + |body| && data[0] == RECORD_HANDSHAKE && data[5] == CLIENT_HELLO
            && (forall i | 0 <= i < |body| :: data[9 + i] == body[i])
            && (forall i | 0 <= i && i + 2 <= |body| :: U16At(data, 9 + i) == U16At(body, i))
  {
    hide Body;
  }

  lemma RecordLengthField(random: seq<u8>, session: seq<u8>, ciphers: seq<u8>, compression: seq<u8>, extensions: seq<u8>)
    ensures var data := Record(random, session, ciphers, compression, extensions);
            var body := Body(random, session, ciphers, compression, extensions);
            |data| == 9 + |body| && U16At(data, 3) == (4 + |body|) % 0x1_0000
  {
    hide Body, U16At;
    var body := Body(random, session, ciphers, compression, extensions);
    var handshake := [CLIENT_HELLO, (|body| / 0x1_0000) % 256, (|body| / 256) % 256, |body| % 256] + body;
    FieldAt([RECORD_HANDSHAKE] + U16(VERSION_RECORD), |handshake|, handshake);
  }

  /** Where each field of the body begins. */
  lemma BodyLayout(random: seq<u8>, session: seq<u8>, ciphers: seq<u8>, compression: seq<u8>, extensions: seq<u8>)
    requires |random| == 32 && |session| < 256 && |ciphers| < 0x1_0000 && |compression| < 256
    ensures var body := Body(random, session, ciphers, compression, extensions);
            var s := 35 + |session|;
            var c := s + 2 + |ciphers|;
            var x := c + 1 + |compression|;
            && |body| == x + 2 + |extensions|
            && body[34] == |session|
            && U16At(body, s) == |ciphers|
            && body[c] == |compression|
            && U16At(body, x) == |extensions| % 0x1_0000
            && body[x + 2..] == extensions
  {
    hide U16, U16At;
    U16RoundTrip(VERSION_LEGACY);
    U16RoundTrip(|ciphers|);
    U16RoundTrip(|extensions|);
    var p1 := U16(VERSION_LEGACY) + random;
    var p2 := p1 + [|session| % 256] + session;
    var p3 := p2 + U16(|ciphers|) + ciphers;
    var p4 := p3 + [|compression| % 256] + compression;
    var body := p4 + U16(|extensions|) + extensions;
    assert body == Body(random, session, ciphers, compression, extensions);
    assert p2[34] == |session|;
    FieldAt(p2, |ciphers|, ciphers);
    assert p4[|p3|] == |compression|;
    FieldAt(p4, |extensions|, extensions);
    PrefixField(p3, p2, [|compression| % 256] + compression + U16(|extensions|) + extensions, body);
  }

  lemma PrefixField(p: seq<u8>, start: seq<u8>, tail: seq<u8>, whole: seq<u8>)
    requires |start| + 2 <= |p| && whole == p + tail
    ensures U16At(whole, |start|) == U16At(p, |start|)
  {
  }

  /**
   Any well-formed ClientHello, whatever its extensions and their order, is read
   as the fold of its extensions.
   */
  lemma ValidatesEveryWellFormedHello(random: seq<u8>, session: seq<u8>, ciphers: seq<u8>, compression: seq<u8>,
                                      es: seq<Extension>)
    requires |random| == 32 && |session| < 256 && 0 < |ciphers| < 0x1_0000 && 0 < |compression| < 256
    requires forall i | 0 <= i < |es| :: WellFormed(es[i])
    requires |EncodeExtensions(es)| < 0x1_0000
    ensures Validate(Record(random, session, ciphers, compression, EncodeExtensions(es))) == Fold(Hello([], false), es)
  {
    hide Validate, Walk, Record, WellFormed;
    HeaderIsSkipped(random, session, ciphers, compression, EncodeExtensions(es));
    assert EncodeExtensions(es)[..|EncodeExtensions(es)|] == EncodeExtensions(es);
    WalkReadsEncoded(Hello([], false), es);
  }

  const LONGEST_NAME := 65469

  lemma StockLength(name: seq<u8>, pub: seq<u8>)
    requires |pub| == 32
    ensures |EncodeExtensions(StockExtensions(name, pub))| == |name| + 66
  {
    FourExtensions(StockExtensions(name, pub));
  }

  lemma StockFold(name: seq<u8>, pub: seq<u8>)
    requires |name| <= LONGEST_NAME && |pub| == 32
    ensures forall e | e in StockExtensions(name, pub) :: WellFormed(e)
    ensures Fold(Hello([], false), StockExtensions(name, pub)) == Hello(name, true)
  {
    var es := StockExtensions(name, pub);
    SniEffect(Hello([], false), name);
    VersionsEffect(Hello(name, false));
    var h := Hello(name, true);
    assert Fold(h, es[4..]) == h;
    assert Fold(h, es[3..]) == Fold(h, es[3..][1..]);
    assert Fold(h, es[2..]) == Fold(h, es[2..][1..]);
    assert Fold(Hello(name, false), es[1..]) == Fold(h, es[1..][1..]);
    assert es[1..][1..] == es[2..] && es[2..][1..] == es[3..] && es[3..][1..] == es[4..];
  }

  lemma SniEffect(h: Hello, name: seq<u8>)
    requires h.Hello? && |name| <= LONGEST_NAME && h.sni == []
    ensures WellFormed(SniExtension(name))
    ensures var e := SniExtension(name); Effect(h, e.extType, e.data, |e.data|) == h.(sni := name)
  {
    var d := SniData(name);
    assert U16At(d, 3) == |name|;
    assert d[5..5 + |name|] == name;
  }

  lemma VersionsEffect(h: Hello)
    requires h.Hello?
    ensures WellFormed(VersionsExtension())
    ensures var e := VersionsExtension(); Effect(h, e.extType, e.data, |e.data|) == h.(hasTLS13 := true)
  {
    var d := VersionsExtension().data;
    assert d == [0x02, 0x03, 0x04];
    assert U16At(d, 1) == VERSION_13;
  }

  /**
   The parser reads back the server name and TLS 1.3 exactly for names of up to
   65469 bytes; beyond that the cut length field hides the name.
   */
  lemma RoundTripExactlyUpToLongestName(name: seq<u8>, random: seq<u8>, session: seq<u8>, pub: seq<u8>)
    requires |random| == 32 && |session| == 32 && |pub| == 32
    ensures Validate(StockRecord(name, random, session, pub)) == Hello(name, true) <==> |name| <= LONGEST_NAME
    ensures Validate(StockRecord(name, random, session, pub)).Hello?
  {
    hide Validate, Walk, Fold, Record, Effect, StockExtensions, EncodeExtensions, WellFormed;
    var es := StockExtensions(name, pub);
    var block := EncodeExtensions(es);
    var field := |block| % 0x1_0000;
    StockLength(name, pub);
    HeaderIsSkipped(random, session, CIPHERS, NULL_COMPRESSION, block);
    if |name| <= LONGEST_NAME {
      StockFold(name, pub);
      WalkReadsEncoded(Hello([], false), es);
      assert block[..field] == block;
    } else {
      SniFitsBlock(Hello([], false), block[..field]);
    }
  }

  /** The record header tells the true length for names of up to 65388 bytes only. */
  lemma RecordLengthHonest(name: seq<u8>, random: seq<u8>, session: seq<u8>, pub: seq<u8>)
    requires |random| == 32 && |session| == 32 && |pub| == 32
    ensures var r := StockRecord(name, random, session, pub);
            && |r| == |name| + 152
            && (U16At(r, 3) == |r| - RECORD_HEADER <==> |name| <= 65388)
  {
    hide U16At, Record, Body, EncodeExtensions, StockExtensions;
    var block := EncodeExtensions(StockExtensions(name, pub));
    StockLength(name, pub);
    RecordLengthField(random, session, CIPHERS, NULL_COMPRESSION, block);
    BodyLayout(random, session, CIPHERS, NULL_COMPRESSION, block);
  }

  // ---------------------------------------------------------------------
  // Every record, well formed or not
  // ---------------------------------------------------------------------

  /** The bytes behind a header of 43 are a session ID, a cipher list, each behind its length, and at least two more. */
  ghost predicate SplitsAs(d: seq<u8>, session: seq<u8>, ciphers: seq<u8>, rest: seq<u8>) {
    && 43 <= |d| && |session| < 256 && |ciphers| < 0x1_0000 && 2 <= |rest|
    && d == d[..43] + ([|session|] + session) + (U16(|ciphers|) + ciphers) + rest
  }

  /** What is read of the compression list and the extensions: nothing if the list and a length do not fit. */
  function RestRead(rest: seq<u8>): Hello
    requires 2 <= |rest|
  {
    var listEnd := 1 + rest[0] as int;
    if |rest| < listEnd + 2 then Hello([], false)
    else
      var block, claimed := rest[listEnd + 2..], U16At(rest, listEnd);
      Walk(Hello([], false), if claimed < |block| then block[..claimed] else block)
  }

  lemma SplitRead(d: seq<u8>, session: seq<u8>, ciphers: seq<u8>, rest: seq<u8>)
    requires SplitsAs(d, session, ciphers, rest)
    ensures Validate(d) == if d[0] == 0x16 && d[5] == 0x01 then RestRead(rest) else Malformed
  {
    SplitPlaces(d, session, ciphers, rest);
    var c := 46 + |session| + |ciphers|;
    RestReadAt(d, c, rest);
    hide ReadRest, RestRead, U16, U16At, SplitsAs;
  }

  lemma RestReadAt(d: seq<u8>, c: nat, rest: seq<u8>)
    requires c <= |d| && d[c..] == rest && 2 <= |rest|
    ensures ReadRest(d, c) == RestRead(rest)
  {
    SplitBlock(d, c, rest);
    hide Walk, U16At;
  }

  lemma SplitPlaces(d: seq<u8>, session: seq<u8>, ciphers: seq<u8>, rest: seq<u8>)
    requires SplitsAs(d, session, ciphers, rest)
    ensures var a, c := 44 + |session|, 46 + |session| + |ciphers|;
            && |d| == c + |rest| && d[43] == |session| && U16At(d, a) == |ciphers| && d[c..] == rest
  {
    var a, c := 44 + |session|, 46 + |session| + |ciphers|;
    var head, list := d[..43] + ([|session|] + session), U16(|ciphers|) + ciphers;
    assert |U16(|ciphers|)| == 2;
    hide U16;
    assert d == head + list + rest && |head| == a;
    assert d[43] == head[43] == |session|;
    assert d[a..c] == list && list[..2] == U16(|ciphers|);
    assert d[a..a + 2] == d[a..c][..2];
    SplitLength(d, a, |ciphers|);
  }

  lemma SplitLength(d: seq<u8>, a: nat, n: nat)
    requires a + 2 <= |d| && d[a..a + 2] == U16(n) && n < 0x1_0000
    ensures U16At(d, a) == n
  {
    assert d[a] == d[a..a + 2][0] && d[a + 1] == d[a..a + 2][1];
    U16Digits(n);
  }

  lemma SplitBlock(d: seq<u8>, c: nat, rest: seq<u8>)
    requires c <= |d| && d[c..] == rest && 2 <= |rest|
    ensures |d| == c + |rest| && d[c] == rest[0]
    ensures var listEnd := 1 + rest[0] as int;
            listEnd + 2 <= |rest| ==>
              var claimed, start, block := U16At(rest, listEnd), c + listEnd + 2, rest[listEnd + 2..];
              && U16At(d, c + listEnd) == claimed
              && d[start..if start + claimed > |d| then |d| else start + claimed]
                 == if claimed < |block| then block[..claimed] else block
  {
    var listEnd := 1 + rest[0] as int;
    if listEnd + 2 <= |rest| {
      assert d[c + listEnd + 2..] == rest[listEnd + 2..];
    }
  }

  /** A record is taken for a hello exactly if it says so twice and splits up like one; else it is malformed. */
  lemma HelloExactly(d: seq<u8>)
    ensures Validate(d).Hello? <==>
            && 43 <= |d| && d[0] == 0x16 && d[5] == 0x01
            && exists session, ciphers, rest :: SplitsAs(d, session, ciphers, rest)
  {
    if 43 <= |d| && exists session, ciphers, rest :: SplitsAs(d, session, ciphers, rest) {
      var session, ciphers, rest :| SplitsAs(d, session, ciphers, rest);
      SplitRead(d, session, ciphers, rest);
    }
    if Validate(d).Hello? {
      HelloSplits(d);
    }
  }

  lemma HelloSplits(d: seq<u8>)
    requires Validate(d).Hello?
    ensures 43 < |d| && d[0] == 0x16 && d[5] == 0x01
    ensures exists session, ciphers, rest :: SplitsAs(d, session, ciphers, rest)
  {
    hide Walk;
    var a := 44 + d[43] as int;
    var n := U16At(d, a);
    var session, ciphers, rest := d[44..a], d[a + 2..a + 2 + n], d[a + 2 + n..];
    hide Validate;
    assert U16(n) == d[a..a + 2];
    assert SplitsAs(d, session, ciphers, rest);
  }

  /** The walk ends without harm at an extension that is cut off: it reads what stands whole before it. */
  lemma {:induction false} WalkEndsAtCut(h: Hello, es: seq<Extension>, tail: seq<u8>)
    requires h.Hello? && forall i | 0 <= i < |es| :: WellFormed(es[i])
    requires |tail| < 4 || 4 + U16At(tail, 2) > |tail|
    ensures Walk(h, EncodeExtensions(es) + tail) == Fold(h, es)
    decreases |es|
  {
    hide Effect, EncodeExtension, Overruns, U16At;
    if es == [] {
      assert EncodeExtensions(es) + tail == tail;
    } else {
      var e, more := es[0], EncodeExtensions(es[1..]) + tail;
      assert EncodeExtensions(es) + tail == EncodeExtension(e) + more;
      EncodedHead(e, more);
      LocalUnlessOverrun(h, e, more);
      WalkEndsAtCut(Effect(h, e.extType, e.data, |e.data|), es[1..], tail);
    }
  }

  // ---------------------------------------------------------------------
  // The builder's record, byte by byte
  // ---------------------------------------------------------------------

  function U24(v: nat): seq<u8> {
    [(v / 0x1_0000) % 256, (v / 256) % 256, v % 256]
  }

  /** Server name, TLS 1.3, group x25519 and one x25519 key share. */
  function StockBlock(name: seq<u8>, pub: seq<u8>): seq<u8> {
    [0x00, 0x00] + U16(|name| + 5) + (U16(|name| + 3) + [0x00] + U16(|name|) + name)
    + [0x00, 0x2b, 0x00, 0x03, 0x02, 0x03, 0x04]
    + [0x00, 0x0a, 0x00, 0x04, 0x00, 0x02, 0x00, 0x1d]
    + ([0x00, 0x33, 0x00, 0x26, 0x00, 0x24, 0x00, 0x1d, 0x00, 0x20] + pub)
  }

  lemma StockBlockBytes(name: seq<u8>, pub: seq<u8>)
    requires |pub| == 32
    ensures EncodeExtensions(StockExtensions(name, pub)) == StockBlock(name, pub)
  {
    FourExtensions(StockExtensions(name, pub));
    assert EncodeExtension(VersionsExtension()) == [0x00, 0x2b, 0x00, 0x03, 0x02, 0x03, 0x04];
    assert EncodeExtension(GroupsExtension()) == [0x00, 0x0a, 0x00, 0x04, 0x00, 0x02, 0x00, 0x1d];
    KeyShareBytes(pub);
    SniBytes(name);
  }

  lemma KeyShareBytes(pub: seq<u8>)
    requires |pub| == 32
    ensures EncodeExtension(KeyShareExtension(pub)) == [0x00, 0x33, 0x00, 0x26, 0x00, 0x24, 0x00, 0x1d, 0x00, 0x20] + pub
  {
  }

  lemma SniBytes(name: seq<u8>)
    ensures EncodeExtension(SniExtension(name)) == [0x00, 0x00] + U16(|name| + 5) + (U16(|name| + 3) + [0x00] + U16(|name|) + name)
  {
    assert U16(0) == [0x00, 0x00];
    hide U16;
    assert |SniData(name)| == |name| + 5 by { U16RoundTrip(|name| + 3); U16RoundTrip(|name|); }
  }

  /** Every byte of the record: the ciphers 1301 and 1303, no compression, and the four extensions. */
  lemma StockBytes(name: seq<u8>, random: seq<u8>, session: seq<u8>, pub: seq<u8>)
    requires |random| == 32 && |session| == 32 && |pub| == 32
    ensures StockRecord(name, random, session, pub) ==
            ([0x16, 0x03, 0x01] + U16(|name| + 147) + [0x01] + U24(|name| + 143) + [0x03, 0x03])
            + random + [0x20] + session
            + [0x00, 0x04, 0x13, 0x01, 0x13, 0x03, 0x01, 0x00]
            + U16(|name| + 66) + StockBlock(name, pub)
  {
    hide StockBlock, EncodeExtensions, StockExtensions;
    StockBlockBytes(name, pub);
    StockLength(name, pub);
    StockBodyBytes(random, session, EncodeExtensions(StockExtensions(name, pub)));
    assert U16(VERSION_RECORD) == [0x03, 0x01];
    hide U16, Body;
  }

  lemma StockBodyBytes(random: seq<u8>, session: seq<u8>, block: seq<u8>)
    requires |random| == 32 && |session| == 32
    ensures Body(random, session, CIPHERS, NULL_COMPRESSION, block) ==
            [0x03, 0x03] + random + [0x20] + session
            + [0x00, 0x04, 0x13, 0x01, 0x13, 0x03, 0x01, 0x00] + U16(|block|) + block
    ensures |Body(random, session, CIPHERS, NULL_COMPRESSION, block)| == |block| + 77
  {
    assert U16(VERSION_LEGACY) == [0x03, 0x03] && U16(|CIPHERS|) == [0x00, 0x04];
    assert |U16(|block|)| == 2;
    hide U16;
  }
}
