/**
 The session manager at one node: pending handshakes it started, sessions it
 agreed on, and the packets that carry both. Every call takes one clock reading
 in nanoseconds; decoding of key texts is a parameter, and a signature is the
 name of the key that made it.
 */
module SessionManager {
  import opened Wrappers
  import opened Handshake
  import FW = ZtnaFirewall

  const DID_PREFIX := "did:ipvn7:"
  const PENDING_TIMEOUT := 60 * SECOND
  const SECONDS_LIMIT := 100_000_000_000_000

  /** How key texts are read: a compact key as hexadecimal, and any DID as a public key. */
  datatype Names = Names(decodeCompact: string -> Option<string>, publicKeyOf: string -> Option<string>)

  function CanonicalDID(names: Names, s: string): string {
    if DID_PREFIX <= s then s
    else
      match names.decodeCompact(s)
      case Some(hex) => DID_PREFIX + hex
      case None => DID_PREFIX + s
  }

  datatype LocalKeys = LocalKeys(did: string, pub: KemPub)

  datatype Payload = KemPayload(cipher: Cipher) | RespPayload(resp: Response) | DataPayload(data: Sealed) | OtherPayload

  datatype Packet = Packet(source: string, dest: string, timestamp: int, sequence: nat, nonce: nat,
                           payload: Payload, signer: Option<string>)

  /** `VerifyPacketSignature`: signed by the key the source DID names. */
  predicate SignatureValid(names: Names, p: Packet) {
    p.signer.Some? && names.publicKeyOf(p.source) == p.signer
  }

  datatype Pending = Pending(targetDID: string, keys: SessionKeys, createdAt: int)

  /** The whole-second freshness check of an incoming initiation. */
  predicate FreshSeconds(timestamp: int, now: int) {
    var ts := if timestamp > SECONDS_LIMIT then timestamp / SECOND else timestamp;
    var diff := now / SECOND - ts;
    !(diff > 60 || diff < -10)
  }

  /** A stamp in seconds passes from ten whole seconds ahead to sixty behind. */
  lemma WholeSecondsFreshExactly(t: int, now: int)
    requires t <= 100_000_000_000_000
    ensures FreshSeconds(t, now) <==> -10 <= now / 1_000_000_000 - t <= 60
  {
  }

  /** So does one in nanoseconds, cut to its second. */
  lemma CutNanosecondsFreshExactly(t: int, now: int)
    requires 100_000_000_000_000 < t
    ensures FreshSeconds(t, now) <==> -10 <= now / 1_000_000_000 - t / 1_000_000_000 <= 60
  {
  }

  /** The second in which a message stamped at `start` was sent. */
  function SentAt(start: int): int {
    start / 1_000_000_000 * 1_000_000_000
  }

  /**
   An initiation sent at `start`, stamped in whole seconds, passes both checks exactly
   if it is heard from ten seconds before to sixty after the second it was sent in.
   */
  lemma InitiationFreshExactly(start: int, heard: int)
    requires 0 <= start < 100_000_000_000_000 * 1_000_000_000
    ensures FreshSeconds(start / SECOND, heard) && FreshNano(start / SECOND, heard)
            <==> -10_000_000_000 <= heard - SentAt(start) <= 60_000_000_000
    ensures 0 <= heard - start <= 59_000_000_000 ==> FreshSeconds(start / SECOND, heard) && FreshNano(start / SECOND, heard)
  {
    SecondsFreshExactly(start / SECOND, heard);
    WholeSecondsFreshExactly(start / SECOND, heard);
    WholeSecondsApart(start / SECOND, heard);
  }

  lemma WholeSecondsApart(t: int, heard: int)
    ensures -10_000_000_000 <= heard - t * 1_000_000_000 ==> -10 <= heard / 1_000_000_000 - t
    ensures heard - t * 1_000_000_000 <= 60_000_000_000 ==> heard / 1_000_000_000 - t <= 60
  {
  }

  class PQCSessionManager {
    const names: Names
    const did: string
    const hex: string
    const compact: string
    const localKeys: Option<LocalKeys>
    const firewall: FW.ZTNAFirewall?
    var sessions: map<string, SessionKeys>
    var pendingSessions: map<string, Pending>
    var seqCounter: nat

    /** Handshakes started here, and sessions installed here by a response. */
    ghost var started: nat
    ghost var installed: nat

    /** The node's own names decode to its own key. */
    ghost predicate WellNamed() {
      && did == DID_PREFIX + hex
      && !(DID_PREFIX <= compact)
      && names.decodeCompact(compact) == Some(hex)
      && names.publicKeyOf(did) == Some(hex) && names.publicKeyOf(compact) == Some(hex)
    }

    /** Keys this node derived as an initiator towards somebody. */
    ghost predicate InitiatedHere(keys: SessionKeys) {
      localKeys.Some? && exists target, targetDID, coins, now ::
        keys == Initiate1RTT(localKeys.value.did, target, targetDID, coins, now).1
    }

    ghost predicate Valid()
      reads this
    {
      && WellNamed()
      && installed + |pendingSessions| <= started
      && (forall d | d in pendingSessions :: InitiatedHere(pendingSessions[d].keys))
    }

    constructor (names: Names, hex: string, compact: string, localKeys: Option<LocalKeys>, firewall: FW.ZTNAFirewall?)
      requires !(DID_PREFIX <= compact) && names.decodeCompact(compact) == Some(hex)
      requires names.publicKeyOf(DID_PREFIX + hex) == Some(hex) && names.publicKeyOf(compact) == Some(hex)
      ensures Valid() && sessions == map[] && pendingSessions == map[]
      ensures this.names == names && did == DID_PREFIX + hex && this.localKeys == localKeys && this.firewall == firewall
    {
      this.names, this.hex, this.compact, this.localKeys, this.firewall := names, hex, compact, localKeys, firewall;
      did := DID_PREFIX + hex;
      sessions, pendingSessions, seqCounter := map[], map[], 0;
      started, installed := 0, 0;
    }

    /** `targetPub` is `None` for key texts that are no keys. Starts a handshake: one pending entry under the canonical target, replacing an older one. */
    method CreateHandshakeInitPacket(targetDID: string, targetPub: Option<KemPub>, coins: nat, now: int) returns (pkt: Option<Packet>)
      requires Valid()
      modifies `pendingSessions, `seqCounter, `started
      ensures Valid()
      ensures pkt.Some? <==> localKeys.Some? && targetPub.Some?
      ensures seqCounter == old(seqCounter) + (if pkt.Some? then 1 else 0)
      ensures pkt.None? ==> pendingSessions == old(pendingSessions)
      ensures pkt.Some? ==>
                var (msg, keys) := Initiate1RTT(localKeys.value.did, targetPub.value, targetDID, coins, now);
                && pendingSessions == old(pendingSessions)[CanonicalDID(names, targetDID) :=
                     Pending(CanonicalDID(names, targetDID), keys, now / SECOND)]
                && pkt.value == Packet(compact, "", now / SECOND, seqCounter, 0, KemPayload(msg.cipher), Some(hex))
                && started == old(started) + 1
    {
      hide CanonicalDID;
      if localKeys.None? {
        return None;
      }
      if targetPub.None? {
        return None;
      }
      var (initMsg, provisionalKeys) := Initiate1RTT(localKeys.value.did, targetPub.value, targetDID, coins, now);
      var canonicalTarget := CanonicalDID(names, targetDID);
      assert InitiatedHere(provisionalKeys);
      pendingSessions := pendingSessions[canonicalTarget := Pending(canonicalTarget, provisionalKeys, now / SECOND)];
      started := started + 1;
      seqCounter := seqCounter + 1;
      return Some(Packet(compact, "", now / SECOND, seqCounter, 0, KemPayload(initMsg.cipher), Some(hex)));
    }

    /** Everything an initiation must pass before its session is stored. */
    ghost predicate InitAcceptable(pkt: Packet, now: int)
      reads if firewall != null then {firewall} else {}
    {
      && pkt.payload.KemPayload?
      && (pkt.dest == "" || pkt.dest == did)
      && SignatureValid(names, pkt)
      && FreshSeconds(pkt.timestamp, now) && FreshNano(pkt.timestamp, now)
      && (firewall != null ==>
            FW.Admitted(firewall.policies, firewall.defaultDeny, CanonicalDID(names, pkt.source), now))
      && localKeys.Some? && Decapsulate(localKeys.value.pub, pkt.payload.cipher).Some?
    }

    /**
     Answers an initiation, and stores a session, exactly when it is well formed,
     for this node, signed by its source, fresh, and admitted by the firewall.
     */
    method HandleHandshakeInitPacket(pkt: Packet, now: int) returns (resp: Option<Packet>)
      requires Valid()
      modifies `sessions, `seqCounter
      ensures Valid()
      ensures resp.Some? <==> InitAcceptable(pkt, now)
      ensures seqCounter == old(seqCounter) + (if resp.Some? then 1 else 0)
      ensures resp.None? ==> sessions == old(sessions)
      ensures resp.Some? ==>
                var source := CanonicalDID(names, pkt.source);
                var answer := Respond1RTT(localKeys.value.did, localKeys.value.pub,
                                          Initiation(source, did, pkt.payload.cipher, pkt.timestamp), now);
                && answer.Some?
                && sessions == old(sessions)[source := answer.value.1]
                && resp.value == Packet(did, source, now, seqCounter, 0, RespPayload(answer.value.0), Some(hex))
    {
      hide CanonicalDID, FreshSeconds, FreshNano;
      if !pkt.payload.KemPayload? {
        return None;
      }
      if pkt.dest != "" && pkt.dest != did {
        return None;
      }
      if names.publicKeyOf(pkt.source).None? {
        return None;
      }
      if !SignatureValid(names, pkt) {
        return None;
      }
      if !FreshSeconds(pkt.timestamp, now) {
        return None;
      }
      var canonicalSourceDID := CanonicalDID(names, pkt.source);
      if firewall != null {
        var allowed := firewall.IsAllowed(canonicalSourceDID, now);
        if !allowed {
          return None;
        }
      }
      if localKeys.None? {
        return None;
      }
      var initMsg := Initiation(canonicalSourceDID, did, pkt.payload.cipher, pkt.timestamp);
      var answer := Respond1RTT(localKeys.value.did, localKeys.value.pub, initMsg, now);
      if answer.None? {
        return None;
      }
      var (respMsg, sessionKeys) := answer.value;
      sessions := sessions[canonicalSourceDID := sessionKeys];
      seqCounter := seqCounter + 1;
      return Some(Packet(did, canonicalSourceDID, now, seqCounter, 0, RespPayload(respMsg), Some(hex)));
    }

    /** The pending handshake a response refers to. */
    function PendingFor(source: string): Option<Pending>
      reads `pendingSessions
    {
      var canonical := CanonicalDID(names, source);
      if canonical in pendingSessions then Some(pendingSessions[canonical])
      else if source in pendingSessions then Some(pendingSessions[source])
      else None
    }

    /** The response is for this node and signed by its source. */
    predicate RespAddressed(pkt: Packet) {
      pkt.dest == did && SignatureValid(names, pkt)
    }

    /** The response completes the pending handshake it refers to. */
    predicate Completes(pending: Pending, pkt: Packet, now: int) {
      && now - pending.createdAt * SECOND <= PENDING_TIMEOUT
      && pkt.payload.RespPayload?
      && Finalize1RTT(pending.keys, pkt.payload.resp)
    }

    /**
     Installs a session only by using up a pending handshake started here; an
     addressed response uses the pending one up even when it fails to complete it.
     */
    method HandleHandshakeRespPacket(pkt: Packet, now: int) returns (ok: bool)
      requires Valid()
      modifies `sessions, `pendingSessions, `installed
      ensures Valid()
      ensures ok <==> RespAddressed(pkt) && old(PendingFor(pkt.source)).Some?
                      && Completes(old(PendingFor(pkt.source)).value, pkt, now)
      ensures sessions == if ok then old(sessions)[CanonicalDID(names, pkt.source) := old(PendingFor(pkt.source)).value.keys]
                          else old(sessions)
      ensures ok ==> InitiatedHere(sessions[CanonicalDID(names, pkt.source)]) && installed == old(installed) + 1
      ensures pendingSessions == if RespAddressed(pkt) then old(pendingSessions) - {CanonicalDID(names, pkt.source), pkt.source}
                                 else old(pendingSessions)
      ensures ok ==> |pendingSessions| < |old(pendingSessions)|
    {
      hide CanonicalDID, InitiatedHere;
      ok := false;
      if pkt.dest != did {
        return;
      }
      if !SignatureValid(names, pkt) {
        return;
      }
      var canonicalSourceDID := CanonicalDID(names, pkt.source);
      var found := PendingFor(pkt.source);
      TwoKeysLess(pendingSessions, canonicalSourceDID, pkt.source);
      if found.None? {
        return;
      }
      var pending := found.value;
      pendingSessions := pendingSessions - {canonicalSourceDID, pkt.source};
      if now - pending.createdAt * SECOND > PENDING_TIMEOUT {
        return;
      }
      if !pkt.payload.RespPayload? {
        return;
      }
      if !Finalize1RTT(pending.keys, pkt.payload.resp) {
        return;
      }
      sessions := sessions[canonicalSourceDID := pending.keys];
      installed := installed + 1;
      ok := true;
    }

    /** The session kept for a DID, under its text as given or in canonical form. */
    function GetSession(d: string): Option<SessionKeys>
      reads `sessions
    {
      var canonical := CanonicalDID(names, d);
      if d in sessions then Some(sessions[d]) else if canonical in sessions then Some(sessions[canonical]) else None
    }

    method EncryptDataPacket(destDID: string, plaintext: seq<int>, nonce: nat, now: int) returns (pkt: Option<Packet>)
      modifies `seqCounter
      ensures pkt.Some? <==> old(GetSession(destDID)).Some?
      ensures seqCounter == old(seqCounter) + (if pkt.Some? then 1 else 0)
      ensures pkt.Some? ==>
                pkt.value == Packet(did, destDID, now, seqCounter, nonce,
                                    DataPayload(Seal(old(GetSession(destDID)).value.tx, nonce, plaintext, destDID)), None)
    {
      var session := GetSession(destDID);
      if session.None? {
        return None;
      }
      var ciphertext := Seal(session.value.tx, nonce, plaintext, destDID);
      seqCounter := seqCounter + 1;
      return Some(Packet(did, destDID, now, seqCounter, nonce, DataPayload(ciphertext), None));
    }

    /** What a data packet says under the session kept for its source. */
    function PlaintextOf(pkt: Packet): Option<seq<int>>
      reads `sessions
    {
      if GetSession(pkt.source).Some? && pkt.payload.DataPayload?
      then Open(GetSession(pkt.source).value.rx, pkt.nonce, pkt.payload.data, pkt.dest) else None
    }

    /** Sequence number and timestamp are no part of what is opened: a renumbered copy says the same. */
    lemma OpensUnderAnyNumber(pkt: Packet, sequence: nat, timestamp: int)
      ensures PlaintextOf(pkt.(sequence := sequence, timestamp := timestamp)) == PlaintextOf(pkt)
    {
    }

    method DecryptDataPacket(pkt: Packet) returns (plaintext: Option<seq<int>>)
      ensures plaintext == PlaintextOf(pkt)
    {
      var session := GetSession(pkt.source);
      if session.None? {
        return None;
      }
      if !pkt.payload.DataPayload? {
        return None;
      }
      return Open(session.value.rx, pkt.nonce, pkt.payload.data, pkt.dest);
    }
  }

  lemma TwoKeysLess(m: map<string, Pending>, a: string, b: string)
    ensures |m - {a, b}| <= |m|
    ensures a in m || b in m ==> |m - {a, b}| < |m|
  {
    var rest := m - {a, b};
    assert rest.Keys == m.Keys - {a, b};
    assert m.Keys == rest.Keys + (m.Keys * {a, b});
    if a in m {
      assert a in m.Keys * {a, b};
    }
    if b in m {
      assert b in m.Keys * {a, b};
    }
  }

  /** Every text has a canonical form with the prefix; that form is its own, and a hexadecimal key only gets the prefix. */
  lemma CanonicalForms(names: Names, s: string)
    ensures "did:ipvn7:" <= CanonicalDID(names, s)
    ensures CanonicalDID(names, CanonicalDID(names, s)) == CanonicalDID(names, s)
    ensures "did:ipvn7:" <= s ==> CanonicalDID(names, s) == s
    ensures !("did:ipvn7:" <= s) && names.decodeCompact(s) == None ==> CanonicalDID(names, s) == "did:ipvn7:" + s
  {
  }

  lemma CanonicalFixed(names: Names, hex: string, compact: string)
    requires !(DID_PREFIX <= compact) && names.decodeCompact(compact) == Some(hex)
    ensures CanonicalDID(names, DID_PREFIX + hex) == DID_PREFIX + hex
    ensures CanonicalDID(names, compact) == DID_PREFIX + hex
  {
    assert DID_PREFIX <= DID_PREFIX + hex;
  }

  // ---------------------------------------------------------------------
  // One undisturbed handshake
  // ---------------------------------------------------------------------

  /** Keys an initiator and a responder derive from one ciphertext. */
  function InitiatorKeys(did: string, target: KemPub, targetDID: string, coins: nat): SessionKeys {
    DeriveHandshakeKeys(Shared(target, coins), SaltOf(Cipher(target, coins)), did, targetDID, true)
  }

  function ResponderKeys(own: KemPub, source: string, did: string, target: KemPub, coins: nat): SessionKeys {
    DeriveHandshakeKeys(Decapsulate(own, Cipher(target, coins)).value, SaltOf(Cipher(target, coins)), source, did, false)
  }

  function ResponseTo(keys: SessionKeys, now: int): Response {
    Response(keys.sessionID, ComputeAuthTag(keys.tx, keys.sessionID, now), now)
  }

  /** The first message carries a ciphertext for the target key, signed under the compact name. */
  method Start(a: PQCSessionManager, targetDID: string, targetPub: KemPub, coins: nat, start: int) returns (init: Packet)
    requires a.Valid() && a.localKeys.Some?
    modifies a
    ensures a.Valid() && a.sessions == old(a.sessions)
    ensures a.pendingSessions == old(a.pendingSessions)[CanonicalDID(a.names, targetDID) :=
              Pending(CanonicalDID(a.names, targetDID),
                      InitiatorKeys(a.localKeys.value.did, targetPub, targetDID, coins), start / SECOND)]
    ensures init == Packet(a.compact, "", start / SECOND, init.sequence, 0, KemPayload(Cipher(targetPub, coins)), Some(a.hex))
  {
    hide CanonicalDID, DeriveHandshakeKeys, PQCSessionManager.Valid;
    var pkt := a.CreateHandshakeInitPacket(targetDID, Some(targetPub), coins, start);
    init := pkt.value;
  }

  /** A signed initiation is answered exactly if it is fresh and admitted, and then the responder holds a session for its source. */
  method Answer(b: PQCSessionManager, init: Packet, source: string, target: KemPub, coins: nat, heard: int)
    returns (resp: Option<Packet>)
    requires b.Valid() && b.localKeys.Some?
    requires init.payload == KemPayload(Cipher(target, coins)) && init.dest == ""
    requires SignatureValid(b.names, init) && CanonicalDID(b.names, init.source) == source
    modifies b
    ensures b.Valid()
    ensures resp.Some? <==>
              && FreshSeconds(init.timestamp, heard) && FreshNano(init.timestamp, heard)
              && (b.firewall != null ==> FW.Admitted(b.firewall.policies, b.firewall.defaultDeny, source, heard))
    ensures resp.None? ==> b.sessions == old(b.sessions)
    ensures resp.Some? ==>
              var keys := ResponderKeys(b.localKeys.value.pub, source, b.localKeys.value.did, target, coins);
              && b.sessions == old(b.sessions)[source := keys]
              && resp == Some(Packet(b.did, source, heard, resp.value.sequence, 0,
                                     RespPayload(ResponseTo(keys, heard)), Some(b.hex)))
  {
    assert Decapsulate(b.localKeys.value.pub, Cipher(target, coins)).Some?;
    hide FreshSeconds, FreshNano, FW.Admitted, CanonicalDID, DeriveHandshakeKeys, ComputeAuthTag, Decapsulate;
    hide SignatureValid, PQCSessionManager.Valid;
    resp := b.HandleHandshakeInitPacket(init, heard);
  }

  /** The responder hears the initiation within its window, and its firewall admits the initiator. */
  ghost predicate Heard(a: PQCSessionManager, b: PQCSessionManager, start: int, heard: int)
    reads if b.firewall != null then {b.firewall} else {}
  {
    && -10_000_000_000 <= heard - SentAt(start) <= 60_000_000_000
    && (b.firewall != null ==> FW.Admitted(b.firewall.policies, b.firewall.defaultDeny, a.did, heard))
  }

  /** The first two messages: `a` is left waiting for `b`, and `b` holds a session for `a` exactly if it heard it. */
  method InitAndAnswer(a: PQCSessionManager, b: PQCSessionManager, targetDID: string, targetPub: KemPub,
                       coins: nat, start: int, heard: int) returns (resp: Option<Packet>)
    requires a != b && a.Valid() && b.Valid() && a.names == b.names
    requires a.localKeys.Some? && b.localKeys.Some?
    requires CanonicalDID(a.names, targetDID) == b.did
    requires 0 <= start < 100_000_000_000_000 * 1_000_000_000
    modifies a, b
    ensures a.Valid() && b.Valid() && a.sessions == old(a.sessions)
    ensures b.did in a.pendingSessions
    ensures a.pendingSessions[b.did] ==
            Pending(b.did, InitiatorKeys(a.localKeys.value.did, targetPub, targetDID, coins), start / SECOND)
    ensures resp.Some? <==> Heard(a, b, start, heard)
    ensures resp.None? ==> b.sessions == old(b.sessions)
    ensures resp.Some? ==>
            var keys := ResponderKeys(b.localKeys.value.pub, a.did, b.localKeys.value.did, targetPub, coins);
            && b.sessions == old(b.sessions)[a.did := keys]
            && resp == Some(Packet(b.did, a.did, heard, resp.value.sequence, 0,
                                   RespPayload(ResponseTo(keys, heard)), Some(b.hex)))
  {
    InitiationFreshExactly(start, heard);
    hide FreshSeconds, FreshNano, FW.Admitted, CanonicalDID, InitiatorKeys, ResponderKeys, ResponseTo, SentAt;
    hide PQCSessionManager.InitiatedHere;
    CanonicalFixed(a.names, a.hex, a.compact);
    var init := Start(a, targetDID, targetPub, coins, start);
    resp := Answer(b, init, a.did, targetPub, coins, heard);
  }

  /** The initiator accepts the answer exactly when the two sides' keys mirror each other. */
  lemma AnswerAccepted(did: string, target: KemPub, targetDID: string, coins: nat,
                       own: KemPub, ownDID: string, source: string, now: int)
    requires PlainName(did) && PlainName(targetDID) && PlainName(ownDID) && PlainName(source)
    ensures var mine := InitiatorKeys(did, target, targetDID, coins);
            var theirs := ResponderKeys(own, source, ownDID, target, coins);
            && (Finalize1RTT(mine, ResponseTo(theirs, now)) <==> own == target && source == did && ownDID == targetDID)
            && (Mirrored(mine, theirs) <==> own == target && source == did && ownDID == targetDID)
  {
    var sent := if now < NANO_THRESHOLD then now / SECOND else now;
    assert FreshNano(sent, now);
    FinalizeMeansMirrored(did, target, targetDID, coins, own, ownDID, source, sent, now);
  }

  /**
   `a` starts a handshake with `b`, `b` answers if it hears it, `a` hears the answer if
   there is one, and nothing else happens in between. The responder ends with a new
   session exactly if it heard; the initiator exactly if, besides, the answer came
   within sixty seconds of the second it started in, it encapsulated to the
   responder's key, and both sides used the same two names. Then the keys mirror each
   other.
   */
  method UndisturbedHandshake(a: PQCSessionManager, b: PQCSessionManager, targetDID: string, targetPub: KemPub,
                              coins: nat, start: int, heard: int, answered: int) returns (ok: bool)
    requires a != b && a.Valid() && b.Valid() && a.names == b.names
    requires a.localKeys.Some? && b.localKeys.Some?
    requires CanonicalDID(a.names, targetDID) == b.did
    requires PlainName(a.did) && PlainName(targetDID)
    requires PlainName(a.localKeys.value.did) && PlainName(b.localKeys.value.did)
    requires 0 <= start < 100_000_000_000_000 * 1_000_000_000
    modifies a, b
    ensures a.Valid() && b.Valid()
    ensures if Heard(a, b, start, heard) then a.did in b.sessions else b.sessions == old(b.sessions)
    ensures ok <==>
              && Heard(a, b, start, heard)
              && answered - SentAt(start) <= 60_000_000_000
              && b.localKeys.value.pub == targetPub && a.localKeys.value.did == a.did && b.localKeys.value.did == targetDID
    ensures ok ==> b.did in a.sessions && Mirrored(a.sessions[b.did], b.sessions[a.did])
    ensures !ok ==> a.sessions == old(a.sessions)
  {
    assert SentAt(start) == start / SECOND * SECOND;
    hide Heard, Mirrored, Finalize1RTT, PlainName, CanonicalDID, SentAt;
    hide InitiatorKeys, ResponderKeys, ResponseTo, PQCSessionManager.InitiatedHere;
    var resp := InitAndAnswer(a, b, targetDID, targetPub, coins, start, heard);
    if resp.None? {
      return false;
    }
    CanonicalFixed(b.names, b.hex, b.compact);
    AnswerAccepted(a.localKeys.value.did, targetPub, targetDID, coins,
                   b.localKeys.value.pub, b.localKeys.value.did, a.did, heard);
    ok := a.HandleHandshakeRespPacket(resp.value, answered);
  }

  /** Over mirrored sessions every payload sealed at `a` for `b` opens at `b` unchanged. */
  method SendPayload(a: PQCSessionManager, b: PQCSessionManager, plaintext: seq<int>, nonce: nat, now: int)
    returns (received: Option<seq<int>>)
    requires a != b && b.did in a.sessions && a.did in b.sessions
    requires Mirrored(a.sessions[b.did], b.sessions[a.did])
    modifies a`seqCounter
    ensures received == Some(plaintext)
  {
    var sent := a.EncryptDataPacket(b.did, plaintext, nonce, now);
    received := b.DecryptDataPacket(sent.value);
  }
}
