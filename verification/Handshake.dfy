/**
 The 1-RTT handshake over symbolic cryptography: hashes, tags and seals are free
 constructors, decapsulation gives back the encapsulated secret to the holder of
 the right key and an unrelated one to anybody else, and randomness is a
 parameter. Names and hash texts are the strings the code concatenates.
 */
module Handshake {

  import opened Wrappers

  // ---------------------------------------------------------------------
  // Symbolic primitives
  // ---------------------------------------------------------------------

  /** A hybrid X25519 and ML-KEM-768 public key. */
  datatype KemPub = KemPub(x25519: nat, mlkem: nat)

  /** A ciphertext made for a key with some randomness, or bytes no honest sender makes: X25519 rejects their point. */
  datatype Cipher = Cipher(target: KemPub, coins: nat) | BadPoint(bytes: nat)

  datatype Secret = Shared(target: KemPub, coins: nat) | Unrelated(opener: KemPub, cipher: Cipher)

  /** The salt both sides compute from the ciphertext. */
  datatype Salt = SaltOf(cipher: Cipher)

  function Encapsulate(target: KemPub, coins: nat): (Secret, Cipher) {
    (Shared(target, coins), Cipher(target, coins))
  }

  function Decapsulate(own: KemPub, c: Cipher): Option<Secret> {
    match c
    case BadPoint(_) => None
    case Cipher(target, coins) => Some(if own == target then Shared(target, coins) else Unrelated(own, c))
  }

  /** SHA-256 over a secret, a salt and a text; secret and salt have fixed lengths. */
  datatype Digest = Sha(secret: Secret, salt: Salt, text: string)

  datatype Tag = Mac(key: Digest, sessionID: Digest, timestamp: int)

  datatype Sealed = Seal(key: Digest, nonce: nat, plaintext: seq<int>, ad: string)

  function Open(key: Digest, nonce: nat, s: Sealed, ad: string): Option<seq<int>> {
    if s.key == key && s.nonce == nonce && s.ad == ad then Some(s.plaintext) else None
  }

  // ---------------------------------------------------------------------
  // The three messages
  // ---------------------------------------------------------------------

  datatype SessionKeys = SessionKeys(tx: Digest, rx: Digest, sessionID: Digest)

  datatype Initiation = Initiation(senderDID: string, recipientDID: string, cipher: Cipher, timestamp: int)

  datatype Response = Response(sessionID: Digest, authTag: Tag, timestamp: int)

  const SECOND := 1_000_000_000
  const NANO_THRESHOLD := 100_000_000_000_000

  function TxText(sender: string, recipient: string): string {
    sender + "->" + recipient + ":TX_KEY"
  }

  function RxText(sender: string, recipient: string): string {
    recipient + "->" + sender + ":RX_KEY"
  }

  function DeriveHandshakeKeys(secret: Secret, salt: Salt, sender: string, recipient: string, isInitiator: bool): SessionKeys {
    var txSum := Sha(secret, salt, TxText(sender, recipient));
    var rxSum := Sha(secret, salt, RxText(sender, recipient));
    var sid := Sha(secret, salt, ":SESSION_ID");
    if isInitiator then SessionKeys(txSum, rxSum, sid) else SessionKeys(rxSum, txSum, sid)
  }

  function ComputeAuthTag(key: Digest, sessionID: Digest, timestamp: int): Tag {
    Mac(key, sessionID, timestamp)
  }

  function Initiate1RTT(initiatorDID: string, targetPub: KemPub, targetDID: string, coins: nat, now: int): (Initiation, SessionKeys) {
    var (secret, cipher) := Encapsulate(targetPub, coins);
    (Initiation(initiatorDID, targetDID, cipher, now), DeriveHandshakeKeys(secret, SaltOf(cipher), initiatorDID, targetDID, true))
  }

  /** Between ten seconds in the future and sixty in the past; seconds are scaled up. */
  predicate FreshNano(timestamp: int, now: int) {
    var ts := if timestamp < NANO_THRESHOLD then timestamp * SECOND else timestamp;
    !(now - ts < -10 * SECOND || now - ts > 60 * SECOND)
  }

  /** A stamp in seconds is fresh from ten seconds ahead to sixty behind, to the nanosecond. */
  lemma SecondsFreshExactly(t: int, now: int)
    requires t < 100_000_000_000_000
    ensures FreshNano(t, now) <==> -10_000_000_000 <= now - t * 1_000_000_000 <= 60_000_000_000
  {
  }

  /** So is one in nanoseconds. */
  lemma NanosecondsFreshExactly(t: int, now: int)
    requires 100_000_000_000_000 <= t
    ensures FreshNano(t, now) <==> -10_000_000_000 <= now - t <= 60_000_000_000
  {
  }

  function Respond1RTT(ownDID: string, own: KemPub, init: Initiation, now: int): Option<(Response, SessionKeys)> {
    if !FreshNano(init.timestamp, now) then None
    else if Decapsulate(own, init.cipher).None? then None
    else
      var keys := DeriveHandshakeKeys(Decapsulate(own, init.cipher).value, SaltOf(init.cipher), init.senderDID, ownDID, false);
      Some((Response(keys.sessionID, ComputeAuthTag(keys.tx, keys.sessionID, now), now), keys))
  }

  function Finalize1RTT(keys: SessionKeys, resp: Response): bool {
    keys.sessionID == resp.sessionID && resp.authTag == ComputeAuthTag(keys.rx, keys.sessionID, resp.timestamp)
  }

  // ---------------------------------------------------------------------
  // When the two sides agree
  // ---------------------------------------------------------------------

  /** The two ends hold the same session with transmit and receive keys swapped. */
  predicate Mirrored(a: SessionKeys, b: SessionKeys) {
    a.tx == b.rx && a.rx == b.tx && a.sessionID == b.sessionID
  }

  /** A DID: its text has no '>' that could be taken for the arrow. */
  predicate PlainName(s: string) {
    '>' !in s
  }

  lemma ArrowSplits(a: string, x: string, b: string, y: string)
    requires PlainName(a) && PlainName(b)
    requires a + "->" + x == b + "->" + y
    ensures a == b && x == y
  {
    var s := a + "->" + x;
    assert s[|a| + 1] == '>' && s[..|a|] == a;
    assert s[|b| + 1] == '>' && s[..|b|] == b by { assert s == b + "->" + y; }
    NoArrowBefore(a, x, |b| + 1);
    NoArrowBefore(b, y, |a| + 1);
    assert x == s[|a| + 2..] && y == s[|b| + 2..];
  }

  lemma NoArrowBefore(a: string, x: string, k: nat)
    requires PlainName(a)
    requires k < |a + "->" + x| && (a + "->" + x)[k] == '>'
    ensures |a| + 1 <= k
  {
    assert forall i | 0 <= i < |a| :: (a + "->" + x)[i] == a[i];
    assert (a + "->" + x)[|a|] == '-';
  }

  lemma SuffixDrops(x: string, y: string, suffix: string)
    requires x + suffix == y + suffix
    ensures x == y
  {
    assert x == (x + suffix)[..|x|] && y == (y + suffix)[..|y|];
  }

  lemma TxTextInjective(s: string, r: string, s': string, r': string)
    requires PlainName(s) && PlainName(s') && TxText(s, r) == TxText(s', r')
    ensures s == s' && r == r'
  {
    SuffixDrops(s + "->" + r, s' + "->" + r', ":TX_KEY");
    ArrowSplits(s, r, s', r');
  }

  /**
   Initiator and responder end up with mirrored keys exactly when they used the
   same secret and salt and the same two names in the same roles.
   */
  lemma KeysMirroredExactly(k: Secret, salt: Salt, s: string, r: string, k': Secret, salt': Salt, s': string, r': string)
    requires PlainName(s) && PlainName(s')
    ensures Mirrored(DeriveHandshakeKeys(k, salt, s, r, true), DeriveHandshakeKeys(k', salt', s', r', false))
            <==> k == k' && salt == salt' && s == s' && r == r'
  {
    var a := DeriveHandshakeKeys(k, salt, s, r, true);
    var b := DeriveHandshakeKeys(k', salt', s', r', false);
    if Mirrored(a, b) {
      assert TxText(s, r) == TxText(s', r');
      TxTextInjective(s, r, s', r');
    }
  }

  /** The initiator accepts a response exactly when the responder's keys mirror its own. */
  lemma FinalizeMeansMirrored(initDID: string, target: KemPub, targetDID: string, coins: nat,
                              own: KemPub, ownDID: string, seenDID: string, ts: int, now: int)
    requires PlainName(initDID) && PlainName(targetDID) && PlainName(ownDID) && PlainName(seenDID)
    requires FreshNano(ts, now)
    ensures var (msg, keys) := Initiate1RTT(initDID, target, targetDID, coins, now);
            var answer := Respond1RTT(ownDID, own, Initiation(seenDID, ownDID, msg.cipher, ts), now);
            && answer.Some?
            && (Finalize1RTT(keys, answer.value.0) <==> Mirrored(keys, answer.value.1))
            && (Mirrored(keys, answer.value.1) <==> own == target && seenDID == initDID && ownDID == targetDID)
  {
    var (msg, keys) := Initiate1RTT(initDID, target, targetDID, coins, now);
    var answer := Respond1RTT(ownDID, own, Initiation(seenDID, ownDID, msg.cipher, ts), now);
    KeysMirroredExactly(Shared(target, coins), SaltOf(msg.cipher), initDID, targetDID,
                        Decapsulate(own, msg.cipher).value, SaltOf(msg.cipher), seenDID, ownDID);
    if Finalize1RTT(keys, answer.value.0) {
      assert keys.rx == answer.value.1.tx;
      assert RxText(initDID, targetDID) == RxText(seenDID, ownDID);
      SuffixDrops(targetDID + "->" + initDID, ownDID + "->" + seenDID, ":RX_KEY");
      ArrowSplits(targetDID, initDID, ownDID, seenDID);
    }
  }

  /** The two directions never share a key. */
  lemma DirectionsDiffer(k: Secret, salt: Salt, s: string, r: string, isInitiator: bool)
    ensures var keys := DeriveHandshakeKeys(k, salt, s, r, isInitiator);
            keys.tx != keys.rx && keys.tx != keys.sessionID && keys.rx != keys.sessionID
  {
    var tx, rx := TxText(s, r), RxText(s, r);
    assert tx[|tx| - 6] == 'T' && rx[|rx| - 6] == 'R';
    assert tx[|tx| - 1] == 'Y' && rx[|rx| - 1] == 'Y' && ":SESSION_ID"[10] == 'D';
  }

  /** For given keys one answer is accepted for each instant, and no other. */
  lemma OneAnswerForAnInstant(keys: SessionKeys, resp: Response)
    ensures Finalize1RTT(keys, resp) <==> resp == Response(keys.sessionID, Mac(keys.rx, keys.sessionID, resp.timestamp), resp.timestamp)
  {
  }
}
