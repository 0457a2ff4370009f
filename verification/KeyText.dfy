/**
 The text keys the maps are indexed by: `"%s:%d"` for a replay session and
 `"%s:%d:%t"` for a firewall decision. A DID may itself contain colons, so what
 makes a key readable back is that the parts after it cannot.
 */
module KeyText {

  function Digit(d: nat): char
    requires d < 10
  {
    ['0', '1', '2', '3', '4', '5', '6', '7', '8', '9'][d]
  }

  /** Go's `%d` of an unsigned integer. */
  function Decimal(n: nat): string {
    if n < 10 then [Digit(n)] else Decimal(n / 10) + [Digit(n % 10)]
  }

  /** Go's `%t`. */
  function Truth(b: bool): string {
    if b then "true" else "false"
  }

  function SessionKey(did: string, session: nat): string {
    did + ":" + Decimal(session)
  }

  function DecisionKey(did: string, port: nat, inbound: bool): string {
    did + ":" + Decimal(port) + ":" + Truth(inbound)
  }

  lemma {:induction false} DecimalHasNoColon(n: nat)
    ensures ':' !in Decimal(n)
  {
    if n < 10 {
    } else {
      DecimalHasNoColon(n / 10);
    }
  }

  lemma {:induction false} DecimalInjective(m: nat, n: nat)
    requires Decimal(m) == Decimal(n)
    ensures m == n
  {
    DecimalLength(m);
    DecimalLength(n);
    if m < 10 || n < 10 {
    } else {
      var s, t := Decimal(m / 10), Decimal(n / 10);
      assert s == Decimal(m)[..|Decimal(m)| - 1];
      assert t == Decimal(n)[..|Decimal(n)| - 1];
      assert Decimal(m)[|Decimal(m)| - 1] == Decimal(n)[|Decimal(n)| - 1];
      DecimalInjective(m / 10, n / 10);
    }
  }

  lemma DecimalLength(n: nat)
    ensures 1 <= |Decimal(n)|
    ensures |Decimal(n)| == 1 <==> n < 10
  {
  }

  lemma NoColonAfter(a: string, x: string, k: nat)
    requires ':' !in x
    requires k < |a + ":" + x| && (a + ":" + x)[k] == ':'
    ensures k <= |a|
  {
    assert forall i | |a| < i < |a + ":" + x| :: (a + ":" + x)[i] == x[i - |a| - 1];
  }

  /** A colon followed by colon-free text splits off in one way only. */
  lemma LastColonSplits(a: string, x: string, b: string, y: string)
    requires a + ":" + x == b + ":" + y
    requires ':' !in x && ':' !in y
    ensures a == b && x == y
  {
    var s := a + ":" + x;
    assert s[|b|] == ':' by { assert (b + ":" + y)[|b|] == ':'; }
    assert (b + ":" + y)[|a|] == ':' by { assert s[|a|] == ':'; }
    NoColonAfter(a, x, |b|);
    NoColonAfter(b, y, |a|);
    assert a == s[..|a|] && b == s[..|b|];
    assert x == s[|a| + 1..] && y == s[|b| + 1..];
  }

  /** What a decimal text says. */
  function Value(s: string): int {
    if s == "" then 0 else Value(s[..|s| - 1]) * 10 + (s[|s| - 1] as int - '0' as int)
  }

  /** The decimal text of a number says that number. */
  lemma {:induction false} DecimalReads(n: nat)
    ensures Value(Decimal(n)) == n
  {
    assert Value([Digit(n % 10)]) == n % 10;
    if n < 10 {
    } else {
      DecimalReads(n / 10);
      assert Decimal(n)[..|Decimal(n)| - 1] == Decimal(n / 10);
    }
  }

  /** A session key is its DID, a colon and the session's number, a decision key has port and direction so. */
  lemma KeysAsWritten()
    ensures SessionKey("did:ipvn7:ab", 42) == "did:ipvn7:ab:42"
    ensures DecisionKey("did:ipvn7:ab", 443, true) == "did:ipvn7:ab:443:true"
    ensures DecisionKey("did:ipvn7:ab", 0, false) == "did:ipvn7:ab:0:false"
  {
    assert Decimal(4) == "4" && Decimal(42) == "42" && Decimal(44) == "44" && Decimal(443) == "443" && Decimal(0) == "0";
  }

  lemma SessionKeyInjective(d1: string, s1: nat, d2: string, s2: nat)
    requires SessionKey(d1, s1) == SessionKey(d2, s2)
    ensures d1 == d2 && s1 == s2
  {
    DecimalHasNoColon(s1);
    DecimalHasNoColon(s2);
    LastColonSplits(d1, Decimal(s1), d2, Decimal(s2));
    DecimalInjective(s1, s2);
  }

  lemma DecisionKeyInjective(d1: string, p1: nat, i1: bool, d2: string, p2: nat, i2: bool)
    requires DecisionKey(d1, p1, i1) == DecisionKey(d2, p2, i2)
    ensures d1 == d2 && p1 == p2 && i1 == i2
  {
    LastColonSplits(d1 + ":" + Decimal(p1), Truth(i1), d2 + ":" + Decimal(p2), Truth(i2));
    SessionKeyInjective(d1, p1, d2, p2);
    assert Truth(true)[0] != Truth(false)[0];
  }
}
