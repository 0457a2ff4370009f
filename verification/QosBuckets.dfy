/**
 Per-identity token buckets with proof-of-work credit. Tokens, rates and times
 are real numbers; the clock reading, the fresh challenge text and the outcome of
 the hash check are parameters.
 */
module QosBuckets {

  const BURST: real := 65536.0
  const RATE: real := 1179648.0
  const POW_THRESHOLD: real := 1000.0
  const CHALLENGE_LIFETIME: real := 30.0
  const DIFFICULTY: u8 := 16

  datatype TrafficClass = Control | Interactive | Bulk

  // ---------------------------------------------------------------------
  // One bucket on values
  // ---------------------------------------------------------------------

  /** What a bucket holds when full, and what flows in each second. */
  datatype Terms = Terms(burst: real, rate: real)

  const STOCK := Terms(BURST, RATE)

  /** A length is Go's `int`: nothing stops a caller from passing a negative one. */
  datatype Event = Packet(length: int, now: real) | Credit

  /** A bucket with what it has let through, been given back by negative lengths, refused and been credited. */
  datatype Account = Account(tokens: real, last: real, admitted: nat, returned: nat, denied: nat, credits: nat)

  function Open(t: Terms, now: real): Account {
    Account(t.burst, now, 0, 0, 0, 0)
  }

  function Times(x: real, k: real): real {
    x * k
  }

  lemma TimesNothing(k: real)
    ensures Times(0.0, k) == 0.0 && Times(1.0, k) == k
  {
  }

  lemma TimesNotNegative(x: real, k: real)
    requires 0.0 <= x && 0.0 <= k
    ensures 0.0 <= Times(x, k)
  {
  }

  lemma Distribute(x: real, y: real, k: real)
    ensures Times(x, k) + Times(y, k) == Times(x + y, k)
  {
  }

  function Refilled(t: Terms, a: Account, now: real): real {
    Level(t, a.tokens, a.last, now)
  }

  /** Tokens some time later, cut at the brim. */
  function Level(t: Terms, tokens: real, last: real, now: real): real {
    var level := tokens + Times(now - last, t.rate);
    if level > t.burst then t.burst else level
  }

  function Positive(n: int): nat {
    if n > 0 then n else 0
  }

  function Step(t: Terms, a: Account, e: Event): Account {
    match e
    case Packet(length, now) =>
      var level := Refilled(t, a, now);
      if level >= length as real then
        a.(tokens := level - length as real, last := now,
           admitted := a.admitted + Positive(length), returned := a.returned + Positive(-length))
      else a.(tokens := level, last := now, denied := a.denied + 1)
    case Credit => a.(tokens := t.burst, credits := a.credits + 1)
  }

  function After(t: Terms, a: Account, h: seq<Event>): Account {
    if h == [] then a else Step(t, After(t, a, h[..|h| - 1]), h[|h| - 1])
  }

  /** Packet times never go back, from `start` on. */
  predicate Clocked(start: real, h: seq<Event>) {
    h == [] ||
    (Clocked(start, h[..|h| - 1])
     && match h[|h| - 1]
        case Packet(_, now) => LastTime(start, h[..|h| - 1]) <= now
        case Credit => true)
  }

  function LastTime(start: real, h: seq<Event>): real {
    if h == [] then start
    else
      match h[|h| - 1]
      case Packet(_, now) => now
      case Credit => LastTime(start, h[..|h| - 1])
  }

  /** A bucket is overfull exactly after a packet whose negative length lifts it past the brim. */
  lemma OverfullExactly(t: Terms, a: Account, e: Event)
    requires 0.0 <= t.burst
    ensures Step(t, a, e).tokens > t.burst <==> e.Packet? && Refilled(t, a, e.now) - e.length as real > t.burst
    ensures Step(t, a, e).tokens > t.burst ==> e.length < 0
  {
  }

  /** The bytes that negative lengths gave back are the whole difference to the sound envelope. */
  predicate InEnvelope(t: Terms, a: Account, b: Account) {
    && 0.0 <= b.tokens
    && a.credits <= b.credits && a.returned <= b.returned && a.last <= b.last
    && b.admitted as real + b.tokens <=
       a.admitted as real + a.tokens + Times((b.credits - a.credits) as real, t.burst) + Times(b.last - a.last, t.rate)
       + (b.returned - a.returned) as real
  }

  lemma StepEnvelope(t: Terms, a: Account, e: Event)
    requires 0.0 <= t.burst && 0.0 <= t.rate && 0.0 <= a.tokens
    requires e.Packet? ==> a.last <= e.now
    ensures InEnvelope(t, a, Step(t, a, e))
  {
    hide Refilled, Times;
    TimesNothing(t.burst);
    TimesNothing(t.rate);
    match e
    case Packet(length, now) => RefilledWithin(t, a, now);
    case Credit =>
  }

  lemma RefilledWithin(t: Terms, a: Account, now: real)
    requires 0.0 <= t.burst && 0.0 <= t.rate && 0.0 <= a.tokens && a.last <= now
    ensures 0.0 <= Refilled(t, a, now) <= a.tokens + Times(now - a.last, t.rate)
  {
    hide Times;
    TimesNotNegative(now - a.last, t.rate);
  }

  lemma EnvelopesJoin(t: Terms, a: Account, b: Account, c: Account)
    requires InEnvelope(t, a, b) && InEnvelope(t, b, c)
    ensures InEnvelope(t, a, c)
  {
    hide Times;
    Distribute((b.credits - a.credits) as real, (c.credits - b.credits) as real, t.burst);
    Distribute(b.last - a.last, c.last - b.last, t.rate);
  }

  /**
   Over any stretch of events, from any state of the bucket, the bytes let through
   are at most what the bucket held, plus a burst per credit, plus the rate times
   the time that passed, plus what negative lengths gave back; and the bucket is
   never overdrawn.
   */
  lemma {:induction false} TrafficEnvelope(t: Terms, a: Account, h: seq<Event>)
    requires 0.0 <= t.burst && 0.0 <= t.rate && 0.0 <= a.tokens && Clocked(a.last, h)
    ensures After(t, a, h).last == LastTime(a.last, h)
    ensures InEnvelope(t, a, After(t, a, h))
  {
    hide InEnvelope, Step;
    if h == [] {
      NothingHappened(t, a);
    } else {
      var b := After(t, a, h[..|h| - 1]);
      TrafficEnvelope(t, a, h[..|h| - 1]);
      NeverOverdrawn(t, a, b);
      StepEnvelope(t, b, h[|h| - 1]);
      EnvelopesJoin(t, a, b, Step(t, b, h[|h| - 1]));
      StepTime(t, b, h[|h| - 1]);
    }
  }

  lemma NothingHappened(t: Terms, a: Account)
    requires 0.0 <= a.tokens
    ensures InEnvelope(t, a, a)
  {
    hide Times;
    TimesNothing(t.burst);
    TimesNothing(t.rate);
  }

  lemma NeverOverdrawn(t: Terms, a: Account, b: Account)
    requires InEnvelope(t, a, b)
    ensures 0.0 <= b.tokens
  {
  }

  lemma StepTime(t: Terms, a: Account, e: Event)
    ensures Step(t, a, e).last == if e.Packet? then e.now else a.last
  {
  }

  lemma {:induction false} LastIsLastTime(t: Terms, a: Account, h: seq<Event>)
    ensures After(t, a, h).last == LastTime(a.last, h)
  {
    if h == [] {
    } else {
      LastIsLastTime(t, a, h[..|h| - 1]);
    }
  }

  ghost predicate NoNegatives(h: seq<Event>) {
    forall i | 0 <= i < |h| && h[i].Packet? :: 0 <= h[i].length
  }

  /** With real lengths nothing is given back and the bucket stays within its burst. */
  lemma {:induction false} WithinBurst(t: Terms, a: Account, h: seq<Event>)
    requires 0.0 <= t.burst && a.tokens <= t.burst && NoNegatives(h)
    ensures After(t, a, h).tokens <= t.burst && After(t, a, h).returned == a.returned
  {
    if h == [] {
    } else {
      WithinBurst(t, a, h[..|h| - 1]);
      OverfullExactly(t, After(t, a, h[..|h| - 1]), h[|h| - 1]);
    }
  }

  /** From the opening of a bucket: one burst, one more per credit, the sustained rate, and what was given back. */
  lemma AdmittedFromOpening(t: Terms, now: real, h: seq<Event>)
    requires 0.0 <= t.burst && 0.0 <= t.rate && Clocked(now, h)
    ensures var b := After(t, Open(t, now), h);
            && b.admitted as real <= Times((1 + b.credits) as real, t.burst) + Times(b.last - now, t.rate) + b.returned as real
            && (NoNegatives(h) ==> b.returned == 0 && b.tokens <= t.burst)
  {
    hide After, Times;
    var b := After(t, Open(t, now), h);
    TrafficEnvelope(t, Open(t, now), h);
    TimesNothing(t.burst);
    Distribute(1.0, b.credits as real, t.burst);
    assert (1 + b.credits) as real == 1.0 + b.credits as real;
    if NoNegatives(h) {
      WithinBurst(t, Open(t, now), h);
    }
  }

  /** What the envelope would be if lengths could not be negative. */
  predicate WithinEnvelope(t: Terms, start: real, b: Account) {
    b.admitted as real <= Times((1 + b.credits) as real, t.burst) + Times(b.last - start, t.rate)
  }

  /** A full burst, a packet of minus `n` bytes, and as many bytes again, all at one instant. */
  function BurstAgain(n: int, now: real): seq<Event> {
    [Packet(65536, now), Packet(-n, now), Packet(if n < 65536 then n else 65536, now)]
  }

  /** Every negative length breaks the envelope, with no other in the history, no credit and no time passed. */
  lemma NegativeLengthRefills(n: nat, now: real)
    requires n != 0
    ensures var b := After(STOCK, Open(STOCK, now), BurstAgain(n, now));
            && Clocked(now, BurstAgain(n, now))
            && b.admitted == 65536 + (if n < 65536 then n else 65536)
            && b.credits == 0 && b.last == now
            && !WithinEnvelope(STOCK, now, b)
  {
    var a := Open(STOCK, now);
    var h := BurstAgain(n, now);
    assert h == [] + [h[0]] + [h[1]] + [h[2]];
    StepAfter(STOCK, a, [], h[0]);
    StepAfter(STOCK, a, [] + [h[0]], h[1]);
    StepAfter(STOCK, a, [] + [h[0]] + [h[1]], h[2]);
  }

  predicate LengthsAtLeast(h: seq<Event>, floor: int) {
    forall i | 0 <= i < |h| && h[i].Packet? :: floor <= h[i].length
  }

  /** The envelope holds of all histories whose lengths have a lower bound, exactly if that bound is not negative. */
  lemma EnvelopeExactlyWithoutNegatives(floor: int, now: real)
    ensures (forall h | Clocked(now, h) && LengthsAtLeast(h, floor) ::
               WithinEnvelope(STOCK, now, After(STOCK, Open(STOCK, now), h)))
            <==> 0 <= floor
  {
    hide After, Clocked, WithinEnvelope;
    if 0 <= floor {
      forall h | Clocked(now, h) && LengthsAtLeast(h, floor)
        ensures WithinEnvelope(STOCK, now, After(STOCK, Open(STOCK, now), h))
      {
        SoundHistory(h, now);
      }
    } else {
      NegativeLengthRefills(-floor, now);
      assert LengthsAtLeast(BurstAgain(-floor, now), floor);
    }
  }

  lemma SoundHistory(h: seq<Event>, now: real)
    requires Clocked(now, h) && NoNegatives(h)
    ensures WithinEnvelope(STOCK, now, After(STOCK, Open(STOCK, now), h))
  {
    hide After, Clocked, Times;
    AdmittedFromOpening(STOCK, now, h);
  }

  lemma StepAfter(t: Terms, a: Account, h: seq<Event>, e: Event)
    ensures After(t, a, h + [e]) == Step(t, After(t, a, h), e)
    ensures LastTime(a.last, h + [e]) == if e.Packet? then e.now else LastTime(a.last, h)
    ensures Clocked(a.last, h + [e]) <==> Clocked(a.last, h) && (e.Packet? ==> LastTime(a.last, h) <= e.now)
  {
    assert (h + [e])[..|h|] == h;
  }

  // ---------------------------------------------------------------------
  // The service a bucket owes
  // ---------------------------------------------------------------------

  /** No credit since before event `k`, which is a packet. */
  predicate Since(h: seq<Event>, k: nat)
    requires k < |h|
  {
    forall j | k <= j < |h| :: h[j].Packet?
  }

  /** Bytes let through from event `k` on. */
  function AdmittedSince(t: Terms, start: real, h: seq<Event>, k: nat): int
    requires k <= |h|
  {
    After(t, Open(t, start), h).admitted - After(t, Open(t, start), h[..k]).admitted
  }

  /** Bytes that a burst and the rate since packet `k` allow, less what was let through. */
  function Allowance(t: Terms, start: real, h: seq<Event>, now: real, k: nat): real
    requires k < |h| && h[k].Packet?
  {
    t.burst + Times(now - h[k].now, t.rate) - AdmittedSince(t, start, h, k) as real
  }

  /**
   `n` bytes fit at `now`: they are no more than a burst, and since every packet after
   the last credit, what was let through and they stay within a burst and the rate.
   */
  ghost predicate Affordable(t: Terms, start: real, h: seq<Event>, n: int, now: real) {
    && n as real <= t.burst
    && forall k | 0 <= k < |h| && Since(h, k) :: n as real <= Allowance(t, start, h, now, k)
  }

  /** One more packet: allowances since older packets grow with the time and shrink by its bytes. */
  lemma AllowanceStep(t: Terms, start: real, g: seq<Event>, e: Event, now: real, k: nat)
    requires k < |g| && g[k].Packet? && e.Packet?
    ensures Allowance(t, start, g + [e], now, k) ==
            Allowance(t, start, g, e.now, k) + Times(now - e.now, t.rate) - Passed(t, start, g, e) as real
  {
    hide Step, Times;
    var h := g + [e];
    assert h[..k] == g[..k];
    Distribute(now - e.now, e.now - g[k].now, t.rate);
    assert now - e.now + (e.now - g[k].now) == now - g[k].now;
  }

  /** The bytes of packet `e` if it is let through, else none. */
  function Passed(t: Terms, start: real, g: seq<Event>, e: Event): int {
    After(t, Open(t, start), g + [e]).admitted - After(t, Open(t, start), g).admitted
  }

  lemma PassedExactly(t: Terms, start: real, g: seq<Event>, e: Event)
    requires e.Packet? && 0 <= e.length
    ensures var level := Refilled(t, After(t, Open(t, start), g), e.now);
            var a := After(t, Open(t, start), g + [e]);
            && Passed(t, start, g, e) == (if e.length as real <= level then e.length else 0)
            && a.tokens == level - Passed(t, start, g, e) as real && a.last == e.now
  {
    hide Refilled;
    StepAfter(t, Open(t, start), g, e);
  }

  lemma NowAllowance(t: Terms, start: real, g: seq<Event>, e: Event, now: real)
    requires e.Packet?
    ensures Allowance(t, start, g + [e], now, |g|) == t.burst + Times(now - e.now, t.rate) - Passed(t, start, g, e) as real
  {
    assert (g + [e])[..|g|] == g;
  }

  /** The level is never above a burst nor above any allowance, and it is one of these. */
  ghost predicate LevelIsLeast(t: Terms, start: real, h: seq<Event>, now: real) {
    var level := Refilled(t, After(t, Open(t, start), h), now);
    && level <= t.burst
    && (forall k | 0 <= k < |h| && Since(h, k) :: level <= Allowance(t, start, h, now, k))
    && (level == t.burst || exists k :: 0 <= k < |h| && Since(h, k) && level == Allowance(t, start, h, now, k))
  }

  lemma {:induction false} LevelExactly(t: Terms, start: real, h: seq<Event>, now: real)
    requires 0.0 <= t.burst && 0.0 <= t.rate && NoNegatives(h) && Clocked(start, h) && LastTime(start, h) <= now
    ensures LevelIsLeast(t, start, h, now)
  {
    hide Step, Times;
    if h == [] {
      TimesNotNegative(now - start, t.rate);
    } else {
      var g, e := h[..|h| - 1], h[|h| - 1];
      assert h == g + [e];
      match e
      case Packet(n, u) =>
        LevelExactly(t, start, g, u);
        LevelStep(t, start, g, e, now);
      case Credit => LevelAfterCredit(t, start, g, now);
    }
  }

  lemma LevelAfterCredit(t: Terms, start: real, g: seq<Event>, now: real)
    requires 0.0 <= t.rate && LastTime(start, g) <= now
    ensures LevelIsLeast(t, start, g + [Credit], now)
  {
    hide Times;
    StepAfter(t, Open(t, start), g, Credit);
    LastIsLastTime(t, Open(t, start), g);
    TimesNotNegative(now - LastTime(start, g), t.rate);
    var h := g + [Credit];
    assert h[|g|] == Credit;
    assert forall k | 0 <= k < |h| :: !Since(h, k);
  }

  lemma LevelStep(t: Terms, start: real, g: seq<Event>, e: Event, now: real)
    requires 0.0 <= t.rate && e.Packet? && 0 <= e.length && e.now <= now && LevelIsLeast(t, start, g, e.now)
    ensures LevelIsLeast(t, start, g + [e], now)
  {
    hide Step, Times, After;
    var h := g + [e];
    var level := Refilled(t, After(t, Open(t, start), g), e.now);
    var flow, passed := Times(now - e.now, t.rate), Passed(t, start, g, e);
    PassedExactly(t, start, g, e);
    NowAllowance(t, start, g, e, now);
    TimesNotNegative(now - e.now, t.rate);
    var after := Refilled(t, After(t, Open(t, start), h), now);
    assert after == if level - passed as real + flow > t.burst then t.burst else level - passed as real + flow;
    hide Refilled, Allowance;
    assert h[|g|] == e && Since(h, |g|);
    forall k | 0 <= k < |h| && Since(h, k)
      ensures after <= Allowance(t, start, h, now, k)
    {
      if k < |g| {
        SinceFront(g, e, k);
        AllowanceStep(t, start, g, e, now, k);
        assert g[k] == h[k];
      }
    }
    if after != t.burst && level != t.burst {
      var k :| 0 <= k < |g| && Since(g, k) && level == Allowance(t, start, g, e.now, k);
      SinceFront(g, e, k);
      AllowanceStep(t, start, g, e, now, k);
      assert after == Allowance(t, start, h, now, k);
    } else if after != t.burst {
      assert after == Allowance(t, start, h, now, |g|);
    }
  }

  lemma SinceFront(g: seq<Event>, e: Event, k: nat)
    requires k < |g| && e.Packet?
    ensures Since(g + [e], k) <==> Since(g, k)
    ensures Since(g, k) ==> g[k].Packet?
  {
    var h := g + [e];
    if Since(g, k) {
      forall j | k <= j < |h|
        ensures h[j].Packet?
      {
        assert j < |g| ==> h[j] == g[j];
      }
    }
    if Since(h, k) {
      assert forall j | k <= j < |g| :: h[j] == g[j];
    }
  }

  /** A packet is let through exactly when it is affordable: the bucket refuses nothing it owes and lets pass nothing else. */
  lemma LetThroughExactly(t: Terms, start: real, h: seq<Event>, n: int, now: real)
    requires 0.0 <= t.burst && 0.0 <= t.rate && NoNegatives(h) && Clocked(start, h) && LastTime(start, h) <= now
    ensures n as real <= Refilled(t, After(t, Open(t, start), h), now) <==> Affordable(t, start, h, n, now)
  {
    hide Refilled, Allowance;
    LevelExactly(t, start, h, now);
  }

  /** A packet that keeps the rate's distance from the one before it is let through, whatever went before. */
  lemma PacedPacketPasses(t: Terms, start: real, h: seq<Event>, n: nat, now: real)
    requires 0.0 <= t.burst && 0.0 <= t.rate && NoNegatives(h) && Clocked(start, h) && LastTime(start, h) <= now
    requires n as real <= t.burst && n as real <= (now - LastTime(start, h)) * t.rate
    ensures Affordable(t, start, h, n, now)
  {
    assert n as real <= Times(now - LastTime(start, h), t.rate);
    hide After, Affordable, Times, LastTime;
    var a := After(t, Open(t, start), h);
    TrafficEnvelope(t, Open(t, start), h);
    NeverOverdrawn(t, Open(t, start), a);
    LetThroughExactly(t, start, h, n, now);
  }

  /** The stock terms in figures: at 1179648 bytes a second a full burst of 65536 is back after a eighteenth of a second. */
  lemma StockTermsPace(start: real, h: seq<Event>, n: nat, now: real)
    requires NoNegatives(h) && Clocked(start, h) && n <= 65536
    requires (now - LastTime(start, h)) * 1179648.0 >= n as real
    ensures Affordable(STOCK, start, h, n, now)
    ensures !Affordable(STOCK, start, h, 65537, now)
  {
    hide Affordable;
    PacedPacketPasses(STOCK, start, h, n, now);
    hide *;
    TooLongNeverFits(start, h, now);
  }

  lemma TooLongNeverFits(start: real, h: seq<Event>, now: real)
    ensures !Affordable(STOCK, start, h, 65537, now)
  {
  }

  // ---------------------------------------------------------------------
  // The bucket as code
  // ---------------------------------------------------------------------

  class TokenBucket {
    const capacity: real
    const refillRate: real
    var tokens: real
    var lastRefill: real

    ghost const born: real
    ghost var history: seq<Event>
    ghost var credits: nat
    ghost var denied: nat

    ghost function Contract(): Terms {
      Terms(capacity, refillRate)
    }

    /** What the bucket's history made of it. */
    ghost function Books(): Account
      reads this
    {
      After(Contract(), Open(Contract(), born), history)
    }

    ghost predicate Valid()
      reads this
    {
      && Clocked(born, history)
      && tokens == Books().tokens && lastRefill == Books().last
      && credits == Books().credits && denied == Books().denied
    }

    constructor (capacity: real, refillRate: real, now: real)
      ensures Valid() && history == [] && born == now && lastRefill == now
      ensures this.capacity == capacity && this.refillRate == refillRate
      ensures credits == 0 && denied == 0
    {
      this.capacity, this.refillRate := capacity, refillRate;
      tokens, lastRefill := capacity, now;
      born := now;
      history := [];
      credits, denied := 0, 0;
    }

    method Consume(n: int, now: real) returns (ok: bool)
      requires Valid() && lastRefill <= now
      modifies this
      ensures Valid() && history == old(history) + [Packet(n, now)]
      ensures denied == old(denied) + (if ok then 0 else 1) && credits == old(credits)
      ensures ok <==> Refilled(Contract(), old(Books()), now) >= n as real
      ensures 0.0 <= capacity && 0.0 <= refillRate && NoNegatives(old(history)) ==>
                (ok <==> Affordable(Contract(), born, old(history), n, now))
      ensures lastRefill == now
    {
      LastIsLastTime(Contract(), Open(Contract(), born), history);
      StepAfter(Contract(), Open(Contract(), born), history, Packet(n, now));
      if 0.0 <= capacity && 0.0 <= refillRate && NoNegatives(history) {
        LetThroughExactly(Contract(), born, history, n, now);
      }
      hide After, Clocked, LastTime, Level, Affordable, NoNegatives;
      history := history + [Packet(n, now)];
      Refill(now);
      if tokens >= n as real {
        tokens := tokens - n as real;
        return true;
      }
      denied := denied + 1;
      return false;
    }

    /** The refilling half of `Consume`. */
    method Refill(now: real)
      modifies `tokens, `lastRefill
      ensures lastRefill == now && tokens == Level(Contract(), old(tokens), old(lastRefill), now)
    {
      var elapsed := now - lastRefill;
      lastRefill := now;
      tokens := tokens + elapsed * refillRate;
      if tokens > capacity {
        tokens := capacity;
      }
    }

    /** The reward for a solved challenge: a full bucket. */
    method Reward(burstLimit: real)
      requires Valid() && burstLimit == capacity
      modifies this
      ensures Valid() && history == old(history) + [Credit]
      ensures credits == old(credits) + 1 && denied == old(denied)
      ensures lastRefill == old(lastRefill)
    {
      StepAfter(Contract(), Open(Contract(), born), history, Credit);
      history := history + [Credit];
      credits := credits + 1;
      tokens := burstLimit;
    }
  }

  type u8 = x: int | 0 <= x < 256

  /** A SHA-256 sum. */
  type Digest = d: seq<u8> | |d| == 32 witness seq(32, _ => 0)

  datatype Challenge = Challenge(peerDID: string, challenge: string, difficulty: u8, issuedAt: real, expiresAt: real)

  /** A whole zero byte for every eight bits of difficulty. */
  predicate Solved(hash: Digest, difficulty: u8) {
    forall i | 0 <= i < difficulty / 8 :: hash[i] == 0
  }

  method LeadingBytesZero(hash: Digest, difficulty: u8) returns (ok: bool)
    ensures ok <==> Solved(hash, difficulty)
  {
    var bytesZero: int := difficulty / 8;
    var i := 0;
    while i < bytesZero
      invariant 0 <= i <= bytesZero && forall k | 0 <= k < i :: hash[k] == 0
    {
      if hash[i] != 0 {
        return false;
      }
      i := i + 1;
    }
    return true;
  }

  /** The stock difficulty of 16 asks for two zero bytes. */
  lemma StockDifficulty(hash: Digest)
    ensures Solved(hash, 16) <==> hash[0] == 0 && hash[1] == 0
  {
  }

  ghost function OpenFor(active: map<string, Challenge>, did: string): set<string> {
    set h | h in active && active[h].peerDID == did
  }

  lemma OpenAfterIssue(active: map<string, Challenge>, h: string, ch: Challenge)
    ensures |active[h := ch]| <= |active| + 1
    ensures forall d :: |OpenFor(active[h := ch], d)| <= |OpenFor(active, d)| + (if d == ch.peerDID then 1 else 0)
  {
    Subset(active[h := ch].Keys, active.Keys + {h});
    forall d
      ensures |OpenFor(active[h := ch], d)| <= |OpenFor(active, d)| + (if d == ch.peerDID then 1 else 0)
    {
      Subset(OpenFor(active[h := ch], d), OpenFor(active, d) + (if d == ch.peerDID then {h} else {}));
    }
  }

  /** `rest` is `active` without the challenge `h`. */
  predicate Removed(active: map<string, Challenge>, h: string, rest: map<string, Challenge>) {
    rest == active - {h}
  }

  function Without(active: map<string, Challenge>, h: string): (rest: map<string, Challenge>)
    ensures Removed(active, h, rest)
    ensures forall k | k in rest :: k in active && rest[k] == active[k]
  {
    active - {h}
  }

  lemma OpenAfterDrop(active: map<string, Challenge>, h: string, rest: map<string, Challenge>)
    requires Removed(active, h, rest)
    ensures |rest| <= |active|
    ensures forall d :: |OpenFor(rest, d)| <= |OpenFor(active, d)|
    ensures h in active ==>
              |rest| == |active| - 1
              && |OpenFor(rest, active[h].peerDID)| == |OpenFor(active, active[h].peerDID)| - 1
  {
    assert rest.Keys == active.Keys - {h};
    Subset(rest.Keys, active.Keys);
    forall d
      ensures |OpenFor(rest, d)| <= |OpenFor(active, d)|
    {
      Subset(OpenFor(rest, d), OpenFor(active, d));
    }
    if h in active {
      OneFewerFor(active, h, rest);
    }
  }

  lemma OneFewerFor(active: map<string, Challenge>, h: string, rest: map<string, Challenge>)
    requires Removed(active, h, rest) && h in active
    ensures |OpenFor(rest, active[h].peerDID)| == |OpenFor(active, active[h].peerDID)| - 1
  {
    assert OpenFor(rest, active[h].peerDID) == OpenFor(active, active[h].peerDID) - {h};
  }

  class QoSManager {
    var buckets: map<string, TokenBucket>
    var activePoWs: map<string, Challenge>
    const defaultRate: real
    const burstLimit: real
    const powThreshold: real
    var totalThrottled: nat
    var poWsIssued: nat
    var poWsSolved: nat

    /** The buckets. */
    ghost var Repr: set<TokenBucket>

    /** The latest clock reading any call has taken. */
    ghost var clock: real

    /** The challenges issued to a DID and neither solved nor dropped. */
    ghost function Outstanding(did: string): set<string>
      reads `activePoWs
    {
      OpenFor(activePoWs, did)
    }

    ghost predicate Separate()
      reads `buckets
    {
      forall d, e | d in buckets && e in buckets && d != e :: buckets[d] != buckets[e]
    }

    ghost predicate Sound()
      reads `buckets, `clock, `Repr, Repr
    {
      forall d | d in buckets ::
        && buckets[d] in Repr && buckets[d].Contract() == STOCK
        && buckets[d].Valid() && buckets[d].lastRefill <= clock
    }

    ghost predicate Backed()
      reads `buckets, `activePoWs, `Repr, Repr
    {
      && (forall d | d in buckets :: buckets[d] in Repr)
      && (forall h | h in activePoWs :: activePoWs[h].peerDID in buckets)
      && (forall d | d in buckets :: buckets[d].credits + |Outstanding(d)| <= buckets[d].denied)
    }

    ghost predicate Valid()
      reads this, Repr
    {
      && defaultRate == RATE && burstLimit == BURST && powThreshold == POW_THRESHOLD
      && Separate()
      && Sound()
      && Backed()
      && poWsSolved + |activePoWs| <= poWsIssued
    }

    constructor ()
      ensures Valid() && buckets == map[] && activePoWs == map[] && Repr == {}
    {
      Repr := {};
      buckets, activePoWs := map[], map[];
      defaultRate, burstLimit, powThreshold := RATE, BURST, POW_THRESHOLD;
      totalThrottled, poWsIssued, poWsSolved := 0, 0, 0;
      clock := 0.0;
    }

    method GetOrCreateBucket(did: string, now: real) returns (b: TokenBucket)
      requires Valid() && clock == now
      modifies `buckets, `Repr
      ensures Valid() && fresh(Repr - old(Repr)) && old(Repr) <= Repr
      ensures did in buckets && buckets[did] == b && buckets.Keys == old(buckets).Keys + {did}
      ensures did in old(buckets) ==> buckets == old(buckets)
      ensures did !in old(buckets) ==> buckets == old(buckets)[did := b] && b.history == []
      ensures b in Repr && Purse(did, now) == if did in old(buckets) then old(Purse(did, now)) else BURST
    {
      hide TokenBucket.Valid, Outstanding, Sound, Backed, Separate;
      InRepr();
      if did in buckets {
        return buckets[did];
      }
      b := new TokenBucket(burstLimit, defaultRate, now);
      Enter(did, b);
    }

    method Enter(did: string, b: TokenBucket)
      requires Sound() && Backed() && Separate() && did !in buckets
      requires b.Contract() == STOCK && b.Valid() && b.lastRefill <= clock && b.credits == 0 && forall d | d in buckets :: buckets[d] != b
      modifies `buckets, `Repr
      ensures Sound() && Backed() && Separate()
      ensures buckets == old(buckets)[did := b] && Repr == old(Repr) + {b}
    {
      hide TokenBucket.Valid, Outstanding;
      NoneOutstanding(did);
      buckets := buckets[did := b];
      Repr := Repr + {b};
    }

    lemma NoneOutstanding(did: string)
      requires forall h | h in activePoWs :: activePoWs[h].peerDID in buckets
      ensures did !in buckets ==> Outstanding(did) == {}
    {
    }

    /** One more refusal than the credits and open challenges account for. */
    ghost predicate Slack(did: string)
      reads `buckets, `activePoWs, `Repr, Repr
    {
      did in buckets && buckets[did] in Repr && buckets[did].credits + |Outstanding(did)| + 1 <= buckets[did].denied
    }

    /** What a known DID could spend at `now`. */
    ghost function Purse(did: string, now: real): real
      reads `buckets, `Repr, Repr
      requires did in buckets && buckets[did] in Repr
    {
      Refilled(STOCK, buckets[did].Books(), now)
    }

    /** What any DID could spend at `now`: an unknown one starts with a full bucket. */
    ghost function PurseOf(did: string, now: real): real
      reads `buckets, `Repr, Repr
      requires did in buckets ==> buckets[did] in Repr
    {
      if did in buckets then Purse(did, now) else BURST
    }

    method ConsumeFrom(did: string, length: int, now: real) returns (allowed: bool)
      requires Valid() && did in buckets && clock == now
      modifies Repr
      ensures Valid()
      ensures buckets[did] in Repr && (allowed <==> old(Purse(did, now)) >= length as real)
      ensures !allowed ==> Slack(did)
      ensures forall d | d in buckets ::
                buckets[d].history == old(buckets[d].history) + (if d == did then [Packet(length, now)] else [])
    {
      hide TokenBucket.Valid, Outstanding;
      allowed := buckets[did].Consume(length, now);
    }

    /** Charges one packet to its DID's bucket and to no other. */
    method Charge(did: string, length: int, now: real) returns (allowed: bool)
      requires Valid() && clock <= now
      modifies `buckets, `clock, `Repr, Repr
      ensures Valid() && fresh(Repr - old(Repr))
      ensures buckets.Keys == old(buckets).Keys + {did}
      ensures buckets[did].history == (if did in old(buckets) then old(buckets[did].history) else []) + [Packet(length, now)]
      ensures allowed <==> length as real <= if did in old(buckets) then old(Purse(did, now)) else BURST
      ensures did in old(buckets) && NoNegatives(old(buckets[did].history)) ==>
                (allowed <==> Affordable(STOCK, buckets[did].born, old(buckets[did].history), length, now))
      ensures !allowed ==> Slack(did)
      ensures forall d | d in old(buckets) && d != did :: buckets[d] == old(buckets)[d] && buckets[d].history == old(buckets[d].history)
    {
      hide Sound, Backed, Separate, Slack;
      Advance(now);
      InRepr();
      if did in buckets {
        PurseIsAffordable(did, length, now);
      }
      hide Affordable, NoNegatives;
      var tb := GetOrCreateBucket(did, now);
      allowed := ConsumeFrom(did, length, now);
    }

    /** What a known DID can spend is what the bucket owes it. */
    lemma PurseIsAffordable(did: string, length: int, now: real)
      requires Valid() && did in buckets && buckets[did] in Repr && clock <= now
      ensures NoNegatives(buckets[did].history) ==>
                (length as real <= Purse(did, now) <==> Affordable(STOCK, buckets[did].born, buckets[did].history, length, now))
    {
      hide After, Affordable, Refilled, Backed, Separate, NoNegatives;
      var b := buckets[did];
      if NoNegatives(b.history) {
        LastIsLastTime(STOCK, Open(STOCK, b.born), b.history);
        LetThroughExactly(STOCK, b.born, b.history, length, now);
      }
    }

    lemma InRepr()
      requires Backed()
      ensures forall d | d in buckets :: buckets[d] in Repr
    {
    }

    /** `qm.activePoWs[chHex] = challenge`: at most one more outstanding, for its DID only. */
    method Issue(did: string, chHex: string, now: real) returns (challenge: Challenge)
      requires Valid() && Slack(did)
      modifies `totalThrottled, `poWsIssued, `activePoWs
      ensures Valid()
      ensures challenge == Challenge(did, chHex, DIFFICULTY, now, now + CHALLENGE_LIFETIME)
      ensures activePoWs == old(activePoWs)[chHex := challenge]
      ensures poWsIssued == old(poWsIssued) + 1 && totalThrottled == old(totalThrottled) + 1
    {
      hide OpenFor, Separate, Sound, Backed, Slack;
      totalThrottled := totalThrottled + 1;
      poWsIssued := poWsIssued + 1;
      challenge := Challenge(did, chHex, DIFFICULTY, now, now + CHALLENGE_LIFETIME);
      Put(chHex, challenge);
    }

    method Put(chHex: string, ch: Challenge)
      requires Backed() && Slack(ch.peerDID)
      modifies `activePoWs
      ensures Backed()
      ensures activePoWs == old(activePoWs)[chHex := ch] && |activePoWs| <= |old(activePoWs)| + 1
    {
      hide OpenFor;
      OpenAfterIssue(activePoWs, chHex, ch);
      activePoWs := activePoWs[chHex := ch];
    }

    /**
     Control traffic passes untouched. Any other packet is charged to its DID's
     bucket alone; a refusal issues one challenge to that DID.
     */
    method EvaluatePacket(did: string, tc: TrafficClass, length: int, now: real, chHex: string)
      returns (allowed: bool, challenge: seq<Challenge>)
      requires Valid() && clock <= now
      modifies this, Repr
      ensures Valid() && fresh(Repr - old(Repr))
      ensures tc == Control ==> allowed && buckets == old(buckets) && activePoWs == old(activePoWs)
                                && forall d | d in buckets :: buckets[d].history == old(buckets[d].history)
      ensures tc != Control ==>
                && buckets.Keys == old(buckets).Keys + {did}
                && buckets[did].history == (if did in old(buckets) then old(buckets[did].history) else []) + [Packet(length, now)]
                && (forall d | d in old(buckets) && d != did ::
                      buckets[d] == old(buckets)[d] && buckets[d].history == old(buckets[d].history))
                && (allowed <==> length as real <= old(PurseOf(did, now)))
                && (did in old(buckets) && NoNegatives(old(buckets[did].history)) ==>
                      (allowed <==> Affordable(STOCK, buckets[did].born, old(buckets[did].history), length, now)))
                && (if allowed then challenge == [] && activePoWs == old(activePoWs)
                    else
                      && challenge == [Challenge(did, chHex, 16, now, now + 30.0)]
                      && activePoWs == old(activePoWs)[chHex := challenge[0]])
      ensures poWsIssued - old(poWsIssued) == totalThrottled - old(totalThrottled) == if allowed then 0 else 1
      ensures poWsSolved == old(poWsSolved)
      ensures challenge != [] && old(PurseOf(did, now)) >= powThreshold
              <==> tc != Control && powThreshold <= old(PurseOf(did, now)) < length as real
    {
      hide TokenBucket.Valid, Outstanding, Sound, Separate, Backed, Slack;
      challenge := [];
      if tc == Control {
        return true, [];
      }
      allowed := Charge(did, length, now);
      if allowed {
        return;
      }
      var ch := Issue(did, chHex, now);
      challenge := [ch];
    }

    /** `delete(qm.activePoWs, challengeHex)`: the DID it was issued to has one fewer outstanding. */
    method Drop(challengeHex: string)
      requires Valid()
      modifies `activePoWs
      ensures Valid()
      ensures activePoWs == old(activePoWs) - {challengeHex}
      ensures challengeHex in old(activePoWs) ==>
                Slack(old(activePoWs)[challengeHex].peerDID) && poWsSolved + |activePoWs| + 1 <= poWsIssued
    {
      hide OpenFor, Separate, Sound, Backed, Slack;
      Delete(challengeHex);
    }

    method Delete(challengeHex: string)
      requires Backed()
      modifies `activePoWs
      ensures Backed()
      ensures Removed(old(activePoWs), challengeHex, activePoWs) && |activePoWs| <= |old(activePoWs)|
      ensures challengeHex in old(activePoWs) ==>
                Slack(old(activePoWs)[challengeHex].peerDID) && |activePoWs| == |old(activePoWs)| - 1
    {
      hide OpenFor, Removed, Without;
      var rest := Without(activePoWs, challengeHex);
      OpenAfterDrop(activePoWs, challengeHex, rest);
      activePoWs := rest;
    }

    /** Refills the bucket of the DID a solved challenge was issued to. */
    method CreditPeer(did: string)
      requires Valid() && Slack(did)
      modifies Repr
      ensures Valid()
      ensures forall d | d in buckets ::
                buckets[d].history == old(buckets[d].history) + (if d == did then [Credit] else [])
    {
      hide TokenBucket.Valid, Outstanding;
      buckets[did].Reward(burstLimit);
    }

    /**
     Credits the DID a challenge was issued to, once: the challenge is gone
     afterwards. Unknown and expired challenges are dropped, wrong nonces are not.
     */
    method VerifyAndCreditPoW(challengeHex: string, nonce: nat, now: real, decodes: string -> bool, digest: (string, nat) -> Digest)
      returns (ok: bool)
      requires Valid() && clock <= now
      modifies this, Repr
      ensures Valid() && buckets == old(buckets) && Repr == old(Repr)
      ensures ok <==> challengeHex in old(activePoWs) && now <= old(activePoWs)[challengeHex].expiresAt
                      && decodes(old(activePoWs)[challengeHex].challenge) && Solved(digest(old(activePoWs)[challengeHex].challenge, nonce), old(activePoWs)[challengeHex].difficulty)
      ensures poWsSolved == old(poWsSolved) + (if ok then 1 else 0)
      ensures activePoWs == if ok || challengeHex !in old(activePoWs) || now > old(activePoWs)[challengeHex].expiresAt
                            then old(activePoWs) - {challengeHex} else old(activePoWs)
      ensures forall d | d in buckets ::
                buckets[d].history == old(buckets[d].history) +
                  (if ok && d == old(activePoWs)[challengeHex].peerDID then [Credit] else [])
    {
      hide TokenBucket.Valid, Outstanding, Sound, Separate, Backed, Solved;
      Advance(now);
      ok := challengeHex in activePoWs && now <= activePoWs[challengeHex].expiresAt;
      if !ok {
        Drop(challengeHex);
        return;
      }
      var ch := activePoWs[challengeHex];
      if !decodes(ch.challenge) {
        return false;
      }
      var solved := LeadingBytesZero(digest(ch.challenge, nonce), ch.difficulty);
      if !solved {
        return false;
      }
      Drop(challengeHex);
      poWsSolved := poWsSolved + 1;
      if ch.peerDID in buckets {
        CreditPeer(ch.peerDID);
      }
    }

    ghost method Advance(now: real)
      requires Valid() && clock <= now
      modifies `clock
      ensures Valid() && clock == now
    {
      hide TokenBucket.Valid, Outstanding;
      clock := now;
    }

    /**
     For every DID, over everything that ever happened: non-control bytes let
     through are at most one burst, one more per credit, the sustained rate, and
     what negative lengths gave back; and credits plus open challenges never exceed
     the packets refused. Without negative lengths nothing is given back and the
     tokens stay within the burst.
     */
    lemma DidEnvelope(did: string)
      requires Valid() && did in buckets
      ensures var b := buckets[did].Books();
              && b.admitted as real <=
                 65536.0 * (1 + b.credits) as real + 1179648.0 * (clock - buckets[did].born) + b.returned as real
              && b.credits + |Outstanding(did)| <= b.denied
              && 0.0 <= buckets[did].tokens
              && (NoNegatives(buckets[did].history) ==> b.returned == 0 && buckets[did].tokens <= 65536.0)
    {
      var tb := buckets[did];
      TrafficEnvelope(STOCK, Open(STOCK, tb.born), tb.history);
      AdmittedFromOpening(STOCK, tb.born, tb.history);
    }

    /** A newcomer with a full bucket and one packet a byte too long is challenged all the same. */
    method FullBucketIsChallenged(did: string, now: real, chHex: string)
      returns (challenge: seq<Challenge>)
      requires Valid() && clock <= now && did !in buckets
      modifies this, Repr
      ensures old(PurseOf(did, now)) == 65536.0 > powThreshold == 1000.0 && challenge != []
    {
      var allowed;
      allowed, challenge := EvaluatePacket(did, Bulk, 65537, now, chHex);
    }
  }

  lemma Subset<T>(s: set<T>, t: set<T>)
    requires s <= t
    ensures |s| <= |t|
  {
    assert t == s + (t - s);
  }
}
