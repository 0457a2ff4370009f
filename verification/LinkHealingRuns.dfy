/**
 What a whole probe history says about a link: the counters are the lengths of
 its trailing runs, recovery is decided by the last run of good probes, and the
 hold-down by the trips that followed each other within ten seconds. Thresholds
 may change from probe to probe.
 */
module LinkHealingRuns {
  import opened LinkHealing

  function TrailingLosses(h: seq<Probe>): nat {
    if h == [] || h[|h| - 1].success then 0 else 1 + TrailingLosses(h[..|h| - 1])
  }

  function TrailingGood(h: seq<Probe>): nat {
    if h == [] || !Good(h[|h| - 1]) then 0 else 1 + TrailingGood(h[..|h| - 1])
  }

  /** The time of the last probe that was not good, or the zero time. */
  function LastBad(h: seq<Probe>): int {
    if h == [] then ZERO_TIME
    else if !Good(h[|h| - 1]) then h[|h| - 1].now
    else LastBad(h[..|h| - 1])
  }

  /** The clock never goes back and is past the zero time. */
  ghost predicate Clocked(h: seq<Probe>) {
    && (forall i | 0 <= i < |h| :: ZERO_TIME < h[i].now)
    && (forall i, j | 0 <= i < j < |h| :: h[i].now <= h[j].now)
  }

  lemma {:induction false} CountersAreTrailingRuns(h: seq<Probe>)
    ensures LinkAfter(h).losses == TrailingLosses(h)
    ensures LinkAfter(h).successes == TrailingGood(h)
  {
    if h == [] {
    } else {
      CountersAreTrailingRuns(h[..|h| - 1]);
    }
  }

  /** A link degrades only on a slow answer or on enough losses in a row. */
  lemma DegradesOnlyOnCause(h: seq<Probe>)
    requires h != []
    requires !LinkAfter(h[..|h| - 1]).degraded && LinkAfter(h).degraded
    ensures (h[|h| - 1].success && !Good(h[|h| - 1])) || TrailingLosses(h) >= h[|h| - 1].cfg.maxLosses
  {
    CountersAreTrailingRuns(h[..|h| - 1]);
    CountersAreTrailingRuns(h);
  }

  /** And such a cause always degrades it. */
  lemma CauseDegrades(h: seq<Probe>)
    requires h != [] && Positive(h[|h| - 1].cfg)
    requires (h[|h| - 1].success && !Good(h[|h| - 1])) || TrailingLosses(h) >= h[|h| - 1].cfg.maxLosses
    ensures LinkAfter(h).degraded
  {
    CountersAreTrailingRuns(h[..|h| - 1]);
    CountersAreTrailingRuns(h);
  }

  /** A link is cleared only by enough good probes in a row, the last one after the hold-down. */
  lemma ClearsOnlyAfterHoldDown(h: seq<Probe>)
    requires h != []
    requires LinkAfter(h[..|h| - 1]).degraded && !LinkAfter(h).degraded
    ensures Good(h[|h| - 1])
    ensures TrailingGood(h) >= h[|h| - 1].cfg.recoverySuccesses
    ensures h[|h| - 1].now >= LinkAfter(h[..|h| - 1]).holdDownUntil
  {
    CountersAreTrailingRuns(h[..|h| - 1]);
    CountersAreTrailingRuns(h);
  }

  /** Slower than 1500 ms, or than the threshold, whichever is less. */
  predicate Slow(p: Probe) {
    p.success && (p.latencyMs > 1500.0 || p.latencyMs > p.cfg.degradedLatencyMs)
  }

  /** The probe ends enough answers in a row, none of them slow, past the hold-down. */
  predicate Clears(h: seq<Probe>)
    requires h != []
  {
    var p := h[|h| - 1];
    && p.success && !Slow(p)
    && TrailingGood(h) >= p.cfg.recoverySuccesses
    && p.now >= LinkAfter(h[..|h| - 1]).holdDownUntil
  }

  /** After any probe the link is degraded exactly if that was slow, or ended enough losses, or found it so and did not clear it. */
  lemma DegradedExactly(h: seq<Probe>)
    requires h != []
    ensures var p := h[|h| - 1];
            LinkAfter(h).degraded <==>
            || Slow(p)
            || (!p.success && TrailingLosses(h) >= p.cfg.maxLosses)
            || (LinkAfter(h[..|h| - 1]).degraded && !Clears(h))
  {
    CountersAreTrailingRuns(h[..|h| - 1]);
    CountersAreTrailingRuns(h);
  }

  /** A probe counts as good exactly if it was answered and not slow. */
  lemma GoodExactly(p: Probe)
    ensures Good(p) <==> p.success && !Slow(p)
  {
  }

  lemma {:induction false} LastBadInPast(h: seq<Probe>)
    requires Clocked(h) && h != []
    ensures LastBad(h) <= h[|h| - 1].now
  {
    var g := h[..|h| - 1];
    if g == [] {
    } else {
      LastBadInPast(g);
      assert h[|h| - 2].now <= h[|h| - 1].now;
    }
  }

  /** The hold-down never reaches more than thirty seconds past the last failover, nor that past the last bad probe. */
  lemma {:induction false} HoldDownBounded(h: seq<Probe>)
    requires Clocked(h)
    ensures ZERO_TIME <= LinkAfter(h).lastFailover <= LastBad(h)
    ensures LinkAfter(h).holdDownUntil <= LinkAfter(h).lastFailover + PENALTY_CAP
  {
    if h == [] {
    } else {
      var g := h[..|h| - 1];
      HoldDownBounded(g);
      if g != [] {
        LastBadInPast(g);
        assert h[|h| - 2].now <= h[|h| - 1].now;
      }
    }
  }

  /** The probe would restore a link held down until `hold`, as the `k`th good one in a row. */
  predicate Restores(p: Probe, k: nat, hold: int) {
    k >= p.cfg.recoverySuccesses && p.now >= hold
  }

  /**
   After a run of good probes following a bad one, the link is degraded exactly if
   it was before the run and no probe of the run came late enough in it, after the
   hold-down.
   */
  lemma {:induction false} DegradedAfterGoodRun(before: seq<Probe>, run: seq<Probe>)
    requires forall i | 0 <= i < |run| :: Good(run[i])
    requires before == [] || !Good(before[|before| - 1])
    ensures var l0 := LinkAfter(before);
            var l := LinkAfter(before + run);
            && l.successes == |run| && (run != [] ==> l.losses == 0)
            && l.holdDownUntil == l0.holdDownUntil
            && (l.degraded <==>
                  l0.degraded && forall i | 0 <= i < |run| :: !Restores(run[i], i + 1, l0.holdDownUntil))
  {
    if run == [] {
      assert before + run == before;
      CountersAreTrailingRuns(before);
    } else {
      var n := |run| - 1;
      var h := before + run;
      assert h[..|h| - 1] == before + run[..n];
      assert h[|h| - 1] == run[n];
      DegradedAfterGoodRun(before, run[..n]);
    }
  }

  lemma {:induction false} SplitAtLastBad(h: seq<Probe>)
    ensures TrailingGood(h) <= |h|
    ensures var k := |h| - TrailingGood(h);
            && (forall i | k <= i < |h| :: Good(h[i]))
            && (k == 0 || !Good(h[k - 1]))
            && LastBad(h) == LastBad(h[..k])
            && (k != 0 ==> LastBad(h) == h[k - 1].now)
  {
    if h == [] || !Good(h[|h| - 1]) {
      assert h[..|h|] == h;
    } else {
      var g := h[..|h| - 1];
      SplitAtLastBad(g);
      var k := |h| - TrailingGood(h);
      assert g[..k] == h[..k];
    }
  }

  lemma PrefixClocked(h: seq<Probe>, k: nat)
    requires Clocked(h) && k <= |h|
    ensures Clocked(h[..k])
  {
  }

  lemma LateRunRestores(before: seq<Probe>, run: seq<Probe>)
    requires Clocked(before) && run != []
    requires forall i | 0 <= i < |run| :: Good(run[i])
    requires before == [] || !Good(before[|before| - 1])
    requires |run| >= run[|run| - 1].cfg.recoverySuccesses
    requires run[|run| - 1].now >= LastBad(before) + PENALTY_CAP
    ensures !LinkAfter(before + run).degraded
  {
    hide LinkAfter, Good, LastBad;
    HoldDownBounded(before);
    DegradedAfterGoodRun(before, run);
    assert Restores(run[|run| - 1], |run| - 1 + 1, LinkAfter(before).holdDownUntil);
  }

  /**
   Enough good probes in a row, the last at least thirty seconds after the last
   bad one, always leave the link restored.
   */
  lemma PatienceRestores(h: seq<Probe>)
    requires Clocked(h) && h != [] && Positive(h[|h| - 1].cfg)
    requires TrailingGood(h) >= h[|h| - 1].cfg.recoverySuccesses
    requires h[|h| - 1].now >= LastBad(h) + PENALTY_CAP
    ensures !LinkAfter(h).degraded
  {
    hide LinkAfter, Good, LastBad, TrailingGood, Clocked;
    SplitAtLastBad(h);
    var k := |h| - TrailingGood(h);
    PrefixClocked(h, k);
    LateRunRestores(h[..k], h[k..]);
    assert h == h[..k] + h[k..];
  }

  // ---------------------------------------------------------------------
  // Flap damping
  // ---------------------------------------------------------------------

  /** The last probe found the link degraded and was lost or slow. */
  predicate TripAt(h: seq<Probe>) {
    h != [] && Trips(LinkAfter(h), h[|h| - 1])
  }

  function LastTrip(h: seq<Probe>): int {
    if h == [] then ZERO_TIME
    else if TripAt(h) then h[|h| - 1].now
    else LastTrip(h[..|h| - 1])
  }

  /** The last probe tripped the link within ten seconds of the trip before. */
  predicate FlapAt(h: seq<Probe>) {
    && TripAt(h)
    && LastTrip(h[..|h| - 1]) != ZERO_TIME
    && h[|h| - 1].now - LastTrip(h[..|h| - 1]) < 10 * SECOND
  }

  /** The last probe wiped the slate clean. */
  predicate ClearsAt(h: seq<Probe>) {
    && h != []
    && Good(h[|h| - 1])
    && Restores(h[|h| - 1], TrailingGood(h), LinkAfter(h[..|h| - 1]).holdDownUntil)
  }

  /** How many flaps there were since the slate was last wiped clean. */
  function Flaps(h: seq<Probe>): nat {
    if h == [] || ClearsAt(h) then 0
    else Flaps(h[..|h| - 1]) + if FlapAt(h) then 1 else 0
  }

  /** Two seconds for each flap, and never more than thirty. */
  function DampedFor(flaps: nat): int {
    if flaps < 15 then 2 * flaps * SECOND else 30 * SECOND
  }

  /**
   Over every history the penalty count is the number of flaps since the last
   clearing, failover or no failover, and each flap holds the link down for two
   seconds per flap so far, up to thirty; nothing else moves the hold-down.
   */
  lemma {:induction false} DampingExact(h: seq<Probe>)
    ensures LinkAfter(h).lastFailover == LastTrip(h)
    ensures LinkAfter(h).penalties == Flaps(h)
    ensures h != [] ==>
              LinkAfter(h).holdDownUntil ==
              if FlapAt(h) then h[|h| - 1].now + DampedFor(Flaps(h)) else LinkAfter(h[..|h| - 1]).holdDownUntil
  {
    if h == [] {
    } else {
      hide Penalty, DampedFor, TrailingGood;
      CountersAreTrailingRuns(h);
      CountersAreTrailingRuns(h[..|h| - 1]);
      DampingExact(h[..|h| - 1]);
      PenaltyInFigures(LinkAfter(h).penalties);
    }
  }

  lemma PenaltyInFigures(k: nat)
    ensures Penalty(k) == DampedFor(k)
  {
  }

  lemma {:induction false} HoldDownWithinPenalty(h: seq<Probe>)
    requires Clocked(h) && h != []
    ensures LinkAfter(h).holdDownUntil <= h[|h| - 1].now + Penalty(LinkAfter(h).penalties)
  {
    var g := h[..|h| - 1];
    if g == [] {
      assert LinkAfter(g) == NEW_LINK;
    } else {
      HoldDownWithinPenalty(g);
      assert h[|h| - 2].now <= h[|h| - 1].now;
    }
  }

  /** The hold-down never moves back. */
  lemma HoldDownNeverMovesBack(h: seq<Probe>)
    requires Clocked(h) && h != []
    ensures LinkAfter(h[..|h| - 1]).holdDownUntil <= LinkAfter(h).holdDownUntil
  {
    hide Penalty, Step;
    var g := h[..|h| - 1];
    if g == [] {
      assert LinkAfter(g) == NEW_LINK;
    } else {
      assert Clocked(g);
      HoldDownWithinPenalty(g);
      assert h[|h| - 2].now <= h[|h| - 1].now;
    }
    StepKeepsHold(LinkAfter(g), h[|h| - 1]);
  }

  lemma StepKeepsHold(l: Link, p: Probe)
    requires l.holdDownUntil <= p.now + Penalty(l.penalties) || l == NEW_LINK
    ensures l.holdDownUntil <= Step(l, p).holdDownUntil
  {
  }

  /** A link trips exactly when a probe is lost or over the threshold and leaves it degraded. */
  lemma TripExactly(h: seq<Probe>)
    requires h != []
    ensures TripAt(h) <==> LinkAfter(h).degraded && Failing(h[|h| - 1])
  {
  }

  /** Lost or slow, whatever the link. */
  predicate Failing(p: Probe) {
    !p.success || p.latencyMs > p.cfg.degradedLatencyMs
  }

  /** From probe `k` on, each comes within ten seconds of the one before. */
  ghost predicate Prompt(h: seq<Probe>, k: nat) {
    forall i, j | 0 <= i && k <= j < |h| && j == i + 1 :: h[j].now - h[i].now < 10 * SECOND
  }

  lemma NextFlap(g: seq<Probe>, p: Probe)
    requires TripAt(g) && g[|g| - 1].now != ZERO_TIME && Failing(p)
    requires p.now - g[|g| - 1].now < 10 * SECOND
    ensures FlapAt(g + [p])
    ensures Flaps(g + [p]) == Flaps(g) + 1
    ensures LinkAfter(g + [p]).holdDownUntil == p.now + DampedFor(Flaps(g) + 1)
  {
    hide Penalty, DampedFor;
    var h := g + [p];
    assert h[..|h| - 1] == g;
    DampingExact(h);
  }

  /**
   A burst of failing probes on a link that has tripped, each within ten seconds of
   the one before, adds one penalty each: the hold-down grows by two seconds a
   probe until it stands at thirty, and not exponentially.
   */
  lemma {:induction false} BurstDampsLinearly(before: seq<Probe>, burst: seq<Probe>)
    requires Clocked(before + burst) && TripAt(before) && burst != []
    requires forall i | 0 <= i < |burst| :: Failing(burst[i])
    requires Prompt(before + burst, |before|)
    ensures FlapAt(before + burst)
    ensures Flaps(before + burst) == Flaps(before) + |burst|
    ensures LinkAfter(before + burst).holdDownUntil == burst[|burst| - 1].now + DampedFor(Flaps(before) + |burst|)
  {
    hide LinkAfter, Flaps, Trips, Failing, DampedFor, Good, LastTrip;
    var n := |burst| - 1;
    var h := before + burst;
    var g := before + burst[..n];
    assert h == g + [burst[n]];
    if n == 0 {
      assert g == before;
    } else {
      assert forall i | 0 <= i < |g| :: g[i] == h[i];
      BurstDampsLinearly(before, burst[..n]);
    }
    assert g[|g| - 1] == h[|h| - 2] && h[|h| - 1] == burst[n];
    NextFlap(g, burst[n]);
  }
}
