/**
 The packet pipeline: stages run in order until one drops or consumes the packet,
 and a dropped packet goes to the dead-letter handler, which gives its buffer
 back. A stage is what it does to the packet context; as every stage of the
 repository, it leaves the buffer alone.
 Whether the context is cancelled before a stage is a parameter.
 */
module Pipeline {
  import opened BufferPool

  datatype Error = None | Cancelled | StageError(text: string)

  /** The fields of a packet context but the buffer; `rest` stands for those the loop never looks at. */
  datatype Flags = Flags(dropped: bool, handled: bool, dropReason: string, rest: string)

  datatype Stage = Stage(name: string, process: Flags -> (Flags, Error))

  /** How a run ended: the flags, the error returned, and the stage whose dead letter was sent, if any. */
  datatype Exit = Exit(flags: Flags, err: Error, deadLetter: bool, stoppedAt: nat)

  function CancelFlags(f: Flags): Flags {
    f.(dropped := true, dropReason := "context_canceled")
  }

  function DropFlags(f: Flags, err: Error): Flags {
    if f.dropped then f
    else f.(dropped := true, dropReason := if f.dropReason == "" then "stage_error: " + Text(err) else f.dropReason)
  }

  function Text(err: Error): string {
    match err
    case None => ""
    case Cancelled => "context canceled"
    case StageError(t) => t
  }

  /** The stages from `i` on, over flags. */
  function RunFrom(stages: seq<Stage>, f: Flags, cancelled: nat -> bool, i: nat): Exit
    requires i <= |stages|
    decreases |stages| - i
  {
    if i == |stages| then Exit(f, None, false, i)
    else if cancelled(i) then Exit(CancelFlags(f), Cancelled, true, i)
    else
      var (g, err) := stages[i].process(f);
      if err != None || g.dropped then Exit(DropFlags(g, err), err, true, i)
      else if g.handled then Exit(g, None, false, i)
      else RunFrom(stages, g, cancelled, i + 1)
  }

  function Run(stages: seq<Stage>, f: Flags, cancelled: nat -> bool): Exit {
    RunFrom(stages, f, cancelled, 0)
  }

  // ---------------------------------------------------------------------
  // What a run is, told by the stages alone
  // ---------------------------------------------------------------------

  /** The packet's fields after the first `i` stages, one after another. */
  function Trace(stages: seq<Stage>, f: Flags, i: nat): Flags
    requires i <= |stages|
  {
    if i == 0 then f else stages[i - 1].process(Trace(stages, f, i - 1)).0
  }

  /** What stage `i` returns when its turn comes. */
  function ErrorAt(stages: seq<Stage>, f: Flags, i: nat): Error
    requires i < |stages|
  {
    stages[i].process(Trace(stages, f, i)).1
  }

  /** Stage `i` fails the packet: it returns an error, or marks it dropped. */
  predicate Fails(stages: seq<Stage>, f: Flags, i: nat)
    requires i < |stages|
  {
    ErrorAt(stages, f, i) != None || Trace(stages, f, i + 1).dropped
  }

  /** The run goes on behind stage `i`. */
  predicate GoesOn(stages: seq<Stage>, f: Flags, cancelled: nat -> bool, i: nat)
    requires i < |stages|
  {
    !cancelled(i) && !Fails(stages, f, i) && !Trace(stages, f, i + 1).handled
  }

  /** How a run ends whose stages before `k` let it go on, `k` being the number of stages or the one where it stops. */
  predicate EndsAt(stages: seq<Stage>, f: Flags, cancelled: nat -> bool, k: nat, x: Exit)
    requires k <= |stages|
  {
    && x.stoppedAt == k
    && if k == |stages| then
         x.flags == Trace(stages, f, k) && x.err.None? && !x.deadLetter
       else if cancelled(k) then
         && x.flags == Trace(stages, f, k).(dropped := true, dropReason := "context_canceled")
         && x.err.Cancelled? && x.deadLetter
       else if Fails(stages, f, k) then
         var g := Trace(stages, f, k + 1);
         && x.deadLetter && x.err == ErrorAt(stages, f, k)
         && x.flags.dropped && x.flags.handled == g.handled && x.flags.rest == g.rest
         && (g.dropped || g.dropReason != "" ==> x.flags.dropReason == g.dropReason)
         && (!g.dropped && g.dropReason == "" ==>
               x.flags.dropReason == "stage_error: " + if x.err.StageError? then x.err.text else "context canceled")
       else
         x.flags == Trace(stages, f, k + 1) && x.err.None? && !x.deadLetter
  }

  /**
   A run stops before a stage where the context is cancelled, or behind the first
   stage that errs, drops or handles the packet, or at the end; and how it ends is
   told by that stage alone. Cancellation, errors and drops leave the packet dropped
   with a dead letter, anything else leaves it as the stages made it.
   */
  lemma RunEndsAt(stages: seq<Stage>, f: Flags, cancelled: nat -> bool, k: nat)
    requires k <= |stages| && forall i | 0 <= i < k :: GoesOn(stages, f, cancelled, i)
    requires k < |stages| ==> !GoesOn(stages, f, cancelled, k)
    ensures EndsAt(stages, f, cancelled, k, Run(stages, f, cancelled))
  {
    RunReaches(stages, f, cancelled, k);
  }

  /** The run ends as it must where its stages stop it. */
  predicate EndsWhereStopped(stages: seq<Stage>, f: Flags, cancelled: nat -> bool, x: Exit) {
    && x.stoppedAt <= |stages|
    && (forall i | 0 <= i < x.stoppedAt :: GoesOn(stages, f, cancelled, i))
    && (x.stoppedAt < |stages| ==> !GoesOn(stages, f, cancelled, x.stoppedAt))
    && EndsAt(stages, f, cancelled, x.stoppedAt, x)
  }

  lemma RunEndsWhereStopped(stages: seq<Stage>, f: Flags, cancelled: nat -> bool)
    ensures EndsWhereStopped(stages, f, cancelled, Run(stages, f, cancelled))
  {
    var k := RunStops(stages, f, cancelled, 0);
    RunEndsAt(stages, f, cancelled, k);
  }

  lemma {:induction false} RunReaches(stages: seq<Stage>, f: Flags, cancelled: nat -> bool, k: nat)
    requires k <= |stages| && forall i | 0 <= i < k :: GoesOn(stages, f, cancelled, i)
    ensures Run(stages, f, cancelled) == RunFrom(stages, Trace(stages, f, k), cancelled, k)
  {
    if k == 0 {
    } else {
      assert GoesOn(stages, f, cancelled, k - 1);
      RunReaches(stages, f, cancelled, k - 1);
    }
  }

  /** Every run stops somewhere. */
  lemma {:induction false} RunStops(stages: seq<Stage>, f: Flags, cancelled: nat -> bool, from: nat) returns (k: nat)
    requires from <= |stages| && forall i | 0 <= i < from :: GoesOn(stages, f, cancelled, i)
    ensures k <= |stages| && forall i | 0 <= i < k :: GoesOn(stages, f, cancelled, i)
    ensures k < |stages| ==> !GoesOn(stages, f, cancelled, k)
    decreases |stages| - from
  {
    if from == |stages| || !GoesOn(stages, f, cancelled, from) {
      k := from;
    } else {
      k := RunStops(stages, f, cancelled, from + 1);
    }
  }

  /** A run that meets at least one stage sends a dead letter exactly when the packet leaves dropped. */
  lemma {:induction false} DeadLetterMeansDropped(stages: seq<Stage>, f: Flags, cancelled: nat -> bool, i: nat)
    requires i <= |stages|
    ensures var x := RunFrom(stages, f, cancelled, i);
            && (x.deadLetter ==> x.flags.dropped)
            && (x.err != None ==> x.deadLetter)
            && (i < |stages| || !f.dropped ==> (x.deadLetter <==> x.flags.dropped))
    decreases |stages| - i
  {
    if i == |stages| || cancelled(i) {
    } else {
      var (g, err) := stages[i].process(f);
      if err == None && !g.dropped && !g.handled {
        DeadLetterMeansDropped(stages, g, cancelled, i + 1);
      }
    }
  }

  /**
   Dead letters and drops come apart in one case only: a packet that enters an
   empty pipeline already dropped leaves it dropped and never handed over.
   */
  lemma DropsAreHandedOver(stages: seq<Stage>, f: Flags, cancelled: nat -> bool)
    ensures var x := Run(stages, f, cancelled);
            (x.deadLetter <==> x.flags.dropped) <==> !(stages == [] && f.dropped)
  {
    DeadLetterMeansDropped(stages, f, cancelled, 0);
  }

  /** Stages after the one that ended the run have no part in it. */
  lemma {:induction false} LaterStagesIrrelevant(stages: seq<Stage>, more: seq<Stage>, f: Flags, cancelled: nat -> bool, i: nat)
    requires i <= |stages|
    requires RunFrom(stages, f, cancelled, i).stoppedAt < |stages|
    ensures RunFrom(stages + more, f, cancelled, i) == RunFrom(stages, f, cancelled, i)
    decreases |stages| - i
  {
    if i == |stages| || cancelled(i) {
    } else {
      var (g, err) := stages[i].process(f);
      if err == None && !g.dropped && !g.handled {
        LaterStagesIrrelevant(stages, more, g, cancelled, i + 1);
      }
    }
  }

  // ---------------------------------------------------------------------
  // The pipeline as code
  // ---------------------------------------------------------------------

  class PacketContext {
    var buffer: PacketBuffer?
    var flags: Flags

    constructor (buffer: PacketBuffer?, rest: string)
      ensures this.buffer == buffer && flags == Flags(false, false, "", rest)
    {
      this.buffer := buffer;
      flags := Flags(false, false, "", rest);
    }
  }

  /** What the telemetry ring is told of drops. */
  class Telemetry {
    var drops: nat

    constructor ()
      ensures drops == 0
    {
      drops := 0;
    }
  }

  /** Both handlers of the repository give the buffer back, one after recording the drop; a foreign one keeps it. */
  datatype Handler = NilHandler | DefaultHandler | TelemetryHandler(telemetry: Telemetry?) | ForeignHandler(id: nat) {
    predicate Releases() {
      DefaultHandler? || TelemetryHandler?
    }

    ghost function Told(): set<Telemetry> {
      if TelemetryHandler? && telemetry != null then {telemetry} else {}
    }
  }

  class Snapshot {
    const stages: array<Stage>
    const deadLetter: Handler

    constructor (stages: array<Stage>, deadLetter: Handler)
      ensures this.stages == stages && this.deadLetter == deadLetter
    {
      this.stages, this.deadLetter := stages, deadLetter;
    }
  }

  /** `DefaultDeadLetterHandler.HandleDeadLetter`: the packet's reference is released and forgotten. */
  method HandleDeadLetter(pool: Pool, pCtx: PacketContext)
    requires pool.Valid() && (pCtx.buffer != null ==> pCtx.buffer in pool.handles)
    modifies pool, pool.Repr, pCtx`buffer
    ensures pool.Valid() && pCtx.buffer == null && pool.Repr == old(pool.Repr)
    ensures pool.handles == if old(pCtx.buffer) == null then old(pool.handles)
                            else Released(old(pool.handles), old(pCtx.buffer))
  {
    if pCtx.buffer != null {
      pool.Release(pCtx.buffer);
      pCtx.buffer := null;
    }
  }

  class LinearPipeline {
    var stages: array<Stage>
    var deadLetter: Handler
    var snap: Snapshot

    ghost predicate Valid()
      reads this
    {
      snap.stages == stages && snap.deadLetter == deadLetter && deadLetter != NilHandler
    }

    constructor ()
      ensures Valid() && snap.stages[..] == [] && deadLetter == DefaultHandler
    {
      var none := new Stage[0](_ => Stage("", f => (f, None)));
      stages, deadLetter := none, DefaultHandler;
      snap := new Snapshot(none, DefaultHandler);
    }

    /** Publishes a longer list; the list a running packet holds keeps its stages. */
    method AddStage(stage: Stage)
      requires Valid()
      modifies `stages, `snap
      ensures Valid() && fresh(snap) && fresh(snap.stages)
      ensures snap.stages[..] == old(snap.stages[..]) + [stage]
      ensures old(snap).stages[..] == old(snap.stages[..])
      ensures snap.deadLetter == old(snap).deadLetter
    {
      var newStages := new Stage[stages.Length + 1](_ => stage);
      var i := 0;
      while i < stages.Length
        modifies newStages
        invariant 0 <= i <= stages.Length
        invariant newStages[..i] == stages[..i]
        invariant newStages[stages.Length] == stage
      {
        newStages[i] := stages[i];
        i := i + 1;
      }
      newStages[stages.Length] := stage;
      assert newStages[..] == newStages[..stages.Length] + [stage];
      stages := newStages;
      snap := new Snapshot(stages, deadLetter);
    }

    /** A nil handler is ignored; any other one is published with the same stages. */
    method SetDeadLetterHandler(handler: Handler)
      requires Valid()
      modifies `deadLetter, `snap
      ensures Valid() && snap.stages == old(snap).stages
      ensures if handler == NilHandler then snap == old(snap) else fresh(snap) && snap.deadLetter == handler
    {
      if handler != NilHandler {
        deadLetter := handler;
        snap := new Snapshot(stages, handler);
      }
    }

    method SendDeadLetter(s: Snapshot, pool: Pool, pCtx: PacketContext)
      requires pool.Valid() && (pCtx.buffer != null ==> pCtx.buffer in pool.handles)
      modifies pool, pool.Repr, pCtx`buffer, s.deadLetter.Told()
      ensures pool.Valid() && pool.Repr == old(pool.Repr)
      ensures forall t | t in s.deadLetter.Told() :: t.drops == old(t.drops) + 1
      ensures s.deadLetter.Releases() ==>
                && pCtx.buffer == null
                && pool.handles == if old(pCtx.buffer) == null then old(pool.handles)
                                   else Released(old(pool.handles), old(pCtx.buffer))
      ensures !s.deadLetter.Releases() ==> pCtx.buffer == old(pCtx.buffer) && pool.handles == old(pool.handles)
    {
      if s.deadLetter.TelemetryHandler? && s.deadLetter.telemetry != null {
        s.deadLetter.telemetry.drops := s.deadLetter.telemetry.drops + 1;
      }
      if s.deadLetter.Releases() {
        HandleDeadLetter(pool, pCtx);
      }
    }

    /**
     Runs the published stages over one packet. A packet that is dropped loses its
     buffer and gives back exactly one reference; any other packet keeps both.
     */
    method Execute(pool: Pool, pCtx: PacketContext, cancelled: nat -> bool) returns (err: Error)
      requires Valid() && pool.Valid() && (pCtx.buffer != null ==> pCtx.buffer in pool.handles)
      modifies pool, pool.Repr, pCtx, snap.deadLetter.Told()
      ensures pool.Valid() && Valid() && snap == old(snap)
      ensures var x := Run(old(snap.stages[..]), old(pCtx.flags), cancelled);
              && pCtx.flags == x.flags && err == x.err
              && (!x.deadLetter ==> pCtx.buffer == old(pCtx.buffer) && pool.handles == old(pool.handles))
              && (forall t | t in snap.deadLetter.Told() :: t.drops == old(t.drops) + (if x.deadLetter then 1 else 0))
              && (x.deadLetter && snap.deadLetter.Releases() ==>
                    && pCtx.buffer == null
                    && pool.handles == if old(pCtx.buffer) == null then old(pool.handles)
                                       else Released(old(pool.handles), old(pCtx.buffer)))
      ensures exists k, dead :: EndsWhereStopped(old(snap.stages[..]), old(pCtx.flags), cancelled, Exit(pCtx.flags, err, dead, k))
                && (!dead ==> pCtx.buffer == old(pCtx.buffer) && pool.handles == old(pool.handles))
                && (dead && (snap.deadLetter.DefaultHandler? || snap.deadLetter.TelemetryHandler?) ==> pCtx.buffer == null)
                && (snap.deadLetter.TelemetryHandler? && snap.deadLetter.telemetry != null ==>
                      snap.deadLetter.telemetry.drops == old(snap.deadLetter.telemetry.drops) + (if dead then 1 else 0))
      ensures snap.deadLetter.Releases() && !old(pCtx.flags.dropped) && old(pCtx.buffer) != null ==>
                (pCtx.flags.dropped <==> pCtx.buffer == null)
    {
      hide Run, RunFrom, Released;
      var s := snap;
      ghost var stages0 := s.stages[..];
      DeadLetterMeansDropped(stages0, pCtx.flags, cancelled, 0);
      RunIsRunFrom(stages0, pCtx.flags, cancelled);
      RunEndsWhereStopped(stages0, pCtx.flags, cancelled);
      ghost var x := Run(stages0, pCtx.flags, cancelled);
      hide EndsWhereStopped;
      var dead: bool;
      err, dead := RunStages(s, pCtx, cancelled);
      if dead {
        SendDeadLetter(s, pool, pCtx);
      }
      assert x == Exit(pCtx.flags, err, dead, x.stoppedAt);
    }

    /** The loop over the stages, up to the point where the dead letter is due. */
    method RunStages(s: Snapshot, pCtx: PacketContext, cancelled: nat -> bool) returns (err: Error, dead: bool)
      modifies pCtx`flags
      ensures var x := RunFrom(s.stages[..], old(pCtx.flags), cancelled, 0);
              pCtx.flags == x.flags && err == x.err && dead == x.deadLetter
    {
      ghost var goal := RunFrom(s.stages[..], pCtx.flags, cancelled, 0);
      var i := 0;
      while i < s.stages.Length
        invariant 0 <= i <= s.stages.Length
        invariant RunFrom(s.stages[..], pCtx.flags, cancelled, i) == goal
      {
        if cancelled(i) {
          pCtx.flags := pCtx.flags.(dropped := true);
          pCtx.flags := pCtx.flags.(dropReason := "context_canceled");
          return Cancelled, true;
        }
        var (flags, stageErr) := s.stages[i].process(pCtx.flags);
        pCtx.flags := flags;
        if stageErr != None || pCtx.flags.dropped {
          if !pCtx.flags.dropped {
            pCtx.flags := pCtx.flags.(dropped := true);
            if pCtx.flags.dropReason == "" {
              pCtx.flags := pCtx.flags.(dropReason := "stage_error: " + Text(stageErr));
            }
          }
          return stageErr, true;
        }
        if pCtx.flags.handled {
          break;
        }
        i := i + 1;
      }
      return None, false;
    }
  }

  lemma RunIsRunFrom(stages: seq<Stage>, f: Flags, cancelled: nat -> bool)
    ensures Run(stages, f, cancelled) == RunFrom(stages, f, cancelled, 0)
  {
  }
}
