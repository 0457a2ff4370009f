/**
 The global memory arbiter: five budget classes, each metered against a share of
 one byte limit. All sums are `uint64`, so an addition can wrap; what the checks
 guarantee, and for which requests, is proved below.
 */
module MemoryArbiter {
  import opened MachineWord

  const REPLAY := "replay"
  const QOS := "qos"
  const TRUST := "trust"
  const BINDINGS := "bindings"
  const OTHER := "other"
  const CLASSES: set<string> := {REPLAY, QOS, TRUST, BINDINGS, OTHER}

  const DEFAULT_TOTAL: u64 := 67108864

  datatype ClassQuota = ClassQuota(limit: u64, held: u64, dropped: u64)

  datatype Ledger = Ledger(totalLimit: u64, totalAlloc: u64, rejections: u64, quotas: map<string, ClassQuota>)

  /** `uint64` addition. */
  function WrapAdd(a: u64, b: u64): u64 {
    if a + b < U64_MODULUS then a + b else a + b - U64_MODULUS
  }

  /** A class no quota is kept for is charged to "other". */
  function ChargedTo(l: Ledger, cls: string): string {
    if cls in l.quotas then cls else OTHER
  }

  /** The share of the limit a class starts with, percentages taken as exact fractions. */
  function Share(total: u64, percent: nat): u64
    requires percent <= 100
  {
    total * percent / 100
  }

  /** Replay 20%, QoS 30%, trust 20%, bindings 20%, everything else 10%. */
  function Percent(cls: string): nat
    ensures Percent(cls) <= 100
  {
    if cls == QOS then 30 else if cls in {REPLAY, TRUST, BINDINGS} then 20 else 10
  }

  function InitialLedger(totalBytes: u64): Ledger {
    var total := if totalBytes == 0 then DEFAULT_TOTAL else totalBytes;
    Ledger(total, 0, 0, map[
      REPLAY := ClassQuota(Share(total, 20), 0, 0),
      QOS := ClassQuota(Share(total, 30), 0, 0),
      TRUST := ClassQuota(Share(total, 20), 0, 0),
      BINDINGS := ClassQuota(Share(total, 20), 0, 0),
      OTHER := ClassQuota(Share(total, 10), 0, 0)])
  }

  ghost predicate HasClasses(l: Ledger) {
    CLASSES == l.quotas.Keys
  }

  ghost function SumOfClasses(l: Ledger): nat
    requires HasClasses(l)
  {
    l.quotas[REPLAY].held + l.quotas[QOS].held + l.quotas[TRUST].held
    + l.quotas[BINDINGS].held + l.quotas[OTHER].held
  }

  ghost function SumOfLimits(l: Ledger): nat
    requires HasClasses(l)
  {
    l.quotas[REPLAY].limit + l.quotas[QOS].limit + l.quotas[TRUST].limit
    + l.quotas[BINDINGS].limit + l.quotas[OTHER].limit
  }

  /** Every class within its limit, the limits within the total, and the total the sum of the classes. */
  ghost predicate Balanced(l: Ledger) {
    && HasClasses(l)
    && (forall c | c in l.quotas :: l.quotas[c].held <= l.quotas[c].limit == Share(l.totalLimit, Percent(c)))
    && SumOfLimits(l) <= l.totalLimit
    && l.totalAlloc == SumOfClasses(l)
  }

  function Refuse(l: Ledger, c: string): Ledger
    requires c in l.quotas
  {
    var q := l.quotas[c];
    l.(quotas := l.quotas[c := q.(dropped := Next(q.dropped))], rejections := Next(l.rejections))
  }

  function ReserveIn(l: Ledger, cls: string, bytes: u64): (Ledger, bool)
    requires OTHER in l.quotas
  {
    var c := ChargedTo(l, cls);
    var q := l.quotas[c];
    if WrapAdd(q.held, bytes) > q.limit then (Refuse(l, c), false)
    else if WrapAdd(l.totalAlloc, bytes) > l.totalLimit then (Refuse(l, c), false)
    else (l.(quotas := l.quotas[c := q.(held := WrapAdd(q.held, bytes))],
             totalAlloc := WrapAdd(l.totalAlloc, bytes)), true)
  }

  function ReleaseIn(l: Ledger, cls: string, bytes: u64): Ledger
    requires OTHER in l.quotas
  {
    var c := ChargedTo(l, cls);
    var q := l.quotas[c];
    var freed := if bytes > q.held then q.held else bytes;
    l.(quotas := l.quotas[c := q.(held := q.held - freed)],
       totalAlloc := if freed > l.totalAlloc then 0 else l.totalAlloc - freed)
  }

  class GlobalMemoryArbiter {
    const totalLimit: u64
    var totalAlloc: u64
    var rejections: u64
    var quotas: map<string, ClassQuota>

    ghost function View(): Ledger
      reads this
    {
      Ledger(totalLimit, totalAlloc, rejections, quotas)
    }

    ghost predicate Valid()
      reads this
    {
      Balanced(View())
    }

    constructor (totalBytes: u64)
      ensures Valid() && View() == InitialLedger(totalBytes)
    {
      var total := if totalBytes == 0 then DEFAULT_TOTAL else totalBytes;
      totalLimit := total;
      totalAlloc, rejections := 0, 0;
      quotas := map[
        REPLAY := ClassQuota(Share(total, 20), 0, 0),
        QOS := ClassQuota(Share(total, 30), 0, 0),
        TRUST := ClassQuota(Share(total, 20), 0, 0),
        BINDINGS := ClassQuota(Share(total, 20), 0, 0),
        OTHER := ClassQuota(Share(total, 10), 0, 0)];
      new;
      InitialLedgerBalanced(totalBytes);
    }

    method Reserve(cls: string, bytes: u64) returns (ok: bool)
      requires Valid()
      modifies this
      ensures Valid()
      ensures (View(), ok) == ReserveIn(old(View()), cls, bytes)
    {
      hide Balanced;
      ghost var l := View();
      HasOther(l);
      var c := if cls in quotas then cls else OTHER;
      var q := quotas[c];
      if WrapAdd(q.held, bytes) > q.limit {
        RefuseKeepsBalance(l, c);
        quotas := quotas[c := q.(dropped := Next(q.dropped))];
        rejections := Next(rejections);
        return false;
      }
      if WrapAdd(totalAlloc, bytes) > totalLimit {
        RefuseKeepsBalance(l, c);
        quotas := quotas[c := q.(dropped := Next(q.dropped))];
        rejections := Next(rejections);
        return false;
      }
      ReserveKeepsBalance(l, cls, bytes);
      quotas := quotas[c := q.(held := WrapAdd(q.held, bytes))];
      totalAlloc := WrapAdd(totalAlloc, bytes);
      return true;
    }

    method Release(cls: string, bytes: u64)
      requires Valid()
      modifies this
      ensures Valid()
      ensures View() == ReleaseIn(old(View()), cls, bytes)
    {
      hide Balanced;
      HasOther(View());
      ReleaseKeepsBalance(View(), cls, bytes);
      var c := if cls in quotas then cls else OTHER;
      var q := quotas[c];
      var freed := bytes;
      if freed > q.held {
        freed := q.held;
      }
      quotas := quotas[c := q.(held := q.held - freed)];
      if freed > totalAlloc {
        totalAlloc := 0;
      } else {
        totalAlloc := totalAlloc - freed;
      }
    }
  }

  // ---------------------------------------------------------------------
  // What every run keeps
  // ---------------------------------------------------------------------

  lemma InitialLedgerBalanced(totalBytes: u64)
    ensures Balanced(InitialLedger(totalBytes))
  {
    var l := InitialLedger(totalBytes);
    assert l.quotas.Keys == CLASSES;
  }

  /** The limits are whole bytes of 20, 30, 20, 20 and 10 percent, of 64 MiB if no total is given. */
  lemma SharesInFigures(totalBytes: u64)
    ensures var l := InitialLedger(totalBytes);
            var total := if totalBytes == 0 then 64 * 1024 * 1024 else totalBytes;
            && l.totalLimit == total && l.totalAlloc == 0 && l.rejections == 0
            && l.quotas.Keys == {"replay", "qos", "trust", "bindings", "other"}
            && (forall c | c in l.quotas :: l.quotas[c].held == 0 && l.quotas[c].dropped == 0)
            && PercentOf(l.quotas["replay"].limit, 20, total) && PercentOf(l.quotas["qos"].limit, 30, total)
            && PercentOf(l.quotas["trust"].limit, 20, total) && PercentOf(l.quotas["bindings"].limit, 20, total)
            && PercentOf(l.quotas["other"].limit, 10, total)
  {
    var l := InitialLedger(totalBytes);
    assert l.quotas.Keys == {"replay", "qos", "trust", "bindings", "other"};
  }

  predicate PercentOf(part: nat, percent: nat, total: nat) {
    100 * part <= percent * total < 100 * part + 100
  }

  /** A class nobody has heard of is served as "other". */
  lemma UnknownClassIsOther(l: Ledger, cls: string, bytes: u64)
    requires Balanced(l) && cls !in {"replay", "qos", "trust", "bindings", "other"}
    ensures ReserveIn(l, cls, bytes) == ReserveIn(l, "other", bytes)
    ensures ReleaseIn(l, cls, bytes) == ReleaseIn(l, "other", bytes)
  {
    hide SumOfClasses, SumOfLimits;
  }

  /** A request touches its own class only; refused, it holds nothing and is counted once, granted, not at all. */
  lemma RequestTouchesItsClassOnly(l: Ledger, cls: string, bytes: u64)
    requires Balanced(l) && cls in l.quotas
    ensures var (l', ok) := ReserveIn(l, cls, bytes);
            && l'.quotas.Keys == l.quotas.Keys && l'.totalLimit == l.totalLimit
            && (forall c | c in l.quotas && c != cls :: l'.quotas[c] == l.quotas[c])
            && l'.quotas[cls].limit == l.quotas[cls].limit
            && (ok ==> l'.rejections == l.rejections && l'.quotas[cls].dropped == l.quotas[cls].dropped)
            && (!ok ==> l'.totalAlloc == l.totalAlloc && l'.quotas[cls].held == l.quotas[cls].held
                        && l'.rejections == (l.rejections + 1) % U64_MODULUS
                        && l'.quotas[cls].dropped == (l.quotas[cls].dropped + 1) % U64_MODULUS)
  {
    hide SumOfClasses, SumOfLimits, Balanced;
    HasOther(l);
    assert l.quotas.Keys + {cls} == l.quotas.Keys;
  }

  /** A release frees what it names, or all its class holds if that is less, and nothing else. */
  lemma ReleaseFreesExactly(l: Ledger, cls: string, bytes: u64)
    requires Balanced(l) && cls in l.quotas
    ensures var l' := ReleaseIn(l, cls, bytes);
            var freed := l.quotas[cls].held - l'.quotas[cls].held;
            && l'.quotas.Keys == l.quotas.Keys && l'.totalLimit == l.totalLimit && l'.rejections == l.rejections
            && (forall c | c in l.quotas && c != cls :: l'.quotas[c] == l.quotas[c])
            && l'.quotas[cls].limit == l.quotas[cls].limit && l'.quotas[cls].dropped == l.quotas[cls].dropped
            && freed == (if bytes <= l.quotas[cls].held then bytes else l.quotas[cls].held)
            && l'.totalAlloc == l.totalAlloc - freed
  {
    hide SumOfClasses, SumOfLimits;
    ClassWithinTotal(l, cls);
    assert l.quotas.Keys + {cls} == l.quotas.Keys;
  }

  lemma HasOther(l: Ledger)
    requires Balanced(l)
    ensures OTHER in l.quotas
  {
  }

  /** Updating one class moves both sums by the same amount. */
  lemma SumsAfterUpdate(l: Ledger, c: string, q: ClassQuota, l': Ledger)
    requires HasClasses(l) && c in l.quotas && l'.quotas == l.quotas[c := q] && q.limit == l.quotas[c].limit
    ensures HasClasses(l')
    ensures SumOfClasses(l') == SumOfClasses(l) - l.quotas[c].held + q.held
    ensures SumOfLimits(l') == SumOfLimits(l)
    ensures forall d | d in l'.quotas :: l'.quotas[d] == if d == c then q else l.quotas[d]
  {
    assert l'.quotas.Keys == CLASSES;
    assert c in CLASSES;
  }

  /** A class is part of the sum, and the limits leave room for the other classes. */
  lemma ClassWithinTotal(l: Ledger, c: string)
    requires Balanced(l) && c in l.quotas
    ensures l.quotas[c].held <= l.totalAlloc
    ensures l.totalAlloc - l.quotas[c].held + l.quotas[c].limit <= l.totalLimit
  {
    assert c in CLASSES;
  }

  /**
   Every request, wrapping or not, leaves the ledger balanced; and the check
   against the global limit never decides, because the class check is stronger.
   */
  lemma ReserveKeepsBalance(l: Ledger, cls: string, bytes: u64)
    requires Balanced(l)
    ensures Balanced(ReserveIn(l, cls, bytes).0)
    ensures ReserveIn(l, cls, bytes).1 <==>
            WrapAdd(l.quotas[ChargedTo(l, cls)].held, bytes) <= l.quotas[ChargedTo(l, cls)].limit
  {
    hide SumOfClasses, SumOfLimits;
    var c := ChargedTo(l, cls);
    var (l', ok) := ReserveIn(l, cls, bytes);
    ClassWithinTotal(l, c);
    SumsAfterUpdate(l, c, l'.quotas[c], l');
  }

  lemma RefuseKeepsBalance(l: Ledger, c: string)
    requires Balanced(l) && c in l.quotas
    ensures Balanced(Refuse(l, c))
  {
    hide SumOfClasses, SumOfLimits;
    var l' := Refuse(l, c);
    SumsAfterUpdate(l, c, l'.quotas[c], l');
  }

  lemma ReleaseKeepsBalance(l: Ledger, cls: string, bytes: u64)
    requires Balanced(l)
    ensures Balanced(ReleaseIn(l, cls, bytes))
  {
    hide SumOfClasses, SumOfLimits;
    var c := ChargedTo(l, cls);
    var l' := ReleaseIn(l, cls, bytes);
    ClassWithinTotal(l, c);
    SumsAfterUpdate(l, c, l'.quotas[c], l');
  }

  /**
   A request is granted exactly when its class has room for it, if and only if the
   64-bit sum does not wrap; a request whose sum wraps is always granted. Room
   taken is charged byte for byte, a wrapped sum leaves class and total lower than
   they were.
   */
  lemma GrantChargesExactlyUnlessWrapped(l: Ledger, cls: string, bytes: u64)
    requires Balanced(l)
    ensures var c := ChargedTo(l, cls);
            (ReserveIn(l, cls, bytes).1 <==> l.quotas[c].held + bytes <= l.quotas[c].limit)
            <==> l.quotas[c].held + bytes < U64_MODULUS
    ensures var c := ChargedTo(l, cls);
            var (l', ok) := ReserveIn(l, cls, bytes);
            if l.quotas[c].held + bytes < U64_MODULUS then
              ok ==> l'.quotas[c].held == l.quotas[c].held + bytes && l'.totalAlloc == l.totalAlloc + bytes
            else
              && ok
              && l'.quotas[c].held == l.quotas[c].held + bytes - U64_MODULUS < l.quotas[c].held
              && l'.totalAlloc == l.totalAlloc + bytes - U64_MODULUS < l.totalAlloc
  {
    hide SumOfClasses, SumOfLimits;
    ReserveKeepsBalance(l, cls, bytes);
    ClassWithinTotal(l, ChargedTo(l, cls));
  }

  /** With one byte held, a request for 2^64 - 1 bytes is granted and empties the class. */
  lemma WrappedRequestIsGranted()
    ensures var l := ReserveIn(InitialLedger(0), QOS, 1).0;
            var (l', ok) := ReserveIn(l, QOS, U64_MODULUS - 1);
            Balanced(l) && ok && l'.quotas[QOS].held == 0
  {
    InitialLedgerBalanced(0);
    ReserveKeepsBalance(InitialLedger(0), QOS, 1);
  }

  /** What a reservation takes, a release of the same size gives back. */
  lemma ReleaseUndoesReserve(l: Ledger, cls: string, bytes: u64)
    requires Balanced(l) && ReserveIn(l, cls, bytes).1
    requires l.quotas[ChargedTo(l, cls)].held + bytes < U64_MODULUS
    ensures ReleaseIn(ReserveIn(l, cls, bytes).0, cls, bytes) == l
  {
    hide SumOfClasses, SumOfLimits, Balanced, Share;
    var c := ChargedTo(l, cls);
    BalancedCharge(l, cls);
    ClassWithinTotal(l, c);
    var l' := ReserveIn(l, cls, bytes).0;
    var q := l.quotas[c];
    assert l'.quotas == l.quotas[c := q.(held := q.held + bytes)];
    assert l'.totalAlloc == l.totalAlloc + bytes;
    assert ChargedTo(l', cls) == c;
    assert ReleaseIn(l', cls, bytes).quotas == l.quotas[c := q];
    assert l.quotas[c := q] == l.quotas;
  }

  lemma BalancedCharge(l: Ledger, cls: string)
    requires Balanced(l)
    ensures OTHER in l.quotas && ChargedTo(l, cls) in l.quotas
    ensures var q := l.quotas[ChargedTo(l, cls)]; q.held <= q.limit
  {
  }

  datatype Op = ReserveOp(cls: string, bytes: u64) | ReleaseOp(cls: string, bytes: u64)

  function Apply(l: Ledger, op: Op): Ledger
    requires OTHER in l.quotas
    ensures OTHER in Apply(l, op).quotas
  {
    match op
    case ReserveOp(cls, bytes) => ReserveIn(l, cls, bytes).0
    case ReleaseOp(cls, bytes) => ReleaseIn(l, cls, bytes)
  }

  function Run(l: Ledger, ops: seq<Op>): Ledger
    requires OTHER in l.quotas
    ensures OTHER in Run(l, ops).quotas
  {
    if ops == [] then l else Apply(Run(l, ops[..|ops| - 1]), ops[|ops| - 1])
  }

  /** Any mix of reservations and releases, in any classes, keeps every class and the total in bounds. */
  lemma {:induction false} EveryRunBalanced(totalBytes: u64, ops: seq<Op>)
    ensures Balanced(Run(InitialLedger(totalBytes), ops))
    ensures Run(InitialLedger(totalBytes), ops).totalAlloc <= InitialLedger(totalBytes).totalLimit
  {
    var l0 := InitialLedger(totalBytes);
    if ops == [] {
      InitialLedgerBalanced(totalBytes);
    } else {
      var before := ops[..|ops| - 1];
      EveryRunBalanced(totalBytes, before);
      match ops[|ops| - 1]
      case ReserveOp(cls, bytes) => ReserveKeepsBalance(Run(l0, before), cls, bytes);
      case ReleaseOp(cls, bytes) => ReleaseKeepsBalance(Run(l0, before), cls, bytes);
    }
    RunKeepsLimit(l0, ops);
  }

  lemma {:induction false} RunKeepsLimit(l: Ledger, ops: seq<Op>)
    requires OTHER in l.quotas
    ensures Run(l, ops).totalLimit == l.totalLimit
  {
    if ops == [] {
    } else {
      RunKeepsLimit(l, ops[..|ops| - 1]);
    }
  }
}
