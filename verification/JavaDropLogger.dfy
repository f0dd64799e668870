/** The Java drop logger: a counter and an interval start that any number of threads
    update without a lock. One step per atomic operation or clock reading; nothing is
    assumed about how the clock moves. */
module JavaDropLogger {
  import Pool

  const TWO_TO_63: int := 0x8000_0000_0000_0000

  /** Subtraction of 64-bit integers wraps around. */
  function Wrap(x: int): int { (x + TWO_TO_63) % (2 * TWO_TO_63) - TWO_TO_63 }

  /** How far a call has come: it counted its drop, read the clock, read the interval
      start (`version` counts the swaps so far), won the swap, or took the count. */
  datatype Call =
    | Counted
    | Clocked(now: int)
    | Looked(now: int, started: int, version: nat)
    | Won
    | Holding(count: nat)
    | Done

  /** The two atomics, the calls, and what has happened so far: `starts` lists every
      value the interval start has had. */
  datatype Logger = Logger(
    dropped: nat, startedAt: int, calls: seq<Call>,
    starts: seq<int>, increments: nat, taken: seq<nat>, reports: seq<nat>)

  /** The interval, and the least value the clock ever shows. */
  datatype Settings = Settings(interval: int, floor: int)

  ghost predicate SettingsOk(c: Settings) { 0 < c.interval < TWO_TO_63 && -TWO_TO_63 <= c.floor < TWO_TO_63 }

  datatype Move =
    | Increment
    | ReadClock(call: nat, now: int)
    | ReadStart(call: nat)
    | CompareAndSwap(call: nat)
    | TakeCount(call: nat)
    | Report(call: nat)

  ghost predicate IsReading(c: Settings, now: int) { c.floor <= now < TWO_TO_63 }

  ghost predicate CanMove(c: Settings, l: Logger, v: Move)
  {
    match v
    case Increment => true
    case ReadClock(i, now) => i < |l.calls| && l.calls[i].Counted? && IsReading(c, now)
    case ReadStart(i) => i < |l.calls| && l.calls[i].Clocked?
    case CompareAndSwap(i) => i < |l.calls| && l.calls[i].Looked?
    case TakeCount(i) => i < |l.calls| && l.calls[i].Won?
    case Report(i) => i < |l.calls| && l.calls[i].Holding?
  }

  /** The interval is over for this call, and nobody moved the start to another value. */
  predicate Swaps(c: Settings, l: Logger, k: Call)
    requires k.Looked?
  {
    Wrap(k.now - k.started) >= c.interval && l.startedAt == k.started
  }

  function To(l: Logger, i: nat, k: Call): Logger
    requires i < |l.calls|
  {
    l.(calls := l.calls[i := k])
  }

  ghost function Do(c: Settings, l: Logger, v: Move): Logger
    requires CanMove(c, l, v)
  {
    match v
    case Increment => l.(calls := l.calls + [Counted], increments := l.increments + 1, dropped := l.dropped + 1)
    case ReadClock(i, now) => To(l, i, Clocked(now))
    case ReadStart(i) => To(l, i, Looked(l.calls[i].now, l.startedAt, |l.starts|))
    case CompareAndSwap(i) =>
      if Swaps(c, l, l.calls[i]) then To(l, i, Won).(startedAt := l.calls[i].now, starts := l.starts + [l.calls[i].now])
      else To(l, i, Done)
    case TakeCount(i) => To(l, i, Holding(l.dropped)).(dropped := 0, taken := l.taken + [l.dropped])
    case Report(i) =>
      var n := l.calls[i].count;
      To(l, i, Done).(reports := if n > 0 then l.reports + [n] else l.reports)
  }

  ghost predicate IsStart(c: Settings, l: Logger)
  {
    exists now :: IsReading(c, now) && l == Logger(0, now, [], [now], 0, [], [])
  }

  ghost predicate Next(c: Settings, l: Logger, l': Logger) { exists v :: CanMove(c, l, v) && l' == Do(c, l, v) }

  ghost predicate RunTo(c: Settings, ls: seq<Logger>, l: Logger)
  {
    ls != [] && IsStart(c, ls[0]) && ls[|ls| - 1] == l
    && forall i, j | 0 <= i && j == i + 1 < |ls| :: Next(c, ls[i], ls[j])
  }

  ghost predicate Happens(c: Settings, l: Logger) { exists ls :: RunTo(c, ls, l) }

  // --- Accounts ----------------------------------------------------------------------------

  function HeldBy(k: Call): nat { if k.Holding? then k.count else 0 }

  /** Counts taken and not yet reported. */
  function Held(calls: seq<Call>): nat
  {
    if calls == [] then 0 else Held(calls[..|calls| - 1]) + HeldBy(calls[|calls| - 1])
  }

  function Owes(k: Call): nat { if k.Won? || k.Holding? then 1 else 0 }

  /** Calls that won the swap and have not yet reported. */
  function Owing(calls: seq<Call>): nat
  {
    if calls == [] then 0 else Owing(calls[..|calls| - 1]) + Owes(calls[|calls| - 1])
  }

  lemma {:induction false} CallMoves(calls: seq<Call>, i: nat, k: Call)
    requires i < |calls|
    ensures Held(calls[i := k]) == Held(calls) - HeldBy(calls[i]) + HeldBy(k)
    ensures Owing(calls[i := k]) == Owing(calls) - Owes(calls[i]) + Owes(k)
    decreases |calls|
  {
    var last := |calls| - 1;
    if i == last {
      assert calls[i := k][..last] == calls[..last];
    } else {
      assert calls[i := k][..last] == calls[..last][i := k];
      CallMoves(calls[..last], i, k);
    }
  }

  lemma CallEnters(calls: seq<Call>)
    ensures Held(calls + [Counted]) == Held(calls) && Owing(calls + [Counted]) == Owing(calls)
  {
    assert (calls + [Counted])[..|calls|] == calls;
  }

  ghost predicate AccountsInv(l: Logger)
  {
    && l.increments == l.dropped + Pool.Sum(l.taken)
    && Pool.Sum(l.taken) == Held(l.calls) + Pool.Sum(l.reports)
    && |l.reports| + Owing(l.calls) < |l.starts|
    && forall n | n in l.reports :: n > 0
  }

  lemma TakeKeepsAccounts(l: Logger, i: nat)
    requires AccountsInv(l) && i < |l.calls| && l.calls[i].Won?
    ensures AccountsInv(To(l, i, Holding(l.dropped)).(dropped := 0, taken := l.taken + [l.dropped]))
  {
    CallMoves(l.calls, i, Holding(l.dropped));
    Pool.SumSnoc(l.taken, l.dropped);
  }

  lemma ReportKeepsAccounts(l: Logger, i: nat)
    requires AccountsInv(l) && i < |l.calls| && l.calls[i].Holding?
    ensures var n := l.calls[i].count;
            AccountsInv(To(l, i, Done).(reports := if n > 0 then l.reports + [n] else l.reports))
  {
    CallMoves(l.calls, i, Done);
    Pool.SumSnoc(l.reports, l.calls[i].count);
  }

  lemma MoveKeepsAccounts(c: Settings, l: Logger, v: Move)
    requires AccountsInv(l) && CanMove(c, l, v)
    ensures AccountsInv(Do(c, l, v))
  {
    match v
    case Increment => CallEnters(l.calls);
    case ReadClock(i, now) => CallMoves(l.calls, i, Clocked(now));
    case ReadStart(i) => CallMoves(l.calls, i, Looked(l.calls[i].now, l.startedAt, |l.starts|));
    case CompareAndSwap(i) => CallMoves(l.calls, i, if Swaps(c, l, l.calls[i]) then Won else Done);
    case TakeCount(i) => TakeKeepsAccounts(l, i);
    case Report(i) => ReportKeepsAccounts(l, i);
  }

  // --- The interval start --------------------------------------------------------------------

  ghost predicate WasRead(starts: seq<int>, k: Call)
    requires k.Looked?
  {
    0 < k.version <= |starts| && starts[k.version - 1] == k.started
  }

  /** What a call read is what was written, and clock readings stay in range. */
  ghost predicate ReadingsInv(c: Settings, l: Logger)
  {
    && l.starts != [] && l.starts[|l.starts| - 1] == l.startedAt && (forall n | n in l.starts :: IsReading(c, n))
    && (forall i | 0 <= i < |l.calls| && l.calls[i].Clocked? :: IsReading(c, l.calls[i].now))
    && (forall i | 0 <= i < |l.calls| && l.calls[i].Looked? ::
          IsReading(c, l.calls[i].now) && WasRead(l.starts, l.calls[i]))
  }

  lemma MoveKeepsReadings(c: Settings, l: Logger, v: Move)
    requires ReadingsInv(c, l) && CanMove(c, l, v)
    ensures ReadingsInv(c, Do(c, l, v))
  {
    var l' := Do(c, l, v);
    assert l.starts <= l'.starts;
    assert l.startedAt in l.starts;
  }

  /** Every swap moved the interval start forward by at least the interval. */
  ghost predicate Paced(c: Settings, starts: seq<int>)
  {
    forall i, j | 0 <= i && j == i + 1 < |starts| :: starts[j] - starts[i] >= c.interval
  }

  /** A swap moves the start forward exactly when the subtraction did not overflow. */
  lemma SwapMovesForward(c: Settings, now: int, started: int)
    requires SettingsOk(c) && -TWO_TO_63 <= now < TWO_TO_63 && -TWO_TO_63 <= started < TWO_TO_63
    requires Wrap(now - started) >= c.interval
    ensures now - started >= c.interval <==> now - started >= -TWO_TO_63
  {
  }

  lemma MoveKeepsPace(c: Settings, l: Logger, v: Move)
    requires SettingsOk(c) && c.floor >= -1 && ReadingsInv(c, l) && Paced(c, l.starts) && CanMove(c, l, v)
    ensures Paced(c, Do(c, l, v).starts)
  {
    if v.CompareAndSwap? && Swaps(c, l, l.calls[v.call]) {
      assert l.startedAt in l.starts;
      SwapMovesForward(c, l.calls[v.call].now, l.startedAt);
    }
  }

  lemma {:induction false} PacedSpan(c: Settings, starts: seq<int>, i: nat, j: nat)
    requires SettingsOk(c) && Paced(c, starts) && i <= j < |starts|
    ensures starts[j] - starts[i] >= (j - i) * c.interval
    decreases j
  {
    if i < j {
      PacedSpan(c, starts, i, j - 1);
      assert (j - i) * c.interval == (j - 1 - i) * c.interval + c.interval;
    }
  }

  // --- Runs ------------------------------------------------------------------------------------

  ghost predicate LoggerInv(c: Settings, l: Logger)
  {
    AccountsInv(l) && ReadingsInv(c, l) && (c.floor >= -1 ==> Paced(c, l.starts))
  }

  lemma StartInv(c: Settings, l: Logger)
    requires SettingsOk(c) && IsStart(c, l)
    ensures LoggerInv(c, l)
  {
  }

  lemma MoveKeepsInv(c: Settings, l: Logger, v: Move)
    requires SettingsOk(c) && LoggerInv(c, l) && CanMove(c, l, v)
    ensures LoggerInv(c, Do(c, l, v))
  {
    MoveKeepsAccounts(c, l, v);
    MoveKeepsReadings(c, l, v);
    if c.floor >= -1 {
      MoveKeepsPace(c, l, v);
    }
  }

  lemma {:induction false} RunKeepsInv(c: Settings, ls: seq<Logger>, l: Logger, k: nat)
    requires SettingsOk(c) && RunTo(c, ls, l) && k < |ls|
    ensures LoggerInv(c, ls[k])
  {
    if k == 0 {
      StartInv(c, ls[0]);
    } else {
      RunKeepsInv(c, ls, l, k - 1);
      assert Next(c, ls[k - 1], ls[k]);
      var v :| CanMove(c, ls[k - 1], v) && ls[k] == Do(c, ls[k - 1], v);
      MoveKeepsInv(c, ls[k - 1], v);
    }
  }

  lemma HappensInv(c: Settings, l: Logger)
    requires SettingsOk(c) && Happens(c, l)
    ensures LoggerInv(c, l)
  {
    var ls :| RunTo(c, ls, l);
    RunKeepsInv(c, ls, l, |ls| - 1);
  }

  lemma MoveHappens(c: Settings, l: Logger, v: Move)
    requires Happens(c, l) && CanMove(c, l, v)
    ensures Happens(c, Do(c, l, v))
  {
    var ls :| RunTo(c, ls, l);
    assert Next(c, l, Do(c, l, v));
    assert RunTo(c, ls + [Do(c, l, v)], Do(c, l, v));
  }

  // --- What every run promises ---------------------------------------------------------------

  /** No drop is reported twice or forgotten, whatever the clock shows: each is still
      counted, in the hand of a call about to report, or in one report. */
  lemma EveryDropIsReportedOnce(c: Settings, l: Logger)
    requires SettingsOk(c) && Happens(c, l)
    ensures l.increments == l.dropped + Pool.Sum(l.taken) == l.dropped + Held(l.calls) + Pool.Sum(l.reports)
    ensures forall n | n in l.reports :: n > 0
  {
    HappensInv(c, l);
  }

  /** Reports are rate-limited by the clock's own account, however it jumps about. */
  lemma ReportsAreRateLimited(c: Settings, l: Logger)
    requires SettingsOk(c) && c.floor >= -1 && Happens(c, l)
    ensures l.starts != [] && |l.reports| * c.interval <= l.startedAt - l.starts[0]
  {
    HappensInv(c, l);
    PacedSpan(c, l.starts, 0, |l.starts| - 1);
    LessTimes(|l.reports|, |l.starts| - 1, c.interval);
  }

  lemma LessTimes(a: nat, b: nat, c: nat)
    requires a <= b
    ensures a * c <= b * c
  {
  }

  /** A swap that finds the start it read finds it untouched: no other swap came between. */
  lemma NoSwapComesBetween(c: Settings, l: Logger, i: nat)
    requires SettingsOk(c) && c.floor >= -1 && Happens(c, l)
    requires i < |l.calls| && l.calls[i].Looked? && l.startedAt == l.calls[i].started
    ensures l.calls[i].version == |l.starts|
  {
    HappensInv(c, l);
    var version, last := l.calls[i].version - 1, |l.starts| - 1;
    PacedSpan(c, l.starts, version, last);
    if version < last {
      LessTimes(1, last - version, c.interval);
    }
  }

  /** One call alone whose clock reading is far below the start. */
  lemma OneCall(c: Settings, before: int, now: int) returns (l: Logger)
    requires SettingsOk(c) && IsReading(c, before) && IsReading(c, now) && Wrap(now - before) >= c.interval
    ensures Happens(c, l) && l.starts == [before, now]
  {
    var l0 := Logger(0, before, [], [before], 0, [], []);
    assert RunTo(c, [l0], l0);
    MoveHappens(c, l0, Increment);
    var l1 := Do(c, l0, Increment);
    MoveHappens(c, l1, ReadClock(0, now));
    var l2 := Do(c, l1, ReadClock(0, now));
    MoveHappens(c, l2, ReadStart(0));
    var l3 := Do(c, l2, ReadStart(0));
    MoveHappens(c, l3, CompareAndSwap(0));
    l := Do(c, l3, CompareAndSwap(0));
  }

  /** The interval start keeps its pace in every run exactly when the clock never shows
      less than -1; below that the subtraction can overflow and set the start back. */
  lemma PacedIffClockIsNotBelow(c: Settings)
    requires SettingsOk(c)
    ensures (forall l | Happens(c, l) :: Paced(c, l.starts)) <==> c.floor >= -1
  {
    if c.floor >= -1 {
      forall l | Happens(c, l) ensures Paced(c, l.starts) {
        HappensInv(c, l);
      }
    } else {
      var l := OneCall(c, TWO_TO_63 - 1, -2);
      assert l.starts[1] - l.starts[0] < c.interval;
      assert !Paced(c, l.starts);
    }
  }

  /** A call that wins the swap takes all that was dropped so far and reports it. */
  lemma WinnerReports(c: Settings, l: Logger, i: nat)
    requires i < |l.calls| && l.calls[i].Looked? && l.dropped > 0
    requires Wrap(l.calls[i].now - l.calls[i].started) >= c.interval && l.startedAt == l.calls[i].started
    ensures CanMove(c, l, CompareAndSwap(i))
    ensures var l1 := Do(c, l, CompareAndSwap(i));
            CanMove(c, l1, TakeCount(i)) && l1.startedAt == l.calls[i].now
            && var l2 := Do(c, l1, TakeCount(i));
               CanMove(c, l2, Report(i)) && l2.dropped == 0
               && Do(c, l2, Report(i)).reports == l.reports + [l.dropped]
  {
  }

  /** Every call that is not done has a move of its own, whatever the clock shows. */
  lemma NobodyIsStuck(c: Settings, l: Logger, i: nat, now: int)
    requires i < |l.calls| && l.calls[i] != Done && IsReading(c, now)
    ensures exists v :: CanMove(c, l, v) && Do(c, l, v).calls[i] != l.calls[i]
  {
    var v := match l.calls[i]
      case Counted => ReadClock(i, now)
      case Clocked(_) => ReadStart(i)
      case Looked(_, _, _) => CompareAndSwap(i)
      case Won => TakeCount(i)
      case _ => Report(i);
    assert CanMove(c, l, v) && Do(c, l, v).calls[i] != l.calls[i];
  }
}
