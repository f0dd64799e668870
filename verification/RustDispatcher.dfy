/** The Rust dispatcher: workers and closer share one condition variable, and a submit
    notifies one waiter only after it has unlocked the mutex. */
module RustDispatcher {
  import opened Pool
  import opened Crew

  /** `notifies` counts the submits between their push and their notify. */
  datatype Machine = Machine(pool: State, workers: seq<Worker>, closer: Closer, notifies: nat)

  /** Who a single notification reaches. */
  datatype Target = Nobody | ToWorker(worker: nat) | ToCloser

  datatype Move =
    | SubmitTask(due: bool)
    | NotifyOne(target: Target)
    | TakeTask(worker: nat)
    | GoToSleep(worker: nat)
    | Leave(worker: nat)
    | FinishTask(worker: nat)
    | NotifyDone(worker: nat)
    | WakeUp(worker: nat)        // spuriously
    | StartClose
    | AwaitQuiet
    | ResumeClose                // spuriously, or because the wait timed out
    | EndDrain(timedOut: bool)
    | SignalEnd

  ghost predicate NobodyWaits(m: Machine)
  {
    m.closer != Waiting && forall i | 0 <= i < |m.workers| :: m.workers[i] != Asleep
  }

  ghost predicate CanReach(m: Machine, target: Target)
  {
    match target
    case Nobody => NobodyWaits(m)
    case ToWorker(i) => IsAt(m.workers, i, Asleep)
    case ToCloser => m.closer == Waiting
  }

  ghost predicate CanMove(m: Machine, v: Move)
  {
    match v
    case SubmitTask(_) => true
    case NotifyOne(target) => m.notifies > 0 && CanReach(m, target)
    case TakeTask(i) => IsAt(m.workers, i, Ready) && m.pool.tasks != []
    case GoToSleep(i) => IsAt(m.workers, i, Ready) && m.pool.tasks == [] && m.pool.draining
    case Leave(i) => IsAt(m.workers, i, Ready) && m.pool.tasks == [] && !m.pool.draining
    case FinishTask(i) => i < |m.workers| && m.workers[i].Running?
    case NotifyDone(i) => IsAt(m.workers, i, Notifying)
    case WakeUp(i) => IsAt(m.workers, i, Asleep)
    case StartClose => true
    case AwaitQuiet => m.closer == Checking && !IsQuiet(m.pool)
    case ResumeClose => m.closer == Waiting
    case EndDrain(timedOut) => m.closer == Checking && (timedOut || IsQuiet(m.pool))
    case SignalEnd => m.closer == Signalling
  }

  function NotifyAll(m: Machine): Machine { m.(workers := WakeAll(m.workers), closer := WakeCloser(m.closer)) }

  ghost function Notify(m: Machine, target: Target): Machine
    requires CanReach(m, target)
  {
    match target
    case Nobody => m
    case ToWorker(i) => m.(workers := m.workers[i := Ready])
    case ToCloser => m.(closer := Checking)
  }

  ghost function Do(capacity: nat, m: Machine, v: Move): Machine
    requires CanMove(m, v)
  {
    match v
    case SubmitTask(due) =>
      m.(pool := Pool.Apply(capacity, m.pool, Submit(due)), notifies := m.notifies + if m.pool.accepting then 1 else 0)
    case NotifyOne(target) => Notify(m, target).(notifies := m.notifies - 1)
    case TakeTask(i) =>
      m.(pool := Pool.Apply(capacity, m.pool, Take), workers := m.workers[i := Running(m.pool.tasks[0])])
    case GoToSleep(i) => m.(workers := m.workers[i := Asleep])
    case Leave(i) => m.(workers := m.workers[i := Exited])
    case FinishTask(i) =>
      m.(pool := Pool.Apply(capacity, m.pool, Finish(m.workers[i].task)), workers := m.workers[i := Notifying])
    case NotifyDone(i) => NotifyAll(m.(workers := m.workers[i := Ready]))
    case WakeUp(i) => m.(workers := m.workers[i := Ready])
    case StartClose =>
      m.(pool := Pool.Apply(capacity, m.pool, BeginClose), closer := if m.pool.accepting then Checking else m.closer)
    case AwaitQuiet => m.(closer := Waiting)
    case ResumeClose => m.(closer := Checking)
    case EndDrain(timedOut) => m.(pool := Pool.Apply(capacity, m.pool, GiveUp(timedOut)), closer := Signalling)
    case SignalEnd => NotifyAll(m.(closer := Closed))
  }

  function Start(workerCount: nat): Machine { Machine(INITIAL, seq(workerCount, _ => Ready), Open, 0) }

  ghost predicate Next(capacity: nat, m: Machine, m': Machine) { exists v :: CanMove(m, v) && m' == Do(capacity, m, v) }

  ghost predicate Path(capacity: nat, ms: seq<Machine>)
  {
    ms != [] && forall i, j | 0 <= i && j == i + 1 < |ms| :: Next(capacity, ms[i], ms[j])
  }

  ghost predicate PathTo(capacity: nat, ms: seq<Machine>, m: Machine) { Path(capacity, ms) && ms[|ms| - 1] == m }

  ghost predicate Leads(capacity: nat, m: Machine, m': Machine)
  {
    exists ms :: PathTo(capacity, ms, m') && ms[0] == m
  }

  ghost predicate Happens(capacity: nat, workerCount: nat, m: Machine) { Leads(capacity, Start(workerCount), m) }

  // --- The invariant -----------------------------------------------------------------

  predicate IsAwake(w: Worker) { !w.Asleep? && !w.Exited? }

  ghost predicate SomeoneAwake(m: Machine) { exists i :: 0 <= i < |m.workers| && IsAwake(m.workers[i]) }

  ghost predicate CloserInv(m: Machine)
  {
    (m.closer == Open <==> m.pool.accepting) && (m.closer == Closed || m.closer == Signalling <==> !m.pool.draining)
  }

  /** While submissions are accepted, queued work has an awake worker or a notification
      under way. */
  ghost predicate WakeInv(m: Machine)
  {
    m.pool.accepting && m.pool.tasks != [] ==> m.notifies > 0 || SomeoneAwake(m)
  }

  /** A closer asleep un-notified has work to wait for or a worker about to notify it; a
      worker asleep once the drain is over is about to be notified by the closer. */
  ghost predicate SleepInv(m: Machine)
  {
    && (m.closer == Waiting ==>
          m.pool.tasks != [] || m.pool.active > 0 || exists i :: 0 <= i < |m.workers| && m.workers[i] == Notifying)
    && (forall i | 0 <= i < |m.workers| && m.workers[i] == Asleep :: m.pool.draining || m.closer == Signalling)
  }

  ghost predicate MachineInv(capacity: nat, workerCount: nat, m: Machine)
  {
    && Reachable(capacity, m.pool) && |m.workers| == workerCount
    && CrewInv(m.pool, m.workers) && CloserInv(m) && WakeInv(m) && SleepInv(m)
  }

  lemma MoveKeepsSleep(capacity: nat, m: Machine, v: Move)
    requires capacity >= 1 && CrewInv(m.pool, m.workers) && CloserInv(m) && SleepInv(m) && CanMove(m, v)
    ensures SleepInv(Do(capacity, m, v))
  {
    var m' := Do(capacity, m, v);
    if v.FinishTask? {
      assert m'.workers[v.worker] == Notifying;
    } else if m.closer == Waiting && exists i :: 0 <= i < |m.workers| && m.workers[i] == Notifying {
      var i :| 0 <= i < |m.workers| && m.workers[i] == Notifying;
      assert v.NotifyDone? || m'.workers[i] == Notifying;
    }
  }

  lemma NotifyKeepsInv(capacity: nat, workerCount: nat, m: Machine, target: Target)
    requires capacity >= 1 && workerCount >= 1 && MachineInv(capacity, workerCount, m)
    requires CanMove(m, NotifyOne(target))
    ensures MachineInv(capacity, workerCount, Do(capacity, m, NotifyOne(target)))
  {
    ReachableInv(capacity, m.pool);
    MoveKeepsSleep(capacity, m, NotifyOne(target));
    var m' := Do(capacity, m, NotifyOne(target));
    match target
    case Nobody =>
      if m.pool.accepting { assert IsAwake(m'.workers[0]); }
    case ToWorker(i) =>
      MoveKeepsCrew(m.pool, m.workers, i, Ready);
      assert IsAwake(m'.workers[i]);
    case ToCloser =>
  }

  /** A move of worker `i` alone that leaves it awake. */
  lemma WorkerStaysAwake(m: Machine, i: nat, w: Worker)
    requires i < |m.workers| && IsAwake(w)
    ensures SomeoneAwake(m.(workers := m.workers[i := w]))
  {
    assert IsAwake(m.workers[i := w][i]);
  }

  lemma NotifyAllKeepsAwake(m: Machine)
    requires SomeoneAwake(m)
    ensures SomeoneAwake(NotifyAll(m))
  {
    var i :| 0 <= i < |m.workers| && IsAwake(m.workers[i]);
    assert IsAwake(NotifyAll(m).workers[i]);
  }

  lemma MoveKeepsInv(capacity: nat, workerCount: nat, m: Machine, v: Move)
    requires capacity >= 1 && workerCount >= 1 && MachineInv(capacity, workerCount, m) && CanMove(m, v)
    ensures MachineInv(capacity, workerCount, Do(capacity, m, v))
  {
    ReachableInv(capacity, m.pool);
    MoveKeepsSleep(capacity, m, v);
    match v
    case SubmitTask(due) =>
      PoolStep(capacity, m.pool, Submit(due));
      PoolMoveKeepsCrew(capacity, m.pool, m.workers, Submit(due));
    case NotifyOne(target) => NotifyKeepsInv(capacity, workerCount, m, target);
    case TakeTask(i) =>
      PoolStep(capacity, m.pool, Take);
      TakeKeepsCrew(capacity, m.pool, m.workers, i);
      WorkerStaysAwake(m, i, Running(m.pool.tasks[0]));
    case GoToSleep(i) => MoveKeepsCrew(m.pool, m.workers, i, Asleep);
    case Leave(i) => MoveKeepsCrew(m.pool, m.workers, i, Exited);
    case FinishTask(i) =>
      PoolStep(capacity, m.pool, Finish(m.workers[i].task));
      FinishKeepsCrew(capacity, m.pool, m.workers, i, Notifying);
      WorkerStaysAwake(m, i, Notifying);
    case NotifyDone(i) =>
      MoveKeepsCrew(m.pool, m.workers, i, Ready);
      WakeAllKeepsCrew(m.pool, m.workers[i := Ready]);
      WorkerStaysAwake(m, i, Ready);
      NotifyAllKeepsAwake(m.(workers := m.workers[i := Ready]));
    case WakeUp(i) =>
      MoveKeepsCrew(m.pool, m.workers, i, Ready);
      WorkerStaysAwake(m, i, Ready);
    case StartClose =>
      PoolStep(capacity, m.pool, BeginClose);
      PoolMoveKeepsCrew(capacity, m.pool, m.workers, BeginClose);
    case AwaitQuiet =>
    case ResumeClose =>
    case EndDrain(timedOut) =>
      PoolStep(capacity, m.pool, GiveUp(timedOut));
      PoolMoveKeepsCrew(capacity, m.pool, m.workers, GiveUp(timedOut));
    case SignalEnd => WakeAllKeepsCrew(m.pool, m.workers);
  }

  lemma {:induction false} PathKeepsInv(capacity: nat, workerCount: nat, ms: seq<Machine>, k: nat)
    requires capacity >= 1 && workerCount >= 1 && Path(capacity, ms) && k < |ms|
    requires MachineInv(capacity, workerCount, ms[0])
    ensures MachineInv(capacity, workerCount, ms[k])
  {
    if k > 0 {
      PathKeepsInv(capacity, workerCount, ms, k - 1);
      assert Next(capacity, ms[k - 1], ms[k]);
      var v :| CanMove(ms[k - 1], v) && ms[k] == Do(capacity, ms[k - 1], v);
      MoveKeepsInv(capacity, workerCount, ms[k - 1], v);
    }
  }

  lemma HappensInv(capacity: nat, workerCount: nat, m: Machine)
    requires capacity >= 1 && workerCount >= 1 && Happens(capacity, workerCount, m)
    ensures MachineInv(capacity, workerCount, m)
  {
    var ms :| PathTo(capacity, ms, m) && ms[0] == Start(workerCount);
    InitialIsReachable(capacity);
    NoneRunning(workerCount);
    PathKeepsInv(capacity, workerCount, ms, |ms| - 1);
  }

  /** While accepting, a queued task has an awake worker, or a submit that still has to
      notify; the running tasks are those the pool counts, at most one a worker. */
  lemma NoLostWakeUpWhileAccepting(capacity: nat, workerCount: nat, m: Machine)
    requires capacity >= 1 && workerCount >= 1 && Happens(capacity, workerCount, m)
    ensures m.pool.accepting && m.pool.tasks != [] ==> m.notifies > 0 || SomeoneAwake(m)
    ensures m.pool.active == RunningCount(m.workers) <= workerCount
    ensures Reachable(capacity, m.pool)
  {
    HappensInv(capacity, workerCount, m);
  }

  /** In every reachable state a closer asleep un-notified has something to wait for, or a
      worker is about to notify it; once the drain is over no worker sleeps for longer than
      the closer takes to notify it. */
  lemma SleepersHaveAReason(capacity: nat, workerCount: nat, m: Machine)
    requires capacity >= 1 && workerCount >= 1 && Happens(capacity, workerCount, m)
    ensures m.closer == Waiting ==>
              m.pool.tasks != [] || m.pool.active > 0 || exists i :: 0 <= i < |m.workers| && m.workers[i] == Notifying
    ensures !m.pool.draining && m.closer != Signalling ==> forall i | 0 <= i < |m.workers| :: m.workers[i] != Asleep
  {
    HappensInv(capacity, workerCount, m);
  }

  lemma LeadsStep(capacity: nat, m: Machine, m': Machine, v: Move)
    requires Leads(capacity, m, m') && CanMove(m', v)
    ensures Leads(capacity, m, Do(capacity, m', v))
  {
    var ms :| PathTo(capacity, ms, m') && ms[0] == m;
    var more := ms + [Do(capacity, m', v)];
    assert Next(capacity, m', Do(capacity, m', v));
    assert PathTo(capacity, more, Do(capacity, m', v)) && more[0] == m;
  }

  lemma LeadsNowhere(capacity: nat, m: Machine)
    ensures Leads(capacity, m, m)
  {
    assert PathTo(capacity, [m], m) && [m][0] == m;
  }

  // --- Nobody is stuck -------------------------------------------------------------------

  /** Whoever has not left has a move of its own, if only a spurious wake-up, and the closer
      one until it is done. */
  lemma NobodyIsStuck(capacity: nat, m: Machine, i: nat)
    requires i < |m.workers| && m.workers[i] != Exited
    ensures exists v :: CanMove(m, v) && Do(capacity, m, v).workers[i] != m.workers[i]
    ensures m.closer != Open && m.closer != Closed ==>
              exists v :: CanMove(m, v) && Do(capacity, m, v).closer != m.closer
  {
    var v := match m.workers[i]
      case Ready => if m.pool.tasks != [] then TakeTask(i) else if m.pool.draining then GoToSleep(i) else Leave(i)
      case Asleep => WakeUp(i)
      case Running(_) => FinishTask(i)
      case _ => NotifyDone(i);
    assert CanMove(m, v) && Do(capacity, m, v).workers[i] != m.workers[i];
    if m.closer != Open && m.closer != Closed {
      var w := if m.closer == Checking then EndDrain(true) else if m.closer == Waiting then ResumeClose else SignalEnd;
      assert CanMove(m, w) && Do(capacity, m, w).closer != m.closer;
    }
  }

  /** `s` comes after `m`, with no task added, evicted or abandoned in between. */
  ghost predicate Later(capacity: nat, workerCount: nat, m: Machine, s: Machine)
  {
    && Leads(capacity, m, s) && MachineInv(capacity, workerCount, s)
    && s.pool.accepted == m.pool.accepted && s.pool.evicted == m.pool.evicted
    && s.pool.abandoned == m.pool.abandoned && s.pool.accepting == m.pool.accepting
  }

  lemma OneLater(capacity: nat, workerCount: nat, m: Machine, s: Machine, v: Move)
    requires capacity >= 1 && workerCount >= 1 && Later(capacity, workerCount, m, s) && CanMove(s, v)
    requires !v.SubmitTask? && !v.StartClose? && (v.EndDrain? ==> s.pool.tasks == [])
    ensures Later(capacity, workerCount, m, Do(capacity, s, v))
  {
    LeadsStep(capacity, m, s, v);
    MoveKeepsInv(capacity, workerCount, s, v);
    assert v.EndDrain? ==> s.pool.abandoned + [] == s.pool.abandoned;
  }

  /** Until the drain is over, whatever is queued or running can still be finished. */
  lemma {:induction false} WorkCanFinish(capacity: nat, workerCount: nat, m: Machine, s: Machine) returns (t: Machine)
    requires capacity >= 1 && workerCount >= 1 && Later(capacity, workerCount, m, s) && s.pool.draining
    ensures Later(capacity, workerCount, m, t) && t.pool.draining && t.pool.tasks == [] && t.pool.active == 0
    decreases 2 * |s.pool.tasks| + s.pool.active
  {
    if s.pool.active > 0 {
      var i := SomeoneRuns(s.workers);
      OneLater(capacity, workerCount, m, s, FinishTask(i));
      t := WorkCanFinish(capacity, workerCount, m, Do(capacity, s, FinishTask(i)));
    } else if s.pool.tasks != [] {
      NoneRuns(s.workers, 0);
      var ready := s;
      if s.workers[0] != Ready {
        var v := if s.workers[0] == Asleep then WakeUp(0) else NotifyDone(0);
        OneLater(capacity, workerCount, m, s, v);
        ready := Do(capacity, s, v);
      }
      OneLater(capacity, workerCount, m, ready, TakeTask(0));
      t := WorkCanFinish(capacity, workerCount, m, Do(capacity, ready, TakeTask(0)));
    } else {
      t := s;
    }
  }

  /** From every reachable state before the drain is over, every accepted task that was not
      evicted can still finish, and a close under way can end without abandoning any. */
  lemma EverythingCanFinish(capacity: nat, workerCount: nat, m: Machine)
    requires capacity >= 1 && workerCount >= 1 && Happens(capacity, workerCount, m) && m.pool.draining
    ensures exists s :: Leads(capacity, m, s) && s.pool.accepted == m.pool.accepted
              && s.pool.evicted == m.pool.evicted && s.pool.abandoned == [] && s.pool.tasks == [] && s.pool.active == 0
              && (!m.pool.accepting ==> s.closer == Closed)
  {
    HappensInv(capacity, workerCount, m);
    ReachableInv(capacity, m.pool);
    LeadsNowhere(capacity, m);
    var s := WorkCanFinish(capacity, workerCount, m, m);
    if !m.pool.accepting {
      s := CloseCanEnd(capacity, workerCount, m, s);
    }
  }

  lemma CloseCanEnd(capacity: nat, workerCount: nat, m: Machine, s: Machine) returns (t: Machine)
    requires capacity >= 1 && workerCount >= 1 && Later(capacity, workerCount, m, s) && s.pool.draining
    requires s.pool.tasks == [] && s.pool.active == 0 && !s.pool.accepting
    ensures Later(capacity, workerCount, m, t) && t.closer == Closed && t.pool.tasks == [] && t.pool.active == 0
  {
    t := s;
    if t.closer == Waiting {
      OneLater(capacity, workerCount, m, t, ResumeClose);
      t := Do(capacity, t, ResumeClose);
    }
    OneLater(capacity, workerCount, m, t, EndDrain(false));
    t := Do(capacity, t, EndDrain(false));
    OneLater(capacity, workerCount, m, t, SignalEnd);
    t := Do(capacity, t, SignalEnd);
  }

  // --- The pool of a run -----------------------------------------------------------------

  function Pools(ms: seq<Machine>): (ps: seq<State>)
    ensures |ps| == |ms| && forall i | 0 <= i < |ms| :: ps[i] == ms[i].pool
  {
    seq(|ms|, i requires 0 <= i < |ms| => ms[i].pool)
  }

  lemma MoveStepsPool(capacity: nat, m: Machine, v: Move)
    requires CrewInv(m.pool, m.workers) && CloserInv(m) && CanMove(m, v)
    ensures Step(capacity, m.pool, Do(capacity, m, v).pool)
  {
    match v
    case SubmitTask(due) => assert Enabled(m.pool, Submit(due));
    case TakeTask(i) => assert Enabled(m.pool, Take);
    case FinishTask(i) => assert Enabled(m.pool, Finish(m.workers[i].task));
    case StartClose => assert Enabled(m.pool, BeginClose);
    case EndDrain(timedOut) => assert Enabled(m.pool, GiveUp(timedOut));
    case _ =>
  }

  /** The pools of a run make a run of the pool, so all that is proved of those holds here. */
  lemma PathIsAPoolExecution(capacity: nat, workerCount: nat, ms: seq<Machine>)
    requires capacity >= 1 && workerCount >= 1 && Path(capacity, ms) && Happens(capacity, workerCount, ms[0])
    ensures Execution(capacity, Pools(ms))
  {
    var ps := Pools(ms);
    HappensInv(capacity, workerCount, ms[0]);
    forall i, j | 0 <= i && j == i + 1 < |ps| ensures Step(capacity, ps[i], ps[j]) {
      PathKeepsInv(capacity, workerCount, ms, i);
      assert Next(capacity, ms[i], ms[j]);
      var v :| CanMove(ms[i], v) && ms[j] == Do(capacity, ms[i], v);
      MoveStepsPool(capacity, ms[i], v);
    }
  }

  /** Close is final: once the drain gave up, in every continuation nothing starts, and at
      most one task a worker still finishes. */
  lemma CloseIsFinal(capacity: nat, workerCount: nat, ms: seq<Machine>, k: nat)
    requires capacity >= 1 && workerCount >= 1 && Path(capacity, ms) && Happens(capacity, workerCount, ms[0])
    requires !ms[0].pool.draining && k < |ms|
    ensures Settled(ms[0].pool, ms[k].pool)
    ensures |ms[k].pool.finished| <= |ms[0].pool.finished| + RunningCount(ms[0].workers)
         <= |ms[0].pool.finished| + workerCount
  {
    HappensInv(capacity, workerCount, ms[0]);
    PathIsAPoolExecution(capacity, workerCount, ms);
    OnlyTheRunningFinish(capacity, Pools(ms), k);
  }

  // --- A close can swallow a wake-up -----------------------------------------------------

  ghost predicate AllAsleep(m: Machine) { forall i | 0 <= i < |m.workers| :: m.workers[i] == Asleep }

  /** Work is queued and the drain is open, but every thread sleeps and no notification
      is under way. */
  ghost predicate Stranded(m: Machine)
  {
    m.pool.tasks != [] && m.pool.draining && AllAsleep(m) && m.closer == Waiting && m.notifies == 0
  }

  /** From there only the closer's deadline or a spurious wake-up moves anything. */
  lemma OnlyTimeMovesStranded(capacity: nat, m: Machine, v: Move)
    requires Stranded(m) && CloserInv(m) && CanMove(m, v)
    ensures Do(capacity, m, v) == m || v == ResumeClose || v.WakeUp?
  {
  }

  /** After the close has begun, work that has an awake worker keeps one. */
  ghost predicate Attended(m: Machine)
  {
    !m.pool.accepting && (m.pool.tasks != [] ==> SomeoneAwake(m))
  }

  lemma MoveKeepsAttended(capacity: nat, m: Machine, v: Move)
    requires Attended(m) && CanMove(m, v)
    ensures Attended(Do(capacity, m, v))
  {
    if m.pool.tasks != [] {
      var k :| 0 <= k < |m.workers| && IsAwake(m.workers[k]);
      var m' := Do(capacity, m, v);
      assert m'.pool.tasks == [] || IsAwake(m'.workers[k]);
    }
  }

  lemma {:induction false} PathKeepsAttended(capacity: nat, ms: seq<Machine>, k: nat)
    requires Path(capacity, ms) && k < |ms| && Attended(ms[0])
    ensures Attended(ms[k])
  {
    if k > 0 {
      PathKeepsAttended(capacity, ms, k - 1);
      assert Next(capacity, ms[k - 1], ms[k]);
      var v :| CanMove(ms[k - 1], v) && ms[k] == Do(capacity, ms[k - 1], v);
      MoveKeepsAttended(capacity, ms[k - 1], v);
    }
  }

  /** Each late notification can wake the closer, who goes back to sleep. */
  lemma {:induction false} CloserSwallowsNotifications(capacity: nat, m: Machine, m': Machine)
    requires Leads(capacity, m, m') && m'.pool.tasks != [] && m'.pool.draining && AllAsleep(m') && m'.closer == Waiting
    ensures exists s :: Stranded(s) && Leads(capacity, m, s)
    decreases m'.notifies
  {
    if m'.notifies > 0 {
      LeadsStep(capacity, m, m', NotifyOne(ToCloser));
      var woken := Do(capacity, m', NotifyOne(ToCloser));
      LeadsStep(capacity, m, woken, AwaitQuiet);
      CloserSwallowsNotifications(capacity, m, Do(capacity, woken, AwaitQuiet));
    } else {
      assert Stranded(m');
    }
  }

  /** Exactly when a close can strand queued work until its deadline: it begins while
      work is queued and every worker is asleep, that is, while the notification of a
      submit is still to come. */
  lemma WhenACloseCanStrandWork(capacity: nat, workerCount: nat, m: Machine)
    requires capacity >= 1 && workerCount >= 1 && Happens(capacity, workerCount, m) && m.pool.accepting
    ensures (exists s :: Stranded(s) && Leads(capacity, Do(capacity, m, StartClose), s))
       <==> m.pool.tasks != [] && AllAsleep(m)
    ensures m.pool.tasks != [] && AllAsleep(m) ==> m.notifies > 0
  {
    HappensInv(capacity, workerCount, m);
    ReachableInv(capacity, m.pool);
    var c := Do(capacity, m, StartClose);
    LeadsNowhere(capacity, c);
    if m.pool.tasks != [] && AllAsleep(m) {
      LeadsStep(capacity, c, c, AwaitQuiet);
      CloserSwallowsNotifications(capacity, c, Do(capacity, c, AwaitQuiet));
    } else {
      AttendedWhenClosing(m);
      assert Attended(c);
      forall s | Stranded(s) ensures !Leads(capacity, c, s) {
        if Leads(capacity, c, s) {
          var ms :| PathTo(capacity, ms, s) && ms[0] == c;
          PathKeepsAttended(capacity, ms, |ms| - 1);
        }
      }
    }
  }

  lemma AttendedWhenClosing(m: Machine)
    requires CrewInv(m.pool, m.workers) && m.pool.draining && (m.pool.tasks == [] || !AllAsleep(m))
    ensures m.pool.tasks != [] ==> SomeoneAwake(m)
  {
    if m.pool.tasks != [] {
      var i :| 0 <= i < |m.workers| && m.workers[i] != Asleep;
      assert IsAwake(m.workers[i]);
    }
  }

  /** It does happen, with the default pair of workers and any queue. */
  lemma StrandingHappens(capacity: nat)
    requires capacity >= 1
    ensures exists m, s :: Happens(capacity, 2, m) && m.pool.accepting && Stranded(s)
                        && Leads(capacity, Do(capacity, m, StartClose), s)
  {
    var m0 := Start(2);
    LeadsNowhere(capacity, m0);
    LeadsStep(capacity, m0, m0, GoToSleep(0));
    var m1 := Do(capacity, m0, GoToSleep(0));
    LeadsStep(capacity, m0, m1, GoToSleep(1));
    var m2 := Do(capacity, m1, GoToSleep(1));
    LeadsStep(capacity, m0, m2, SubmitTask(false));
    var m3 := Do(capacity, m2, SubmitTask(false));
    assert AllAsleep(m3) && m3.pool.tasks == [0];
    WhenACloseCanStrandWork(capacity, 2, m3);
    var s :| Stranded(s) && Leads(capacity, Do(capacity, m3, StartClose), s);
  }
}
