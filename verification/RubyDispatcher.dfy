/** The Ruby dispatcher: every broadcast is sent while the mutex is held, so each step
    is one critical section. */
module RubyDispatcher {
  import opened Pool
  import opened Crew

  datatype Machine = Machine(pool: State, workers: seq<Worker>, closer: Closer)

  datatype Move =
    | SubmitTask(due: bool)
    | TakeTask(worker: nat)
    | GoToSleep(worker: nat)
    | Leave(worker: nat)
    | FinishTask(worker: nat)
    | WakeUp(worker: nat)        // spuriously
    | StartClose
    | AwaitQuiet
    | ResumeClose                // spuriously, or because the wait timed out
    | EndDrain(timedOut: bool)

  ghost predicate CanMove(m: Machine, v: Move)
  {
    match v
    case SubmitTask(_) => true
    case TakeTask(i) => IsAt(m.workers, i, Ready) && m.pool.tasks != []
    case GoToSleep(i) => IsAt(m.workers, i, Ready) && m.pool.tasks == [] && m.pool.draining
    case Leave(i) => IsAt(m.workers, i, Ready) && m.pool.tasks == [] && !m.pool.draining
    case FinishTask(i) => i < |m.workers| && m.workers[i].Running?
    case WakeUp(i) => IsAt(m.workers, i, Asleep)
    case StartClose => true
    case AwaitQuiet => m.closer == Checking && !IsQuiet(m.pool)
    case ResumeClose => m.closer == Waiting
    case EndDrain(timedOut) => m.closer == Checking && (timedOut || IsQuiet(m.pool))
  }

  function Broadcast(m: Machine): Machine { m.(workers := WakeAll(m.workers), closer := WakeCloser(m.closer)) }

  ghost function Do(capacity: nat, m: Machine, v: Move): Machine
    requires CanMove(m, v)
  {
    match v
    case SubmitTask(due) =>
      var m' := m.(pool := Pool.Apply(capacity, m.pool, Submit(due)));
      if m.pool.accepting then Broadcast(m') else m'
    case TakeTask(i) =>
      m.(pool := Pool.Apply(capacity, m.pool, Take), workers := m.workers[i := Running(m.pool.tasks[0])])
    case GoToSleep(i) => m.(workers := m.workers[i := Asleep])
    case Leave(i) => m.(workers := m.workers[i := Exited])
    case FinishTask(i) =>
      Broadcast(m.(pool := Pool.Apply(capacity, m.pool, Finish(m.workers[i].task)), workers := m.workers[i := Ready]))
    case WakeUp(i) => m.(workers := m.workers[i := Ready])
    case StartClose =>
      m.(pool := Pool.Apply(capacity, m.pool, BeginClose), closer := if m.pool.accepting then Checking else m.closer)
    case AwaitQuiet => m.(closer := Waiting)
    case ResumeClose => m.(closer := Checking)
    case EndDrain(timedOut) =>
      Broadcast(m.(pool := Pool.Apply(capacity, m.pool, GiveUp(timedOut)), closer := Closed))
  }

  function Start(workerCount: nat): Machine { Machine(INITIAL, seq(workerCount, _ => Ready), Open) }

  ghost predicate Next(capacity: nat, m: Machine, m': Machine) { exists v :: CanMove(m, v) && m' == Do(capacity, m, v) }

  ghost predicate Path(capacity: nat, ms: seq<Machine>)
  {
    ms != [] && forall i, j | 0 <= i && j == i + 1 < |ms| :: Next(capacity, ms[i], ms[j])
  }

  ghost predicate Run(capacity: nat, workerCount: nat, ms: seq<Machine>)
  {
    Path(capacity, ms) && ms[0] == Start(workerCount)
  }

  // --- The invariant -----------------------------------------------------------------

  ghost predicate CloserInv(m: Machine)
  {
    (m.closer == Open <==> m.pool.accepting) && (m.closer == Closed <==> !m.pool.draining) && m.closer != Signalling
  }

  /** No wake-up is lost: whoever sleeps un-notified has nothing to do. */
  ghost predicate SleepersAreIdle(m: Machine)
  {
    && (forall i | 0 <= i < |m.workers| && m.workers[i].Asleep? :: m.pool.tasks == [] && m.pool.draining)
    && (m.closer == Waiting ==> !IsQuiet(m.pool))
  }

  ghost predicate MachineInv(capacity: nat, workerCount: nat, m: Machine)
  {
    && Reachable(capacity, m.pool) && |m.workers| == workerCount
    && CrewInv(m.pool, m.workers) && CloserInv(m) && SleepersAreIdle(m)
  }

  lemma SubmitKeepsInv(capacity: nat, workerCount: nat, m: Machine, due: bool)
    requires capacity >= 1 && MachineInv(capacity, workerCount, m)
    ensures MachineInv(capacity, workerCount, Do(capacity, m, SubmitTask(due)))
  {
    PoolStep(capacity, m.pool, Submit(due));
    PoolMoveKeepsCrew(capacity, m.pool, m.workers, Submit(due));
    WakeAllKeepsCrew(Pool.Apply(capacity, m.pool, Submit(due)), m.workers);
  }

  lemma FinishKeepsInv(capacity: nat, workerCount: nat, m: Machine, i: nat)
    requires capacity >= 1 && MachineInv(capacity, workerCount, m) && CanMove(m, FinishTask(i))
    ensures MachineInv(capacity, workerCount, Do(capacity, m, FinishTask(i)))
  {
    var a := Finish(m.workers[i].task);
    PoolStep(capacity, m.pool, a);
    FinishKeepsCrew(capacity, m.pool, m.workers, i, Ready);
    WakeAllKeepsCrew(Pool.Apply(capacity, m.pool, a), m.workers[i := Ready]);
  }

  lemma EndDrainKeepsInv(capacity: nat, workerCount: nat, m: Machine, timedOut: bool)
    requires capacity >= 1 && MachineInv(capacity, workerCount, m) && CanMove(m, EndDrain(timedOut))
    ensures MachineInv(capacity, workerCount, Do(capacity, m, EndDrain(timedOut)))
  {
    PoolStep(capacity, m.pool, GiveUp(timedOut));
    PoolMoveKeepsCrew(capacity, m.pool, m.workers, GiveUp(timedOut));
    WakeAllKeepsCrew(Pool.Apply(capacity, m.pool, GiveUp(timedOut)), m.workers);
  }

  lemma MoveKeepsInv(capacity: nat, workerCount: nat, m: Machine, v: Move)
    requires capacity >= 1 && MachineInv(capacity, workerCount, m) && CanMove(m, v)
    ensures MachineInv(capacity, workerCount, Do(capacity, m, v))
  {
    match v
    case SubmitTask(due) => SubmitKeepsInv(capacity, workerCount, m, due);
    case TakeTask(i) =>
      ReachableInv(capacity, m.pool);
      PoolStep(capacity, m.pool, Take);
      TakeKeepsCrew(capacity, m.pool, m.workers, i);
      Bookkeeping(capacity, m.pool);
    case GoToSleep(i) => MoveKeepsCrew(m.pool, m.workers, i, Asleep);
    case Leave(i) => MoveKeepsCrew(m.pool, m.workers, i, Exited);
    case FinishTask(i) => FinishKeepsInv(capacity, workerCount, m, i);
    case WakeUp(i) => MoveKeepsCrew(m.pool, m.workers, i, Ready);
    case StartClose =>
      PoolStep(capacity, m.pool, BeginClose);
      PoolMoveKeepsCrew(capacity, m.pool, m.workers, BeginClose);
    case AwaitQuiet =>
    case ResumeClose =>
    case EndDrain(timedOut) => EndDrainKeepsInv(capacity, workerCount, m, timedOut);
  }

  lemma {:induction false} PathKeepsInv(capacity: nat, workerCount: nat, ms: seq<Machine>, k: nat)
    requires capacity >= 1 && Path(capacity, ms) && MachineInv(capacity, workerCount, ms[0]) && k < |ms|
    ensures MachineInv(capacity, workerCount, ms[k])
  {
    if k > 0 {
      PathKeepsInv(capacity, workerCount, ms, k - 1);
      assert Next(capacity, ms[k - 1], ms[k]);
      var v :| CanMove(ms[k - 1], v) && ms[k] == Do(capacity, ms[k - 1], v);
      MoveKeepsInv(capacity, workerCount, ms[k - 1], v);
    }
  }

  lemma RunKeepsInv(capacity: nat, workerCount: nat, ms: seq<Machine>, k: nat)
    requires capacity >= 1 && Run(capacity, workerCount, ms) && k < |ms|
    ensures MachineInv(capacity, workerCount, ms[k])
  {
    InitialIsReachable(capacity);
    NoneRunning(workerCount);
    PathKeepsInv(capacity, workerCount, ms, k);
  }

  // --- What every run promises ---------------------------------------------------------

  /** No lost wake-up: a worker asleep un-notified has an empty queue and an open drain,
      a closer asleep un-notified has queued or running work; so while work is queued
      every worker is awake, and as many workers run as tasks are active. */
  lemma NoLostWakeUp(capacity: nat, workerCount: nat, ms: seq<Machine>, k: nat)
    requires capacity >= 1 && Run(capacity, workerCount, ms) && k < |ms|
    ensures SleepersAreIdle(ms[k])
    ensures ms[k].pool.tasks != [] ==>
              forall i | 0 <= i < |ms[k].workers| :: !ms[k].workers[i].Asleep? && !ms[k].workers[i].Exited?
    ensures ms[k].pool.active == RunningCount(ms[k].workers) <= workerCount
  {
    RunKeepsInv(capacity, workerCount, ms, k);
    ReachableInv(capacity, ms[k].pool);
  }

  /** The pool inside a run is a reachable pool, so all that is proved of those holds here. */
  lemma PoolOfARunIsReachable(capacity: nat, workerCount: nat, ms: seq<Machine>, k: nat)
    requires capacity >= 1 && Run(capacity, workerCount, ms) && k < |ms|
    ensures Reachable(capacity, ms[k].pool)
  {
    RunKeepsInv(capacity, workerCount, ms, k);
  }

  // --- The pool of a run -----------------------------------------------------------------

  function Pools(ms: seq<Machine>): (ps: seq<State>)
    ensures |ps| == |ms| && forall i | 0 <= i < |ms| :: ps[i] == ms[i].pool
  {
    seq(|ms|, i requires 0 <= i < |ms| => ms[i].pool)
  }

  lemma MoveStepsPool(capacity: nat, m: Machine, v: Move)
    requires CrewInv(m.pool, m.workers) && CloserInv(m) && CanMove(m, v)
    ensures Step(capacity, m.pool, Do(capacity, m, v).pool)
  {
    match v
    case SubmitTask(due) => assert Enabled(m.pool, Submit(due));
    case TakeTask(i) => assert Enabled(m.pool, Take);
    case FinishTask(i) => assert Enabled(m.pool, Finish(m.workers[i].task));
    case StartClose => assert Enabled(m.pool, BeginClose);
    case EndDrain(timedOut) => assert Enabled(m.pool, GiveUp(timedOut));
    case _ =>
  }

  /** The pools of a run make a run of the pool, so all that is proved of those holds here. */
  lemma PathIsAPoolExecution(capacity: nat, workerCount: nat, ms: seq<Machine>)
    requires capacity >= 1 && Path(capacity, ms) && MachineInv(capacity, workerCount, ms[0])
    ensures Execution(capacity, Pools(ms))
  {
    var ps := Pools(ms);
    forall i, j | 0 <= i && j == i + 1 < |ps| ensures Step(capacity, ps[i], ps[j]) {
      PathKeepsInv(capacity, workerCount, ms, i);
      assert Next(capacity, ms[i], ms[j]);
      var v :| CanMove(ms[i], v) && ms[j] == Do(capacity, ms[i], v);
      MoveStepsPool(capacity, ms[i], v);
    }
  }

  /** Close is final: once the drain gave up, in every continuation nothing starts, and at
      most one task a worker still finishes. */
  lemma CloseIsFinal(capacity: nat, workerCount: nat, ms: seq<Machine>, k: nat)
    requires capacity >= 1 && Path(capacity, ms) && MachineInv(capacity, workerCount, ms[0])
    requires !ms[0].pool.draining && k < |ms|
    ensures Settled(ms[0].pool, ms[k].pool)
    ensures |ms[k].pool.finished| <= |ms[0].pool.finished| + RunningCount(ms[0].workers)
         <= |ms[0].pool.finished| + workerCount
  {
    PathIsAPoolExecution(capacity, workerCount, ms);
    OnlyTheRunningFinish(capacity, Pools(ms), k);
  }

  // --- Nobody is stuck -------------------------------------------------------------------

  /** Whoever has not left has a move of its own, if only a spurious wake-up, and the closer
      one until it is done. */
  lemma NobodyIsStuck(capacity: nat, m: Machine, i: nat)
    requires i < |m.workers| && (m.workers[i].Ready? || m.workers[i].Asleep? || m.workers[i].Running?)
    ensures exists v :: CanMove(m, v) && (Do(capacity, m, v).workers[i] != m.workers[i])
    ensures m.closer == Checking || m.closer == Waiting ==>
              exists v :: CanMove(m, v) && Do(capacity, m, v).closer != m.closer
  {
    var v := match m.workers[i]
      case Ready => if m.pool.tasks != [] then TakeTask(i) else if m.pool.draining then GoToSleep(i) else Leave(i)
      case Asleep => WakeUp(i)
      case _ => FinishTask(i);
    assert CanMove(m, v) && Do(capacity, m, v).workers[i] != m.workers[i];
    if m.closer == Checking || m.closer == Waiting {
      var w := if m.closer == Checking then EndDrain(true) else ResumeClose;
      assert CanMove(m, w) && Do(capacity, m, w).closer != m.closer;
    }
  }

  ghost predicate PathTo(capacity: nat, ms: seq<Machine>, m: Machine) { Path(capacity, ms) && ms[|ms| - 1] == m }

  ghost predicate Leads(capacity: nat, m: Machine, m': Machine)
  {
    exists ms :: PathTo(capacity, ms, m') && ms[0] == m
  }

  /** `s` comes after `m`, with no task added, evicted or abandoned in between. */
  ghost predicate Later(capacity: nat, workerCount: nat, m: Machine, s: Machine)
  {
    && Leads(capacity, m, s) && MachineInv(capacity, workerCount, s) && IdleOrBusy(s)
    && s.pool.accepted == m.pool.accepted && s.pool.evicted == m.pool.evicted
    && s.pool.abandoned == m.pool.abandoned && s.pool.accepting == m.pool.accepting
  }

  /** In Ruby a worker notifies inside the section that finishes its task. */
  ghost predicate IdleOrBusy(m: Machine) { forall i | 0 <= i < |m.workers| :: m.workers[i] != Notifying }

  lemma OneLater(capacity: nat, workerCount: nat, m: Machine, s: Machine, v: Move)
    requires capacity >= 1 && Later(capacity, workerCount, m, s) && CanMove(s, v)
    requires !v.SubmitTask? && !v.StartClose? && (v.EndDrain? ==> s.pool.tasks == [])
    ensures Later(capacity, workerCount, m, Do(capacity, s, v))
  {
    var ms :| PathTo(capacity, ms, s) && ms[0] == m;
    var s' := Do(capacity, s, v);
    assert Next(capacity, s, s');
    assert PathTo(capacity, ms + [s'], s') && (ms + [s'])[0] == m;
    MoveKeepsInv(capacity, workerCount, s, v);
    assert v.EndDrain? ==> s.pool.abandoned + [] == s.pool.abandoned;
  }

  /** Until the drain is over, whatever is queued or running can still be finished. */
  lemma {:induction false} WorkCanFinish(capacity: nat, workerCount: nat, m: Machine, s: Machine) returns (t: Machine)
    requires capacity >= 1 && workerCount >= 1 && Later(capacity, workerCount, m, s) && s.pool.draining
    ensures Later(capacity, workerCount, m, t) && t.pool.draining && t.pool.tasks == [] && t.pool.active == 0
    decreases 2 * |s.pool.tasks| + s.pool.active
  {
    if s.pool.active > 0 {
      var i := SomeoneRuns(s.workers);
      OneLater(capacity, workerCount, m, s, FinishTask(i));
      t := WorkCanFinish(capacity, workerCount, m, Do(capacity, s, FinishTask(i)));
    } else if s.pool.tasks != [] {
      NoneRuns(s.workers, 0);
      OneLater(capacity, workerCount, m, s, TakeTask(0));
      t := WorkCanFinish(capacity, workerCount, m, Do(capacity, s, TakeTask(0)));
    } else {
      t := s;
    }
  }

  lemma {:induction false} PathIsIdleOrBusy(capacity: nat, ms: seq<Machine>, k: nat)
    requires Path(capacity, ms) && IdleOrBusy(ms[0]) && k < |ms|
    ensures IdleOrBusy(ms[k])
  {
    if k > 0 {
      PathIsIdleOrBusy(capacity, ms, k - 1);
      assert Next(capacity, ms[k - 1], ms[k]);
    }
  }

  /** From every point of a run before the drain is over, every accepted task that was not
      evicted can still finish, and a close under way can end without abandoning any. */
  lemma EverythingCanFinish(capacity: nat, workerCount: nat, ms: seq<Machine>, k: nat)
    requires capacity >= 1 && workerCount >= 1 && Run(capacity, workerCount, ms) && k < |ms| && ms[k].pool.draining
    ensures exists s :: Leads(capacity, ms[k], s) && s.pool.accepted == ms[k].pool.accepted
              && s.pool.evicted == ms[k].pool.evicted && s.pool.abandoned == [] && s.pool.tasks == []
              && s.pool.active == 0 && (!ms[k].pool.accepting ==> s.closer == Closed)
  {
    var m := ms[k];
    RunKeepsInv(capacity, workerCount, ms, k);
    PathIsIdleOrBusy(capacity, ms, k);
    ReachableInv(capacity, m.pool);
    assert PathTo(capacity, [m], m) && [m][0] == m;
    var s := WorkCanFinish(capacity, workerCount, m, m);
    if !m.pool.accepting {
      s := CloseCanEnd(capacity, workerCount, m, s);
    }
  }

  lemma CloseCanEnd(capacity: nat, workerCount: nat, m: Machine, s: Machine) returns (t: Machine)
    requires capacity >= 1 && Later(capacity, workerCount, m, s) && s.pool.draining
    requires s.pool.tasks == [] && s.pool.active == 0 && !s.pool.accepting
    ensures Later(capacity, workerCount, m, t) && t.closer == Closed && t.pool.tasks == [] && t.pool.active == 0
  {
    OneLater(capacity, workerCount, m, s, EndDrain(false));
    t := Do(capacity, s, EndDrain(false));
  }
}
