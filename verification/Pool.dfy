/** The bounded drop-oldest pool that the Rust and Ruby dispatchers guard with one
    mutex: one action per critical section, and what holds in every reachable state. */
module Pool {

  /** A task is named by its position in the order of acceptance. */
  type Task = nat

  datatype State = State(
    // What the dispatcher holds.
    tasks: seq<Task>, accepting: bool, draining: bool, active: int, held: nat,
    // What has happened so far.
    accepted: nat, started: seq<Task>, finished: set<Task>, evicted: seq<Task>, abandoned: seq<Task>, reports: seq<nat>)

  datatype Action =
    | Submit(due: bool)
    | Take
    | Finish(task: Task)
    | BeginClose
    | GiveUp(timedOut: bool)

  const INITIAL := State([], true, true, 0, 0, 0, [], {}, [], [], [])

  /** One drop recorded: counted, and reported with everything held when due. */
  function RecordDrop(s: State, due: bool): State
  {
    if due then s.(held := 0, reports := s.reports + [s.held + 1]) else s.(held := s.held + 1)
  }

  /** The oldest queued task makes room when the queue is full. */
  function Evict(capacity: nat, s: State, due: bool): State
  {
    if |s.tasks| >= capacity then
      var n := if s.tasks == [] then 0 else 1;
      RecordDrop(s, due).(tasks := s.tasks[n..], evicted := s.evicted + s.tasks[..n])
    else s
  }

  ghost predicate Enabled(s: State, a: Action)
  {
    match a
    case Submit(_) => true
    case Take => s.tasks != []
    case Finish(t) => t in s.started && t !in s.finished
    case BeginClose => true
    case GiveUp(timedOut) => !s.accepting && s.draining && (timedOut || (s.tasks == [] && s.active <= 0))
  }

  function Apply(capacity: nat, s: State, a: Action): State
    requires a.Take? ==> s.tasks != []
  {
    match a
    case Submit(due) =>
      if !s.accepting then s
      else
        var e := Evict(capacity, s, due);
        e.(tasks := e.tasks + [s.accepted], accepted := s.accepted + 1)
    case Take => s.(tasks := s.tasks[1..], active := s.active + 1, started := s.started + [s.tasks[0]])
    case Finish(t) => s.(active := s.active - 1, finished := s.finished + {t})
    case BeginClose => s.(accepting := false)
    case GiveUp(_) => s.(draining := false, abandoned := s.abandoned + s.tasks, tasks := [])
  }

  // --- The invariant ---------------------------------------------------------------

  function Sum(ns: seq<nat>): nat { if ns == [] then 0 else Sum(ns[..|ns| - 1]) + ns[|ns| - 1] }

  /** Neither started nor evicted: queued, or abandoned once the drain gave up. */
  function Pending(s: State): seq<Task> { s.abandoned + s.tasks }

  ghost predicate Increasing(ts: seq<Task>) { forall i, j | 0 <= i < j < |ts| :: ts[i] < ts[j] }

  /** `ts` is the run of tasks from `low` up to `high`. */
  ghost predicate IsRun(ts: seq<Task>, low: nat, high: nat)
  {
    low + |ts| == high && forall i | 0 <= i < |ts| :: ts[i] == low + i
  }

  /** The oldest task that is neither started nor evicted. */
  function Low(s: State): int { s.accepted - |Pending(s)| }

  ghost predicate QueueInv(capacity: nat, s: State)
  {
    && |s.tasks| <= capacity
    && |Pending(s)| <= s.accepted && IsRun(Pending(s), Low(s), s.accepted)
    && (s.draining ==> s.abandoned == [])
    && (!s.draining ==> s.tasks == [] && !s.accepting)
  }

  /** Every older task was started or evicted, never both, in order of acceptance. */
  ghost predicate FateInv(capacity: nat, s: State)
  {
    && Increasing(s.started) && Increasing(s.evicted)
    && (forall t | t in s.started :: t < Low(s) && t !in s.evicted)
    && (forall t | t in s.evicted :: t < Low(s) && t + capacity < s.accepted)
    && (forall t: nat | t < Low(s) :: t in s.started || t in s.evicted)
    && |s.started| + |s.evicted| == Low(s)
  }

  ghost predicate CountInv(s: State)
  {
    && (forall t | t in s.finished :: t in s.started)
    && s.active == |s.started| - |s.finished|
    && |s.evicted| == s.held + Sum(s.reports)
  }

  ghost predicate Inv(capacity: nat, s: State) { QueueInv(capacity, s) && FateInv(capacity, s) && CountInv(s) }

  lemma SumSnoc(ns: seq<nat>, n: nat)
    ensures Sum(ns + [n]) == Sum(ns) + n
  {
    assert (ns + [n])[..|ns|] == ns;
  }

  lemma InitialInv(capacity: nat)
    ensures Inv(capacity, INITIAL)
  {
  }

  /** Room was made for one more task. */
  ghost predicate RoomInv(capacity: nat, e: State)
  {
    && |e.tasks| < capacity && e.accepting && QueueInv(capacity, e) && CountInv(e)
    && Increasing(e.started) && Increasing(e.evicted)
    && (forall t | t in e.started :: t < Low(e) && t !in e.evicted)
    && (forall t | t in e.evicted :: t < Low(e) && t + capacity <= e.accepted)
    && (forall t: nat | t < Low(e) :: t in e.started || t in e.evicted)
    && |e.started| + |e.evicted| == Low(e)
  }

  lemma EvictedFates(capacity: nat, s: State, e: State)
    requires Inv(capacity, s) && s.draining && s.tasks != [] && |s.tasks| >= capacity
    requires e.tasks == s.tasks[1..] && e.evicted == s.evicted + [s.tasks[0]] && e.started == s.started
    requires e.abandoned == s.abandoned && e.accepted == s.accepted && e.draining && e.accepting == s.accepting
    ensures QueueInv(capacity, e) && Increasing(e.evicted)
    ensures forall t | t in e.started :: t < Low(e) && t !in e.evicted
    ensures forall t | t in e.evicted :: t < Low(e) && t + capacity <= e.accepted
    ensures forall t: nat | t < Low(e) :: t in e.started || t in e.evicted
    ensures |e.started| + |e.evicted| == Low(e)
  {
    assert Pending(s) == s.tasks && Pending(e) == e.tasks;
    assert s.tasks[0] == Low(s) && Low(e) == Low(s) + 1;
    assert forall i | 0 <= i < |s.evicted| :: s.evicted[i] in s.evicted;
    assert forall i | 0 <= i < |e.tasks| :: e.tasks[i] == s.tasks[i + 1];
    assert forall t :: t in e.evicted <==> t in s.evicted || t == s.tasks[0];
  }

  lemma EvictInv(capacity: nat, s: State, due: bool)
    requires capacity >= 1 && Inv(capacity, s) && s.accepting
    ensures RoomInv(capacity, Evict(capacity, s, due))
  {
    if |s.tasks| >= capacity {
      assert s.tasks[..1] == [s.tasks[0]];
      EvictedFates(capacity, s, Evict(capacity, s, due));
      SumSnoc(s.reports, s.held + 1);
    }
  }

  lemma PushKeepsInv(capacity: nat, e: State)
    requires RoomInv(capacity, e)
    ensures Inv(capacity, e.(tasks := e.tasks + [e.accepted], accepted := e.accepted + 1))
  {
    var s' := e.(tasks := e.tasks + [e.accepted], accepted := e.accepted + 1);
    assert Pending(e) == e.tasks && Pending(s') == e.tasks + [e.accepted];
    assert Low(s') == Low(e);
  }

  lemma SubmitKeepsInv(capacity: nat, s: State, due: bool)
    requires capacity >= 1 && Inv(capacity, s)
    ensures Inv(capacity, Apply(capacity, s, Submit(due)))
  {
    if s.accepting {
      EvictInv(capacity, s, due);
      PushKeepsInv(capacity, Evict(capacity, s, due));
    }
  }

  lemma TakeKeepsInv(capacity: nat, s: State)
    requires Inv(capacity, s) && s.tasks != []
    ensures Inv(capacity, Apply(capacity, s, Take))
  {
    var s' := Apply(capacity, s, Take);
    assert Pending(s) == s.tasks && Pending(s') == s.tasks[1..];
    assert s.tasks[0] == Low(s) && Low(s') == Low(s) + 1;
    assert forall i | 0 <= i < |s.started| :: s.started[i] in s.started;
    assert forall i | 0 <= i < |s'.tasks| :: s'.tasks[i] == s.tasks[i + 1];
    assert forall t :: t in s'.started <==> t in s.started || t == s.tasks[0];
  }

  lemma GiveUpKeepsInv(capacity: nat, s: State, timedOut: bool)
    requires Inv(capacity, s) && Enabled(s, GiveUp(timedOut))
    ensures Inv(capacity, Apply(capacity, s, GiveUp(timedOut)))
  {
    var s' := Apply(capacity, s, GiveUp(timedOut));
    assert Pending(s') == Pending(s);
  }

  /** Every critical section keeps the invariant. */
  lemma StepKeepsInv(capacity: nat, s: State, a: Action)
    requires capacity >= 1 && Inv(capacity, s) && Enabled(s, a)
    ensures Inv(capacity, Apply(capacity, s, a))
  {
    match a
    case Submit(due) => SubmitKeepsInv(capacity, s, due);
    case Take => TakeKeepsInv(capacity, s);
    case Finish(t) => assert Pending(Apply(capacity, s, a)) == Pending(s);
    case BeginClose => assert Pending(Apply(capacity, s, a)) == Pending(s);
    case GiveUp(timedOut) => GiveUpKeepsInv(capacity, s, timedOut);
  }

  // --- Runs --------------------------------------------------------------------------

  ghost predicate Step(capacity: nat, s: State, s': State)
  {
    s' == s || exists a :: Enabled(s, a) && s' == Apply(capacity, s, a)
  }

  /** A run from any state; steps of the surrounding threads may leave the pool alone. */
  ghost predicate Execution(capacity: nat, run: seq<State>)
  {
    run != [] && forall i, j | 0 <= i && j == i + 1 < |run| :: Step(capacity, run[i], run[j])
  }

  ghost predicate RunTo(capacity: nat, run: seq<State>, s: State)
  {
    Execution(capacity, run) && run[0] == INITIAL && run[|run| - 1] == s
  }

  ghost predicate Reachable(capacity: nat, s: State) { exists run :: RunTo(capacity, run, s) }

  lemma StepInv(capacity: nat, s: State, s': State)
    requires capacity >= 1 && Step(capacity, s, s') && Inv(capacity, s)
    ensures Inv(capacity, s')
  {
    if s' != s {
      var a :| Enabled(s, a) && s' == Apply(capacity, s, a);
      StepKeepsInv(capacity, s, a);
    }
  }

  lemma {:induction false} RunInv(capacity: nat, run: seq<State>, k: nat)
    requires capacity >= 1 && Execution(capacity, run) && run[0] == INITIAL && k < |run|
    ensures Inv(capacity, run[k])
  {
    if k == 0 {
      InitialInv(capacity);
    } else {
      RunInv(capacity, run, k - 1);
      StepInv(capacity, run[k - 1], run[k]);
    }
  }

  lemma ReachableInv(capacity: nat, s: State)
    requires capacity >= 1 && Reachable(capacity, s)
    ensures Inv(capacity, s)
  {
    var run :| RunTo(capacity, run, s);
    RunInv(capacity, run, |run| - 1);
  }

  lemma InitialIsReachable(capacity: nat)
    ensures Reachable(capacity, INITIAL)
  {
    assert RunTo(capacity, [INITIAL], INITIAL);
  }

  lemma StepIsReachable(capacity: nat, s: State, s': State)
    requires Reachable(capacity, s) && Step(capacity, s, s')
    ensures Reachable(capacity, s')
  {
    var run :| RunTo(capacity, run, s);
    assert RunTo(capacity, run + [s'], s');
  }

  // --- What every reachable state promises ---------------------------------------------

  function Fates(s: State, t: Task): nat
  {
    (if t in s.tasks then 1 else 0) + (if t in s.started && t !in s.finished then 1 else 0)
    + (if t in s.finished then 1 else 0) + (if t in s.evicted then 1 else 0) + (if t in s.abandoned then 1 else 0)
  }

  /** Conservation: each accepted task is in exactly one of queued, running, finished,
      evicted and abandoned, and no other task is anywhere. */
  lemma EveryTaskHasOneFate(capacity: nat, s: State, t: Task)
    requires capacity >= 1 && Reachable(capacity, s)
    ensures Fates(s, t) == if t < s.accepted then 1 else 0
  {
    ReachableInv(capacity, s);
    var p := Pending(s);
    assert t in p <==> t in s.abandoned || t in s.tasks;
    if Low(s) <= t < s.accepted {
      assert p[t - Low(s)] == t;
    }
  }

  /** The bookkeeping: a bounded queue that is a run of the acceptance order, running
      tasks counted, every eviction reported or still held back. */
  lemma Bookkeeping(capacity: nat, s: State)
    requires capacity >= 1 && Reachable(capacity, s)
    ensures |s.tasks| <= capacity
    ensures forall i | 0 <= i < |s.tasks| :: s.tasks[i] == s.accepted - |s.tasks| + i
    ensures s.active == |s.started| - |s.finished| >= 0
    ensures |s.evicted| == Sum(s.reports) + s.held
    ensures s.accepted == |s.tasks| + |s.started| + |s.evicted| + |s.abandoned|
  {
    ReachableInv(capacity, s);
    if s.draining {
      assert Pending(s) == s.tasks;
    }
    FinishedIsBounded(s.started, s.finished);
  }

  lemma {:induction false} FinishedIsBounded(started: seq<Task>, finished: set<Task>)
    requires forall t | t in finished :: t in started
    ensures |finished| <= |started|
    decreases |started|
  {
    if started == [] {
      assert finished == {};
    } else {
      var last := |started| - 1;
      FinishedIsBounded(started[..last], finished - {started[last]});
    }
  }

  /** Tasks start in the order they were accepted. */
  lemma StartsAreFifo(capacity: nat, s: State, i: nat, j: nat)
    requires capacity >= 1 && Reachable(capacity, s) && i < j < |s.started|
    ensures s.started[i] < s.started[j] < s.accepted
  {
    ReachableInv(capacity, s);
    assert s.started[j] in s.started;
  }

  /** The newest `capacity` accepted tasks are never evicted. */
  lemma NewestAreNeverEvicted(capacity: nat, s: State, t: Task)
    requires capacity >= 1 && Reachable(capacity, s) && t in s.evicted
    ensures t + capacity < s.accepted && t !in s.started
  {
    ReachableInv(capacity, s);
  }

  /** A task is evicted exactly when the `capacity`-th task after it is accepted while
      it is still queued. */
  lemma EvictionDistance(capacity: nat, s: State, due: bool, t: Task)
    requires capacity >= 1 && Reachable(capacity, s) && s.accepting
    ensures var s' := Apply(capacity, s, Submit(due));
            t in s'.evicted && t !in s.evicted <==> t in s.tasks && t + capacity == s.accepted
  {
    ReachableInv(capacity, s);
    assert Pending(s) == s.tasks;
    assert |s.tasks| >= capacity ==> s.tasks[..1] == [s.tasks[0]];
    if t in s.tasks && t + capacity == s.accepted {
      assert s.tasks[0] == t;
    }
    if t in s.tasks {
      assert t >= Low(s);
    }
  }

  /** Drops are counted one for one exactly when the queue can hold a task: a queue
      of capacity 0 counts a drop although it evicts nothing. */
  lemma DropsAreEvictions(capacity: nat)
    ensures (forall s | Reachable(capacity, s) :: |s.evicted| == Sum(s.reports) + s.held) <==> capacity >= 1
  {
    if capacity >= 1 {
      forall s | Reachable(capacity, s) ensures |s.evicted| == Sum(s.reports) + s.held {
        Bookkeeping(capacity, s);
      }
    } else {
      var s := Apply(capacity, INITIAL, Submit(false));
      InitialIsReachable(capacity);
      assert Enabled(INITIAL, Submit(false));
      StepIsReachable(capacity, INITIAL, s);
      assert |s.evicted| == 0 && s.held == 1 && Sum(s.reports) == 0;
    }
  }

  // --- Close is final ----------------------------------------------------------------

  /** What stays as it was when the drain gave up. */
  ghost predicate Settled(s: State, s': State)
  {
    && !s'.draining && !s'.accepting && s'.tasks == [] && s'.accepted == s.accepted && s'.started == s.started
    && s'.evicted == s.evicted && s'.abandoned == s.abandoned && s'.reports == s.reports && s'.held == s.held
    && s.finished <= s'.finished && s'.active <= s.active
  }

  lemma {:induction false} NothingStartsAfterGivingUp(capacity: nat, run: seq<State>, k: nat)
    requires capacity >= 1 && Execution(capacity, run) && k < |run|
    requires !run[0].draining && !run[0].accepting && run[0].tasks == []
    ensures Settled(run[0], run[k])
  {
    if k > 0 {
      NothingStartsAfterGivingUp(capacity, run, k - 1);
      assert Step(capacity, run[k - 1], run[k]);
    }
  }

  /** Giving up abandons exactly what was accepted and neither started nor evicted;
      a drain that did not run out of time leaves nothing queued and nothing running. */
  lemma GivingUp(capacity: nat, s: State, timedOut: bool)
    requires capacity >= 1 && Reachable(capacity, s) && Enabled(s, GiveUp(timedOut))
    ensures var s' := Apply(capacity, s, GiveUp(timedOut));
      && s'.abandoned == s.tasks && |s'.abandoned| == s'.accepted - |s'.started| - |s'.evicted|
      && (!timedOut ==> s'.abandoned == [] && s'.active == 0)
  {
    ReachableInv(capacity, s);
    Bookkeeping(capacity, s);
  }

  /** Only what ran when the drain gave up can still finish. */
  lemma OnlyTheRunningFinish(capacity: nat, run: seq<State>, k: nat)
    requires capacity >= 1 && Execution(capacity, run) && Reachable(capacity, run[0]) && !run[0].draining && k < |run|
    ensures Settled(run[0], run[k]) && |run[k].finished| <= |run[0].finished| + run[0].active
  {
    ReachableInv(capacity, run[0]);
    NothingStartsAfterGivingUp(capacity, run, k);
    StaysReachable(capacity, run, k);
    Bookkeeping(capacity, run[0]);
    Bookkeeping(capacity, run[k]);
  }

  lemma {:induction false} StaysReachable(capacity: nat, run: seq<State>, k: nat)
    requires Execution(capacity, run) && Reachable(capacity, run[0]) && k < |run|
    ensures Reachable(capacity, run[k])
  {
    if k > 0 {
      StaysReachable(capacity, run, k - 1);
      StepIsReachable(capacity, run[k - 1], run[k]);
    }
  }

  /** A second close finds the pool closed and changes nothing. */
  lemma SecondCloseIsIdle(capacity: nat, run: seq<State>, k: nat)
    requires capacity >= 1 && Execution(capacity, run) && !run[0].accepting && k < |run|
    ensures Apply(capacity, run[k], BeginClose) == run[k]
  {
    StaysClosed(capacity, run, k);
  }

  lemma {:induction false} StaysClosed(capacity: nat, run: seq<State>, k: nat)
    requires Execution(capacity, run) && !run[0].accepting && k < |run|
    ensures !run[k].accepting
  {
    if k > 0 {
      StaysClosed(capacity, run, k - 1);
      assert Step(capacity, run[k - 1], run[k]);
    }
  }
}
