/** The worker threads around a pool, and the thread that closes it. */
module Crew {
  import opened Pool

  /** Where a worker is: about to lock the mutex, waiting un-notified on the condition
      variable, running a task, about to notify that it finished one, or gone. */
  datatype Worker = Ready | Asleep | Running(task: Task) | Notifying | Exited

  /** Where the closer is: not called, about to check whether the pool is quiet, waiting
      un-notified, about to notify that the drain is over, or done. */
  datatype Closer = Open | Checking | Waiting | Signalling | Closed

  predicate IsAt(ws: seq<Worker>, i: nat, w: Worker) { i < |ws| && ws[i] == w }

  predicate IsQuiet(p: State) { p.tasks == [] && p.active <= 0 }

  function Wake(w: Worker): Worker { if w.Asleep? then Ready else w }

  function WakeAll(ws: seq<Worker>): (r: seq<Worker>)
    ensures |r| == |ws| && forall i | 0 <= i < |ws| :: r[i] == Wake(ws[i])
  {
    seq(|ws|, i requires 0 <= i < |ws| => Wake(ws[i]))
  }

  function WakeCloser(c: Closer): Closer { if c.Waiting? then Checking else c }

  function IsRunning(w: Worker): nat { if w.Running? then 1 else 0 }

  function RunningCount(ws: seq<Worker>): (n: nat)
    ensures n <= |ws|
  {
    if ws == [] then 0 else IsRunning(ws[|ws| - 1]) + RunningCount(ws[..|ws| - 1])
  }

  lemma {:induction false} RunningCountUpdate(ws: seq<Worker>, i: nat, w: Worker)
    requires i < |ws|
    ensures RunningCount(ws[i := w]) == RunningCount(ws) - IsRunning(ws[i]) + IsRunning(w)
    decreases |ws|
  {
    var last := |ws| - 1;
    if i == last {
      assert ws[i := w][..last] == ws[..last];
    } else {
      assert ws[i := w][..last] == ws[..last][i := w];
      RunningCountUpdate(ws[..last], i, w);
    }
  }

  lemma {:induction false} RunningCountWakeAll(ws: seq<Worker>)
    ensures RunningCount(WakeAll(ws)) == RunningCount(ws)
    decreases |ws|
  {
    if ws != [] {
      var last := |ws| - 1;
      assert WakeAll(ws)[..last] == WakeAll(ws[..last]);
      RunningCountWakeAll(ws[..last]);
    }
  }

  /** The workers agree with the pool about what is running. */
  ghost predicate CrewInv(p: State, ws: seq<Worker>)
  {
    && (forall i | 0 <= i < |ws| && ws[i].Running? :: ws[i].task in p.started && ws[i].task !in p.finished)
    && (forall i, j | 0 <= i < j < |ws| && ws[i].Running? && ws[j].Running? :: ws[i].task != ws[j].task)
    && p.active == RunningCount(ws)
    && (forall i | 0 <= i < |ws| && ws[i].Exited? :: !p.draining)
  }

  /** A change of place that neither starts nor ends a task. */
  lemma MoveKeepsCrew(p: State, ws: seq<Worker>, i: nat, w: Worker)
    requires CrewInv(p, ws) && i < |ws| && !ws[i].Running? && !w.Running? && (w.Exited? ==> !p.draining)
    ensures CrewInv(p, ws[i := w])
  {
    RunningCountUpdate(ws, i, w);
  }

  lemma TakeKeepsCrew(capacity: nat, p: State, ws: seq<Worker>, i: nat)
    requires Inv(capacity, p) && CrewInv(p, ws) && i < |ws| && !ws[i].Running? && p.tasks != []
    ensures CrewInv(Pool.Apply(capacity, p, Take), ws[i := Running(p.tasks[0])])
  {
    var t := p.tasks[0];
    RunningCountUpdate(ws, i, Running(t));
    assert Pending(p) == p.tasks && t == Low(p);
  }

  lemma FinishKeepsCrew(capacity: nat, p: State, ws: seq<Worker>, i: nat, w: Worker)
    requires CrewInv(p, ws) && i < |ws| && ws[i].Running? && (w.Ready? || w.Notifying?)
    ensures CrewInv(Pool.Apply(capacity, p, Finish(ws[i].task)), ws[i := w])
  {
    RunningCountUpdate(ws, i, w);
  }

  lemma WakeAllKeepsCrew(p: State, ws: seq<Worker>)
    requires CrewInv(p, ws)
    ensures CrewInv(p, WakeAll(ws))
  {
    RunningCountWakeAll(ws);
  }

  /** Submitting, closing and giving up leave what is running alone. */
  lemma PoolMoveKeepsCrew(capacity: nat, p: State, ws: seq<Worker>, a: Action)
    requires CrewInv(p, ws) && (a.Submit? || a.BeginClose? || a.GiveUp?)
    ensures CrewInv(Pool.Apply(capacity, p, a), ws)
  {
  }

  lemma {:induction false} NoneRunning(n: nat)
    ensures RunningCount(seq(n, _ => Ready)) == 0
  {
    var ws: seq<Worker> := seq(n, _ => Ready);
    if n > 0 {
      assert ws[..n - 1] == seq(n - 1, _ => Ready);
      NoneRunning(n - 1);
    }
  }

  lemma PoolStep(capacity: nat, p: State, a: Action)
    requires capacity >= 1 && Reachable(capacity, p) && Enabled(p, a)
    ensures Reachable(capacity, Pool.Apply(capacity, p, a))
  {
    StepIsReachable(capacity, p, Pool.Apply(capacity, p, a));
  }

  /** A raised count has a running worker behind it. */
  lemma {:induction false} SomeoneRuns(ws: seq<Worker>) returns (i: nat)
    requires RunningCount(ws) > 0
    ensures i < |ws| && ws[i].Running?
    decreases |ws|
  {
    var last := |ws| - 1;
    if ws[last].Running? {
      i := last;
    } else {
      i := SomeoneRuns(ws[..last]);
    }
  }

  lemma {:induction false} NoneRuns(ws: seq<Worker>, i: nat)
    requires RunningCount(ws) == 0 && i < |ws|
    ensures !ws[i].Running?
    decreases |ws|
  {
    if i < |ws| - 1 {
      NoneRuns(ws[..|ws| - 1], i);
    }
  }
}
