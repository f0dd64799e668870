/** The state the Rust dispatcher keeps behind its mutex, and its drop logger. Each
    method is one critical section and performs one action of `Pool`. */
module RustState {
  import opened Pool
  import opened Wrappers

  /** Counts every dropped incident but reports at most once an interval. */
  class RateLimitedDropLogger {
    const interval: int
    var dropped: nat
    var startedAt: int

    constructor (interval: int, now: int)
      ensures this.interval == interval && dropped == 0 && startedAt == now
    {
      this.interval := interval;
      dropped, startedAt := 0, now;
    }

    /** `now` is when the elapsed time is read, `later` when the next interval starts. */
    method RecordDrop(now: int, later: int) returns (report: Option<nat>)
      requires now <= later
      modifies this
      ensures report.Some? <==> now - old(startedAt) >= interval
      ensures old(dropped) + 1 == dropped + (if report.Some? then report.value else 0)
      ensures report.Some? ==> dropped == 0 && startedAt - old(startedAt) >= interval
      ensures report.None? ==> startedAt == old(startedAt)
    {
      dropped := dropped + 1;
      if now - startedAt < interval {
        return None;
      }
      var count := dropped;
      dropped := 0;
      startedAt := later;
      report := Some(count);
    }
  }

  class Shared {
    const capacity: nat
    const dropLogger: RateLimitedDropLogger
    var tasks: seq<Task>
    var accepting: bool
    var draining: bool
    var active: int

    ghost var accepted: nat
    ghost var started: seq<Task>
    ghost var finished: set<Task>
    ghost var evicted: seq<Task>
    ghost var abandoned: seq<Task>
    ghost var reports: seq<nat>

    /** The state of the pool, with its history. */
    ghost function Now(): State
      reads this, dropLogger
    {
      State(tasks, accepting, draining, active, dropLogger.dropped,
            accepted, started, finished, evicted, abandoned, reports)
    }

    ghost predicate Valid()
      reads this, dropLogger
    {
      capacity >= 1 && Inv(capacity, Now())
    }

    lemma InitialIsValid()
      requires capacity >= 1 && Now() == INITIAL
      ensures Valid()
    {
      InitialInv(capacity);
      var now := Now();
      assert Inv(capacity, now);
    }

    constructor (capacity: nat, dropLogger: RateLimitedDropLogger)
      requires capacity >= 1 && dropLogger.dropped == 0
      ensures Valid() && Now() == INITIAL && this.capacity == capacity && this.dropLogger == dropLogger
    {
      this.capacity, this.dropLogger := capacity, dropLogger;
      tasks, accepting, draining, active := [], true, true, 0;
      accepted, started, finished, evicted, abandoned, reports := 0, [], {}, [], [], [];
      new;
      InitialIsValid();
    }

    /** The oldest task makes room, and its drop is counted. */
    method EvictOldest(now: int, later: int) returns (report: Option<nat>)
      requires tasks != [] && |tasks| >= capacity && now <= later
      modifies `tasks, `evicted, `reports, dropLogger
      ensures Now() == Evict(capacity, old(Now()), report.Some?)
      ensures reports == old(reports) + if report.Some? then [report.value] else []
      ensures report.Some? <==> now - old(dropLogger.startedAt) >= dropLogger.interval
    {
      evicted := evicted + tasks[..1];
      tasks := tasks[1..];
      report := dropLogger.RecordDrop(now, later);
      if report.Some? {
        reports := reports + [report.value];
      }
    }

    /** The locked part of submit; `task` is named by the order of acceptance. */
    method Submit(task: Task, now: int, later: int) returns (ok: bool, report: Option<nat>)
      requires Valid() && task == accepted && now <= later
      modifies this, dropLogger
      ensures Valid() && ok == old(accepting)
      ensures exists due :: Now() == Pool.Apply(capacity, old(Now()), Pool.Submit(due))
      ensures ok ==> tasks != [] && tasks[|tasks| - 1] == task
      ensures reports == old(reports) + if report.Some? then [report.value] else []
      ensures report.Some? <==>
                ok && |old(tasks)| >= capacity && now - old(dropLogger.startedAt) >= dropLogger.interval
    {
      ghost var before := Now();
      report := None;
      if !accepting {
        assert Now() == Pool.Apply(capacity, before, Pool.Submit(false));
        return false, None;
      }
      if |tasks| >= capacity {
        report := EvictOldest(now, later);
      }
      assert Now() == Evict(capacity, before, report.Some?);
      tasks := tasks + [task];
      accepted := accepted + 1;
      ok := true;
      assert Now() == Pool.Apply(capacity, before, Pool.Submit(report.Some?));
      StepKeepsInv(capacity, before, Pool.Submit(report.Some?));
    }

    /** A worker takes the oldest task, if there is one. */
    method Take() returns (task: Option<Task>)
      requires Valid()
      modifies this
      ensures Valid() && (task.Some? <==> old(tasks) != [])
      ensures task.Some? ==> task.value == old(tasks)[0] && Now() == Pool.Apply(capacity, old(Now()), Pool.Take)
      ensures task.None? ==> Now() == old(Now())
    {
      ghost var before := Now();
      if tasks == [] {
        return None;
      }
      task := Some(tasks[0]);
      tasks := tasks[1..];
      active := active + 1;
      started := started + [task.value];
      assert Now() == Pool.Apply(capacity, before, Pool.Take);
      StepKeepsInv(capacity, before, Pool.Take);
    }

    method Finish(ghost task: Task)
      requires Valid() && task in started && task !in finished
      modifies this
      ensures Valid() && Now() == Pool.Apply(capacity, old(Now()), Pool.Finish(task))
    {
      ghost var before := Now();
      active := active - 1;
      finished := finished + {task};
      assert Now() == Pool.Apply(capacity, before, Pool.Finish(task));
      StepKeepsInv(capacity, before, Pool.Finish(task));
    }

    /** The first section of close: only the first caller goes on to drain. */
    method BeginClose() returns (first: bool)
      requires Valid()
      modifies this
      ensures Valid() && first == old(accepting) && Now() == Pool.Apply(capacity, old(Now()), Pool.BeginClose)
    {
      ghost var before := Now();
      first := accepting;
      accepting := false;
      StepKeepsInv(capacity, before, Pool.BeginClose);
    }

    /** The end of drain_until: how many tasks were abandoned. */
    method GiveUp(ghost timedOut: bool) returns (count: nat)
      requires Valid() && Enabled(Now(), Pool.GiveUp(timedOut))
      modifies this
      ensures Valid() && Now() == Pool.Apply(capacity, old(Now()), Pool.GiveUp(timedOut))
      ensures count == |abandoned| == accepted - |started| - |evicted|
    {
      ghost var before := Now();
      draining := false;
      count := |tasks|;
      abandoned := abandoned + tasks;
      tasks := [];
      StepKeepsInv(capacity, before, Pool.GiveUp(timedOut));
    }
  }
}
