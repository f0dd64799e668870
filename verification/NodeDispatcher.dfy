/** The Node dispatcher: a single-threaded pump over an array with a head index. A task
    may submit others and close the dispatcher while it runs up to its first suspension,
    so submit, run, close and the settling of a task re-enter one another. */
module NodeDispatcher {
  import opened Wrappers
  import Pool

  /** A task and the calls it makes before it first suspends. */
  datatype Task = Task(id: nat, calls: seq<Call>)

  datatype Call = SubmitCall(task: Task) | CloseCall

  /** An accepted task, named by its position in the order of acceptance. */
  datatype Entry = Entry(task: Task, place: nat)

  /** What the dispatcher holds, and what has become of the tasks it accepted. */
  datatype Pump = Pump(
    active: int, live: seq<Entry>, closed: bool, waiters: seq<nat>,
    accepted: seq<Task>, begun: seq<nat>, settled: nat, dropped: seq<nat>, forced: seq<nat>,
    asked: nat, released: seq<nat>)

  datatype Limits = Limits(maxConcurrency: nat, capacity: nat)

  const IDLE := Pump(0, [], false, [], [], [], 0, [], [], 0, [])

  predicate IsIdle(p: Pump) { p.active == 0 && p.live == [] }

  function Places(es: seq<Entry>): seq<nat> { seq(|es|, i requires 0 <= i < |es| => es[i].place) }

  // --- What each turn does -----------------------------------------------------------

  function Enqueue(l: Limits, p: Pump, e: Entry): Pump
  {
    if |p.live| >= l.capacity && p.live != [] then
      p.(live := p.live[1..] + [e], dropped := p.dropped + [p.live[0].place])
    else p.(live := p.live + [e])
  }

  function Submitted(l: Limits, p: Pump, t: Task): Pump
    decreases t, 1
  {
    if p.closed then p
    else
      var e := Entry(t, |p.accepted|);
      var q := p.(accepted := p.accepted + [t]);
      if p.active < l.maxConcurrency then Began(l, q, e) else Enqueue(l, q, e)
  }

  function Began(l: Limits, p: Pump, e: Entry): Pump
    decreases e.task, 0
  {
    Called(l, p.(active := p.active + 1, begun := p.begun + [e.place]), e.task.calls)
  }

  function Answered(l: Limits, p: Pump, c: Call): Pump
    decreases c, 2
  {
    match c
    case SubmitCall(t) => Submitted(l, p, t)
    case CloseCall => CloseStarted(p)
  }

  function Called(l: Limits, p: Pump, cs: seq<Call>): Pump
    decreases cs, 3
  {
    if cs == [] then p else Called(l, Answered(l, p, cs[0]), cs[1..])
  }

  function Settled(l: Limits, p: Pump): Pump
  {
    var q := p.(active := p.active - 1, settled := p.settled + 1);
    if q.live != [] then Began(l, q.(live := q.live[1..]), q.live[0])
    else if q.active == 0 then q.(waiters := [], released := q.released + q.waiters)
    else q
  }

  function Freed(p: Pump): Pump
  {
    var q := p.(active := p.active - 1, settled := p.settled + 1);
    if q.live == [] then q else q.(live := q.live[1..])
  }

  lemma SettledIsFreed(l: Limits, p: Pump)
    ensures p.live != [] ==> Settled(l, p) == Began(l, Freed(p), p.live[0])
    ensures p.live == [] && p.active == 1 ==>
              Settled(l, p) == Freed(p).(waiters := [], released := p.released + p.waiters)
    ensures p.live == [] && p.active != 1 ==> Settled(l, p) == Freed(p)
  {
  }

  /** A wait for idleness; `asked` numbers the waiters. */
  function Waited(p: Pump): Pump
  {
    if IsIdle(p) then p.(asked := p.asked + 1, released := p.released + [p.asked])
    else p.(asked := p.asked + 1, waiters := p.waiters + [p.asked])
  }

  function CloseStarted(p: Pump): Pump { if p.closed then p else Waited(p.(closed := true)) }

  function CloseEnded(p: Pump): Pump { p.(live := [], forced := p.forced + Places(p.live)) }

  // --- The invariant -----------------------------------------------------------------

  function Numbers(n: nat): seq<nat> { seq(n, i => i) }

  ghost predicate LimitsOk(l: Limits) { l.maxConcurrency >= 1 && l.capacity >= 1 }

  /** With `active` tasks running, and perhaps one slot free for a task at hand. */
  ghost predicate SlotsInv(l: Limits, p: Pump, free: nat)
  {
    // Never too many at once, never a queue longer than its capacity.
    && 0 <= p.active <= l.maxConcurrency - free && |p.live| <= l.capacity
    // Work-conserving: a task waits only while every slot is taken.
    && (p.live != [] ==> p.active == l.maxConcurrency - free)
    // Whoever waits for idleness waits for something.
    && (p.waiters != [] ==> p.active + free > 0)
    && p.released + p.waiters == Numbers(p.asked)
    && p.active + p.settled == |p.begun|
  }

  /** The tasks up to `low` began or were dropped, in order; from `high` on they are
      queued, or forced out once the dispatcher was closed. */
  ghost predicate OrderInv(l: Limits, p: Pump, low: nat, high: nat)
  {
    && high + |p.live| + |p.forced| == |p.accepted|
    && (forall i | 0 <= i < |p.live| :: p.live[i] == Entry(p.accepted[high + i], high + i))
    && (forall i | 0 <= i < |p.forced| :: p.forced[i] == high + i)
    && (p.forced != [] ==> p.closed && p.live == [])
    && FateInv(l, p.begun, p.dropped, |p.accepted|, low)
  }

  ghost predicate FateInv(l: Limits, begun: seq<nat>, dropped: seq<nat>, accepted: nat, low: nat)
  {
    && Pool.Increasing(begun) && Pool.Increasing(dropped)
    && (forall n | n in begun :: n < low && n !in dropped)
    && (forall n | n in dropped :: n < low && n + l.capacity < accepted)
    && (forall n: nat | n < low :: n in begun || n in dropped)
    && |begun| + |dropped| == low
  }

  /** The oldest accepted task that is queued or was forced out. */
  function Low(p: Pump): int { |p.accepted| - |p.live| - |p.forced| }

  ghost predicate Inv(l: Limits, p: Pump)
  {
    SlotsInv(l, p, 0) && Low(p) >= 0 && OrderInv(l, p, Low(p), Low(p))
  }

  lemma BeginsNext(l: Limits, begun: seq<nat>, dropped: seq<nat>, accepted: nat, low: nat)
    requires FateInv(l, begun, dropped, accepted, low)
    ensures FateInv(l, begun + [low], dropped, accepted, low + 1)
  {
    assert forall i | 0 <= i < |begun| :: begun[i] in begun;
    assert forall n :: n in begun + [low] <==> n in begun || n == low;
  }

  lemma DropsNext(l: Limits, begun: seq<nat>, dropped: seq<nat>, accepted: nat, low: nat)
    requires FateInv(l, begun, dropped, accepted, low) && low + l.capacity < accepted
    ensures FateInv(l, begun, dropped + [low], accepted, low + 1)
  {
    assert forall i | 0 <= i < |dropped| :: dropped[i] in dropped;
    assert forall n :: n in dropped + [low] <==> n in dropped || n == low;
  }

  lemma EnqueueKeepsInv(l: Limits, p: Pump, t: Task)
    requires LimitsOk(l) && Inv(l, p) && p.active == l.maxConcurrency && !p.closed
    ensures Inv(l, Enqueue(l, p.(accepted := p.accepted + [t]), Entry(t, |p.accepted|)))
  {
    if |p.live| >= l.capacity {
      DropsNext(l, p.begun, p.dropped, |p.accepted| + 1, Low(p));
    }
  }

  lemma {:induction false} SubmittedKeepsInv(l: Limits, p: Pump, t: Task)
    requires LimitsOk(l) && Inv(l, p)
    ensures Inv(l, Submitted(l, p, t))
    decreases t, 1
  {
    if !p.closed {
      if p.active < l.maxConcurrency {
        BeganKeepsInv(l, p.(accepted := p.accepted + [t]), Entry(t, |p.accepted|));
      } else {
        EnqueueKeepsInv(l, p, t);
      }
    }
  }

  /** A slot is free, and the oldest task neither begun nor dropped is at hand. */
  lemma {:induction false} BeganKeepsInv(l: Limits, p: Pump, e: Entry)
    requires LimitsOk(l) && SlotsInv(l, p, 1) && OrderInv(l, p, e.place, e.place + 1)
    ensures Inv(l, Began(l, p, e))
    decreases e.task, 0
  {
    BeginsNext(l, p.begun, p.dropped, |p.accepted|, e.place);
    CalledKeepsInv(l, p.(active := p.active + 1, begun := p.begun + [e.place]), e.task.calls);
  }

  lemma {:induction false} AnsweredKeepsInv(l: Limits, p: Pump, c: Call)
    requires LimitsOk(l) && Inv(l, p)
    ensures Inv(l, Answered(l, p, c))
    decreases c, 2
  {
    match c
    case SubmitCall(t) => SubmittedKeepsInv(l, p, t);
    case CloseCall => CloseKeepsInv(l, p);
  }

  lemma {:induction false} CalledKeepsInv(l: Limits, p: Pump, cs: seq<Call>)
    requires LimitsOk(l) && Inv(l, p)
    ensures Inv(l, Called(l, p, cs))
    decreases cs, 3
  {
    if cs != [] {
      AnsweredKeepsInv(l, p, cs[0]);
      CalledKeepsInv(l, Answered(l, p, cs[0]), cs[1..]);
    }
  }

  lemma CloseKeepsInv(l: Limits, p: Pump)
    requires LimitsOk(l) && Inv(l, p)
    ensures Inv(l, CloseStarted(p))
  {
    if !p.closed {
      WaitedKeepsInv(l, p.(closed := true));
    }
  }

  lemma SettledKeepsInv(l: Limits, p: Pump)
    requires LimitsOk(l) && Inv(l, p) && p.active > 0
    ensures Inv(l, Settled(l, p))
  {
    var q := p.(active := p.active - 1, settled := p.settled + 1);
    if q.live != [] {
      BeganKeepsInv(l, q.(live := q.live[1..]), q.live[0]);
    } else if q.active == 0 {
      assert q.released + q.waiters + [] == q.released + q.waiters;
    }
  }

  lemma WaitedKeepsInv(l: Limits, p: Pump)
    requires LimitsOk(l) && Inv(l, p)
    ensures Inv(l, Waited(p))
  {
    assert Numbers(p.asked + 1) == Numbers(p.asked) + [p.asked];
    assert p.released + (p.waiters + [p.asked]) == Numbers(p.asked) + [p.asked];
    if IsIdle(p) {
      assert p.waiters == [];
    }
  }

  // --- Runs --------------------------------------------------------------------------

  datatype Turn = SubmitTurn(task: Task) | SettleTurn | WaitTurn | CloseTurn | EndCloseTurn

  ghost predicate CanTake(p: Pump, v: Turn)
  {
    match v
    case SettleTurn => p.active > 0
    case EndCloseTurn => p.closed
    case _ => true
  }

  function Take(l: Limits, p: Pump, v: Turn): Pump
  {
    match v
    case SubmitTurn(t) => Submitted(l, p, t)
    case SettleTurn => Settled(l, p)
    case WaitTurn => Waited(p)
    case CloseTurn => CloseStarted(p)
    case EndCloseTurn => CloseEnded(p)
  }

  ghost predicate Next(l: Limits, p: Pump, p': Pump) { exists v :: CanTake(p, v) && p' == Take(l, p, v) }

  ghost predicate Run(l: Limits, ps: seq<Pump>)
  {
    ps != [] && ps[0] == IDLE && forall i, j | 0 <= i && j == i + 1 < |ps| :: Next(l, ps[i], ps[j])
  }

  lemma TurnKeepsInv(l: Limits, p: Pump, v: Turn)
    requires LimitsOk(l) && Inv(l, p) && CanTake(p, v)
    ensures Inv(l, Take(l, p, v))
  {
    match v
    case SubmitTurn(t) => SubmittedKeepsInv(l, p, t);
    case SettleTurn => SettledKeepsInv(l, p);
    case WaitTurn => WaitedKeepsInv(l, p);
    case CloseTurn => CloseKeepsInv(l, p);
    case EndCloseTurn =>
  }

  lemma IdleInv(l: Limits)
    ensures Inv(l, IDLE)
  {
  }

  lemma {:induction false} RunKeepsInv(l: Limits, ps: seq<Pump>, k: nat)
    requires LimitsOk(l) && Run(l, ps) && k < |ps|
    ensures Inv(l, ps[k])
  {
    if k == 0 {
      IdleInv(l);
    } else {
      RunKeepsInv(l, ps, k - 1);
      assert Next(l, ps[k - 1], ps[k]);
      var v :| CanTake(ps[k - 1], v) && ps[k] == Take(l, ps[k - 1], v);
      TurnKeepsInv(l, ps[k - 1], v);
    }
  }

  function Fates(p: Pump, n: nat): nat
  {
    (if n in p.begun then 1 else 0) + (if n in Places(p.live) then 1 else 0)
    + (if n in p.dropped then 1 else 0) + (if n in p.forced then 1 else 0)
  }

  /** Over every run, however tasks submit tasks: at most `maxConcurrency` run, a queued
      task means every slot is taken, a pending waiter means the dispatcher is not idle,
      waiters are released in order, and each accepted task is exactly one of begun,
      queued, dropped and forced out. */
  lemma EveryRunIsWorkConserving(l: Limits, ps: seq<Pump>, k: nat, n: nat)
    requires LimitsOk(l) && Run(l, ps) && k < |ps|
    ensures var p := ps[k];
      && 0 <= p.active <= l.maxConcurrency && |p.live| <= l.capacity
      && (p.live != [] ==> p.active == l.maxConcurrency)
      && (p.waiters != [] ==> p.active > 0)
      && p.released + p.waiters == Numbers(p.asked) && (p.active == 0 ==> p.released == Numbers(p.asked))
      && p.active + p.settled == |p.begun|
      && Fates(p, n) == if n < |p.accepted| then 1 else 0
  {
    var p := ps[k];
    RunKeepsInv(l, ps, k);
    assert p.released + [] == p.released;
    var queued := Places(p.live);
    assert forall i | 0 <= i < |queued| :: queued[i] == Low(p) + i;
    if Low(p) <= n < |p.accepted| {
      if p.forced == [] {
        assert queued[n - Low(p)] == n;
      } else {
        assert p.forced[n - Low(p)] == n;
      }
    }
  }

  /** Over every run tasks begin in the order they were accepted, the queue is the newest
      run of that order, and a dropped task has at least `capacity` newer ones. */
  lemma EveryRunIsFifo(l: Limits, ps: seq<Pump>, k: nat)
    requires LimitsOk(l) && Run(l, ps) && k < |ps|
    ensures var p := ps[k];
      && (forall i, j | 0 <= i < j < |p.begun| :: p.begun[i] < p.begun[j])
      && (p.forced == [] ==>
            forall i | 0 <= i < |p.live| ::
              0 <= |p.accepted| - |p.live| + i < |p.accepted|
              && p.live[i] == Entry(p.accepted[|p.accepted| - |p.live| + i], |p.accepted| - |p.live| + i))
      && (forall n | n in p.dropped :: n + l.capacity < |p.accepted| && n !in p.begun)
      && (forall i, j | 0 <= i < |p.begun| && 0 <= j < |p.live| :: p.begun[i] < p.live[j].place)
  {
    RunKeepsInv(l, ps, k);
    var p := ps[k];
    assert forall i | 0 <= i < |p.begun| :: p.begun[i] in p.begun;
  }

  /** A submit to an open dispatcher with every slot taken queues the newcomer last; a full
      queue drops its oldest task, the one `capacity` places before, and nothing else. */
  lemma NewcomerIsKept(l: Limits, p: Pump, t: Task)
    requires LimitsOk(l) && Inv(l, p) && !p.closed && p.active == l.maxConcurrency
    ensures var q := Submitted(l, p, t);
      && q.accepted == p.accepted + [t] && q.begun == p.begun
      && q.live != [] && q.live[|q.live| - 1] == Entry(t, |p.accepted|)
      && q.dropped == p.dropped + if |p.live| < l.capacity then [] else [|p.accepted| - l.capacity]
  {
    if |p.live| >= l.capacity {
      assert p.live[0].place == Low(p);
    }
  }

  /** Calls are answered in order. */
  lemma {:induction false} CallsInOrder(l: Limits, p: Pump, a: seq<Call>, b: seq<Call>)
    ensures Called(l, p, a + b) == Called(l, Called(l, p, a), b)
    decreases |a|
  {
    if a == [] {
      assert a + b == b;
    } else {
      assert (a + b)[1..] == a[1..] + b;
      CallsInOrder(l, Answered(l, p, a[0]), a[1..], b);
    }
  }

  /** Nothing accepted is forgotten. */
  lemma {:induction false} AcceptedGrows(l: Limits, p: Pump, cs: seq<Call>)
    ensures p.accepted <= Called(l, p, cs).accepted
    decreases cs, 3
  {
    if cs != [] {
      AnswerAccepts(l, p, cs[0]);
      AcceptedGrows(l, Answered(l, p, cs[0]), cs[1..]);
    }
  }

  /** An open dispatcher accepts what it is given, next in order; a closed one nothing; and
      a close closes it. */
  lemma {:induction false} AnswerAccepts(l: Limits, p: Pump, c: Call)
    ensures p.accepted <= Answered(l, p, c).accepted
    ensures c.SubmitCall? && !p.closed ==> p.accepted + [c.task] <= Answered(l, p, c).accepted
    ensures p.closed ==> Answered(l, p, c) == p
    ensures c.CloseCall? ==> Answered(l, p, c).closed && Answered(l, p, c).accepted == p.accepted
    decreases c, 2
  {
    if c.SubmitCall? && !p.closed && p.active < l.maxConcurrency {
      AcceptsAtBeginning(l, p, c.task);
    }
  }

  lemma {:induction false} AcceptsAtBeginning(l: Limits, p: Pump, t: Task)
    requires !p.closed && p.active < l.maxConcurrency
    ensures p.accepted + [t] <= Submitted(l, p, t).accepted
    decreases t, 1
  {
    var q := p.(accepted := p.accepted + [t], active := p.active + 1, begun := p.begun + [|p.accepted|]);
    AcceptedGrows(l, q, t.calls);
  }

  /** The first close takes its place among the waiters, or need not wait when idle. */
  lemma FirstCloseWaits(p: Pump)
    requires !p.closed
    ensures var q := CloseStarted(p);
      && q.closed && q.live == p.live && q.active == p.active
      && if p.active == 0 && p.live == [] then q.released == p.released + [p.asked] && q.waiters == p.waiters
         else q.waiters == p.waiters + [p.asked] && q.released == p.released
  {
  }

  // --- Waiters --------------------------------------------------------------------------

  /** While a task runs nobody is released, whatever it calls. */
  lemma {:induction false} BusyReleasesNobody(l: Limits, p: Pump, cs: seq<Call>)
    requires p.active > 0
    ensures var q := Called(l, p, cs); q.released == p.released && q.active > 0
    decreases cs, 3
  {
    if cs != [] {
      AnswerReleasesNobody(l, p, cs[0]);
      BusyReleasesNobody(l, Answered(l, p, cs[0]), cs[1..]);
    }
  }

  lemma {:induction false} AnswerReleasesNobody(l: Limits, p: Pump, c: Call)
    requires p.active > 0
    ensures var q := Answered(l, p, c); q.released == p.released && q.active > 0
    decreases c, 2
  {
    if c.SubmitCall? {
      SubmitReleasesNobody(l, p, c.task);
    }
  }

  lemma {:induction false} SubmitReleasesNobody(l: Limits, p: Pump, t: Task)
    requires p.active >= 0
    ensures var q := Submitted(l, p, t); q.released == p.released && (p.active > 0 ==> q.active > 0)
    decreases t, 1
  {
    if !p.closed && p.active < l.maxConcurrency {
      BeginReleasesNobody(l, p.(accepted := p.accepted + [t]), Entry(t, |p.accepted|));
    }
  }

  lemma {:induction false} BeginReleasesNobody(l: Limits, p: Pump, e: Entry)
    requires p.active >= 0
    ensures var q := Began(l, p, e); q.released == p.released && q.active > 0
    decreases e.task, 0
  {
    BusyReleasesNobody(l, p.(active := p.active + 1, begun := p.begun + [e.place]), e.task.calls);
  }

  /** A turn releases waiters only when the dispatcher is idle after it, and then all. */
  lemma OnlyIdleReleases(l: Limits, p: Pump, v: Turn)
    requires LimitsOk(l) && Inv(l, p) && CanTake(p, v) && Take(l, p, v).released != p.released
    ensures IsIdle(Take(l, p, v)) && Take(l, p, v).waiters == []
  {
    TurnKeepsInv(l, p, v);
    match v
    case SubmitTurn(t) => SubmitReleasesNobody(l, p, t);
    case SettleTurn =>
      if p.live != [] {
        var q := p.(active := p.active - 1, settled := p.settled + 1, live := p.live[1..]);
        BeginReleasesNobody(l, q, p.live[0]);
      } else if p.active == 1 {
        assert IsIdle(Settled(l, p));
      }
    case _ =>
  }

  // --- After close ------------------------------------------------------------------------

  lemma {:induction false} ClosedIgnoresCalls(l: Limits, p: Pump, cs: seq<Call>)
    requires p.closed
    ensures Called(l, p, cs) == p
    decreases |cs|
  {
    if cs != [] {
      assert Answered(l, p, cs[0]) == p;
      ClosedIgnoresCalls(l, p, cs[1..]);
    }
  }

  /** Once closed, each turn only drains: nothing is accepted, dropped or queued, and a
      dispatcher that is idle stays idle, so a close that waited for idleness forces
      nothing out. */
  lemma ClosedOnlyDrains(l: Limits, p: Pump, v: Turn)
    requires LimitsOk(l) && Inv(l, p) && p.closed && CanTake(p, v)
    ensures var q := Take(l, p, v);
      && q.closed && q.accepted == p.accepted && q.dropped == p.dropped && |q.live| <= |p.live| && q.active <= p.active
      && (IsIdle(p) ==> IsIdle(q) && q.forced == p.forced)
  {
    if v.SettleTurn? && p.live != [] {
      var q := p.(active := p.active - 1, settled := p.settled + 1, live := p.live[1..]);
      ClosedIgnoresCalls(l, q.(active := q.active + 1, begun := q.begun + [p.live[0].place]), p.live[0].task.calls);
    }
  }

  // --- The array with a head index -------------------------------------------------------

  /** Slots before the head are empty, slots from it on are not. */
  ghost predicate Shape(queue: seq<Option<Entry>>, head: nat)
  {
    && head <= |queue|
    && (forall i | 0 <= i < head :: queue[i].None?)
    && (forall i | head <= i < |queue| :: queue[i].Some?)
  }

  /** The queue an array and its head stand for. */
  ghost function LiveOf(queue: seq<Option<Entry>>, head: nat): seq<Entry>
    requires Shape(queue, head)
  {
    seq(|queue| - head, i requires 0 <= i < |queue| - head => queue[head + i].value)
  }

  lemma ClearHead(queue: seq<Option<Entry>>, head: nat)
    requires Shape(queue, head) && head < |queue|
    ensures Shape(queue[head := None], head + 1)
    ensures LiveOf(queue, head) == [queue[head].value] + LiveOf(queue[head := None], head + 1)
  {
  }

  lemma Compact(queue: seq<Option<Entry>>, head: nat)
    requires Shape(queue, head)
    ensures Shape(queue[head..], 0) && LiveOf(queue[head..], 0) == LiveOf(queue, head)
  {
  }

  lemma Push(queue: seq<Option<Entry>>, head: nat, e: Entry)
    requires Shape(queue, head)
    ensures Shape(queue + [Some(e)], head) && LiveOf(queue + [Some(e)], head) == LiveOf(queue, head) + [e]
  {
  }

  // --- The dispatcher ------------------------------------------------------------------

  class AsyncDispatcher {
    const limits: Limits
    var active: int
    var closed: bool
    var queue: seq<Option<Entry>>
    var queueHead: nat
    // Tasks are named by the order of acceptance, waiters by the order of asking.
    var acceptances: nat
    var idleWaiters: seq<nat>
    var asked: nat

    ghost var history: Pump
    // Every move of the head is one dequeue or one drop.
    ghost var dequeues: nat
    ghost var drops: nat
    ghost var copied: nat

    /** The array is in shape, and compaction has copied no more than the head has moved. */
    ghost predicate Valid()
      reads this
    {
      && LimitsOk(limits) && Shape(queue, queueHead) && |queue| - queueHead <= limits.capacity
      && copied + queueHead <= dequeues + drops && acceptances == |history.accepted|
    }

    ghost function Live(): seq<Entry>
      reads this
      requires Valid()
    {
      LiveOf(queue, queueHead)
    }

    ghost function Now(): Pump
      reads this
      requires Valid()
    {
      history.(active := active, live := Live(), closed := closed, waiters := idleWaiters, asked := asked)
    }

    constructor (limits: Limits)
      requires LimitsOk(limits)
      ensures Valid() && Now() == IDLE && this.limits == limits
    {
      this.limits := limits;
      active, closed, queue, queueHead, acceptances, idleWaiters, asked := 0, false, [], 0, 0, [], 0;
      history := IDLE;
      dequeues, drops, copied := 0, 0, 0;
    }

    function QueueLength(): (n: int)
      reads this
      requires Valid()
      ensures n == |Live()|
    {
      |queue| - queueHead
    }

    /** Takes the oldest queued task, resetting or compacting the array on the way. Over
        any number of calls the slots copied are at most the dequeues and drops. */
    method Dequeue() returns (next: Option<Entry>)
      requires Valid()
      modifies `queue, `queueHead, `dequeues, `copied
      ensures Valid() && copied <= dequeues + drops
      ensures next == if old(Live()) == [] then None else Some(old(Live())[0])
      ensures Live() == if old(Live()) == [] then [] else old(Live())[1..]
      ensures dequeues == old(dequeues) + if next.Some? then 1 else 0
    {
      if queueHead >= |queue| {
        return None;
      }
      ClearHead(queue, queueHead);
      next := queue[queueHead];
      queue := queue[queueHead := None];
      queueHead := queueHead + 1;
      dequeues := dequeues + 1;
      if queueHead >= |queue| {
        queue := [];
        queueHead := 0;
      } else if queueHead > limits.capacity {
        Compact(queue, queueHead);
        queue := queue[queueHead..];
        copied := copied + |queue|;
        queueHead := 0;
      }
    }

    method DropOldest()
      requires Valid() && Live() != []
      modifies `queue, `queueHead, `drops, `history
      ensures Valid() && Live() == old(Live())[1..] && drops == old(drops) + 1
      ensures history == old(history).(dropped := old(history).dropped + [old(Live())[0].place])
    {
      ClearHead(queue, queueHead);
      history := history.(dropped := history.dropped + [Live()[0].place]);
      queue := queue[queueHead := None];
      queueHead := queueHead + 1;
      drops := drops + 1;
    }

    method Submit(task: Task)
      requires Valid()
      modifies this
      ensures Valid() && Now() == Submitted(limits, old(Now()), task)
      decreases task, 1
    {
      if closed {
        return;
      }
      var e := Entry(task, acceptances);
      history := history.(accepted := history.accepted + [task]);
      acceptances := acceptances + 1;
      if active < limits.maxConcurrency {
        Run(e);
        return;
      }
      if QueueLength() >= limits.capacity {
        DropOldest();
      }
      Push(queue, queueHead, e);
      queue := queue + [Some(e)];
    }

    /** Starts a task; the calls it makes before it suspends are handled on the way. */
    method Run(e: Entry)
      requires Valid()
      modifies this
      ensures Valid() && Now() == Began(limits, old(Now()), e)
      decreases e.task, 0
    {
      active := active + 1;
      history := history.(begun := history.begun + [e.place]);
      ghost var began := Now();
      for i := 0 to |e.task.calls|
        invariant Valid()
        invariant Called(limits, began, e.task.calls) == Called(limits, Now(), e.task.calls[i..])
      {
        assert e.task.calls[i..][1..] == e.task.calls[i + 1..];
        match e.task.calls[i]
        case SubmitCall(t) => Submit(t);
        case CloseCall => var first := StartClose();
      }
    }

    /** A running task settled, and the oldest queued one leaves the queue. */
    method Free() returns (next: Option<Entry>)
      requires Valid()
      modifies this
      ensures Valid() && Now() == Freed(old(Now()))
      ensures next == if old(Live()) == [] then None else Some(old(Live())[0])
    {
      ghost var before := Now();
      active := active - 1;
      history := history.(settled := history.settled + 1);
      ghost var counted := Now();
      assert counted == before.(active := before.active - 1, settled := before.settled + 1);
      next := Dequeue();
      assert Now() == counted.(live := Live());
    }

    /** A running task settled: the next one takes its slot, or the last one out
        releases whoever waits for idleness. */
    method Settle() returns (released: seq<nat>)
      requires Valid()
      modifies this
      ensures Valid() && Now() == Settled(limits, old(Now()))
      ensures released == if old(Live()) == [] && old(active) == 1 then old(idleWaiters) else []
    {
      released := [];
      SettledIsFreed(limits, Now());
      var next := Free();
      if next.Some? {
        Run(next.value);
      } else if active == 0 && QueueLength() == 0 {
        released := idleWaiters;
        idleWaiters := [];
        history := history.(released := history.released + released);
      }
    }

    /** True when there is nothing to wait for. */
    method WaitUntilIdle() returns (resolved: bool)
      requires Valid()
      modifies this
      ensures Valid() && Now() == Waited(old(Now())) && resolved == IsIdle(old(Now()))
    {
      resolved := active == 0 && QueueLength() == 0;
      if resolved {
        history := history.(released := history.released + [asked]);
      } else {
        idleWaiters := idleWaiters + [asked];
      }
      asked := asked + 1;
    }

    /** The part of close before it waits. */
    method StartClose() returns (first: bool)
      requires Valid()
      modifies this
      ensures Valid() && Now() == CloseStarted(old(Now())) && first == !old(closed)
    {
      if closed {
        return false;
      }
      closed := true;
      var resolved := WaitUntilIdle();
      first := true;
    }

    /** The part of close after the wait: whatever is still queued is forced out. */
    method EndClose() returns (forcedDropCount: nat)
      requires Valid()
      modifies this
      ensures Valid() && Now() == CloseEnded(old(Now())) && forcedDropCount == |old(Live())|
    {
      forcedDropCount := 0;
      if QueueLength() > 0 {
        forcedDropCount := QueueLength();
        history := history.(forced := history.forced + Places(Live()));
        queue := [];
        queueHead := 0;
      }
    }
  }
}
