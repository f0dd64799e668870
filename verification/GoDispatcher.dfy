/** The Go dispatcher: a buffered channel whose senders hold a mutex while its workers
    receive without one, so receives fall anywhere between the steps of a submit. One
    step per channel operation. */
module GoDispatcher {
  import opened Pool

  /** Who holds the mutex: nobody, a submit about to run one of its three selects, or a
      close about to close the channel. */
  datatype Holder = Free | FirstSend | Evicting | LastSend | ClosingChannel

  /** Where the close is: not begun, waiting for the workers, about to cancel after it
      counted what was queued when time ran out, or over. */
  datatype Closing = NotClosing | Draining | TimedOut(count: nat) | Drained | GaveUp(count: nat)

  /** A worker holds a received task in its hand until it has looked at the context. */
  datatype Goroutine = Idle | InHand(task: Task) | Busy(task: Task) | Gone

  datatype Machine = Machine(
    queue: seq<Task>, channelClosed: bool, closed: bool, cancelled: bool,
    holder: Holder, closing: Closing, workers: seq<Goroutine>,
    // What has happened so far.
    accepted: nat, received: seq<Task>, evicted: seq<Task>, lost: seq<Task>,
    started: set<Task>, finished: set<Task>, discarded: set<Task>, drops: nat, closes: nat, panics: nat)

  datatype Move =
    | BeginSubmit
    | TryFirstSend
    | EvictOldest
    | TryLastSend
    | Receive(worker: nat)
    | LookAtContext(worker: nat)
    | FinishTask(worker: nat)
    | Leave(worker: nat)
    | LockForClose
    | CloseChannel
    | EndDrain
    | TimeUp
    | Cancel

  predicate IsAt(ws: seq<Goroutine>, i: nat, w: Goroutine) { i < |ws| && ws[i] == w }

  ghost predicate CanMove(m: Machine, v: Move)
  {
    match v
    case BeginSubmit => m.holder == Free
    case TryFirstSend => m.holder == FirstSend
    case EvictOldest => m.holder == Evicting
    case TryLastSend => m.holder == LastSend
    case Receive(i) => IsAt(m.workers, i, Idle) && m.queue != []
    case LookAtContext(i) => i < |m.workers| && m.workers[i].InHand?
    case FinishTask(i) => i < |m.workers| && m.workers[i].Busy?
    case Leave(i) => IsAt(m.workers, i, Idle) && m.queue == [] && m.channelClosed
    case LockForClose => m.holder == Free
    case CloseChannel => m.holder == ClosingChannel
    case EndDrain => m.closing == Draining && forall i | 0 <= i < |m.workers| :: m.workers[i] == Gone
    case TimeUp => m.closing == Draining
    case Cancel => m.closing.TimedOut?
  }

  /** A send on a closed channel panics; one that finds no room leaves the choice open. */
  function Push(m: Machine): Machine
  {
    m.(queue := m.queue + [m.accepted], accepted := m.accepted + 1, holder := Free)
  }

  function Panic(m: Machine): Machine { m.(panics := m.panics + 1, holder := Free) }

  function Pull(m: Machine): Machine
    requires m.queue != []
  {
    m.(queue := m.queue[1..])
  }

  ghost function Do(capacity: nat, m: Machine, v: Move): Machine
    requires CanMove(m, v)
  {
    match v
    case BeginSubmit => if m.closed then m else m.(holder := FirstSend)
    case TryFirstSend =>
      if m.channelClosed then Panic(m)
      else if |m.queue| < capacity then Push(m)
      else m.(holder := Evicting)
    case EvictOldest =>
      if m.queue != [] then
        Pull(m).(evicted := m.evicted + [m.queue[0]], drops := m.drops + 1, holder := LastSend)
      else m.(drops := m.drops + if m.channelClosed then 1 else 0, holder := LastSend)
    case TryLastSend =>
      if m.channelClosed then Panic(m)
      else if |m.queue| < capacity then Push(m)
      else m.(lost := m.lost + [m.accepted], accepted := m.accepted + 1, drops := m.drops + 1, holder := Free)
    case Receive(i) =>
      Pull(m).(received := m.received + [m.queue[0]], workers := m.workers[i := InHand(m.queue[0])])
    case LookAtContext(i) =>
      var t := m.workers[i].task;
      if m.cancelled then m.(workers := m.workers[i := Gone], discarded := m.discarded + {t})
      else m.(workers := m.workers[i := Busy(t)], started := m.started + {t})
    case FinishTask(i) => m.(workers := m.workers[i := Idle], finished := m.finished + {m.workers[i].task})
    case Leave(i) => m.(workers := m.workers[i := Gone])
    case LockForClose => if m.closed then m else m.(closed := true, holder := ClosingChannel)
    case CloseChannel =>
      if m.channelClosed then Panic(m)
      else m.(channelClosed := true, closes := m.closes + 1, holder := Free, closing := Draining)
    case EndDrain => m.(cancelled := true, closing := Drained)
    case TimeUp => m.(closing := TimedOut(|m.queue|))
    case Cancel => m.(cancelled := true, closing := GaveUp(m.closing.count))
  }

  function Start(workerCount: nat): Machine
  {
    Machine([], false, false, false, Free, NotClosing, seq(workerCount, _ => Idle), 0, [], [], [], {}, {}, {}, 0, 0, 0)
  }

  ghost predicate Next(capacity: nat, m: Machine, m': Machine) { exists v :: CanMove(m, v) && m' == Do(capacity, m, v) }

  ghost predicate Steps(capacity: nat, ms: seq<Machine>)
  {
    ms != [] && forall i, j | 0 <= i && j == i + 1 < |ms| :: Next(capacity, ms[i], ms[j])
  }

  ghost predicate RunTo(capacity: nat, workerCount: nat, ms: seq<Machine>, m: Machine)
  {
    Steps(capacity, ms) && ms[0] == Start(workerCount) && ms[|ms| - 1] == m
  }

  ghost predicate Happens(capacity: nat, workerCount: nat, m: Machine)
  {
    exists ms :: RunTo(capacity, workerCount, ms, m)
  }

  // --- The invariant -----------------------------------------------------------------

  /** The channel: never overfull, never closed under a sender, closed at most once. */
  ghost predicate ChannelInv(capacity: nat, m: Machine)
  {
    && |m.queue| <= capacity
    && (m.closed <==> m.holder == ClosingChannel || m.channelClosed)
    && (m.channelClosed ==> m.holder == Free)
    && (m.closed && m.holder != ClosingChannel ==> m.holder == Free)
    // Only workers touch the channel between an eviction and the send after it.
    && (m.holder == LastSend ==> |m.queue| < capacity)
    && m.panics == 0 && m.lost == [] && m.drops == |m.evicted|
    && m.closes == (if m.channelClosed then 1 else 0)
    && (m.channelClosed <==> m.closing != NotClosing)
    && (m.cancelled <==> m.closing.Drained? || m.closing.GaveUp?)
  }

  function Oldest(m: Machine): int { m.accepted - |m.queue| }

  /** The queue is the newest run of what was accepted; the rest was received or evicted. */
  ghost predicate OrderInv(m: Machine)
  {
    && |m.queue| <= m.accepted && IsRun(m.queue, Oldest(m), m.accepted)
    && Increasing(m.received) && Increasing(m.evicted)
    && (forall t | t in m.received :: t < Oldest(m) && t !in m.evicted)
    && (forall t | t in m.evicted :: t < Oldest(m) && (t + 1 < m.accepted || m.holder == LastSend))
    && (forall t: nat | t < Oldest(m) :: t in m.received || t in m.evicted)
    && |m.received| + |m.evicted| == Oldest(m)
  }

  function HandCount(ws: seq<Goroutine>): (n: nat)
    ensures n <= |ws|
  {
    if ws == [] then 0 else HandCount(ws[..|ws| - 1]) + if ws[|ws| - 1].InHand? then 1 else 0
  }

  lemma {:induction false} HandCountUpdate(ws: seq<Goroutine>, i: nat, w: Goroutine)
    requires i < |ws|
    ensures HandCount(ws[i := w]) == HandCount(ws) - (if ws[i].InHand? then 1 else 0) + if w.InHand? then 1 else 0
    decreases |ws|
  {
    var last := |ws| - 1;
    if i == last {
      assert ws[i := w][..last] == ws[..last];
    } else {
      assert ws[i := w][..last] == ws[..last][i := w];
      HandCountUpdate(ws[..last], i, w);
    }
  }

  /** Every received task is in one hand, started or discarded. */
  ghost predicate HandsInv(received: seq<Task>, started: set<Task>, discarded: set<Task>, ws: seq<Goroutine>)
  {
    && (forall i | 0 <= i < |ws| && ws[i].InHand? ::
          ws[i].task in received && ws[i].task !in started && ws[i].task !in discarded)
    && (forall i, j | 0 <= i < j < |ws| && ws[i].InHand? :: ws[i] != ws[j])
    && (forall t | t in received :: t in started || t in discarded || InHand(t) in ws)
    && (forall t | t in started :: t in received && t !in discarded)
    && (forall t | t in discarded :: t in received)
    && |received| == |started| + |discarded| + HandCount(ws)
  }

  /** Every started task is with one worker or finished. */
  ghost predicate BusyInv(started: set<Task>, finished: set<Task>, ws: seq<Goroutine>)
  {
    && (forall i | 0 <= i < |ws| && ws[i].Busy? :: ws[i].task in started && ws[i].task !in finished)
    && (forall i, j | 0 <= i < j < |ws| && ws[i].Busy? :: ws[i] != ws[j])
    && (forall t | t in started :: t in finished || Busy(t) in ws)
    && finished <= started
  }

  ghost predicate WorkersInv(m: Machine)
  {
    HandsInv(m.received, m.started, m.discarded, m.workers) && BusyInv(m.started, m.finished, m.workers)
  }

  /** Accepted, not evicted and not started: queued, in a hand or discarded. */
  function NeverStarted(m: Machine): int { m.accepted - |m.started| - |m.evicted| }

  /** Workers leave a drained channel, or a cancelled one. */
  ghost predicate LeavingInv(m: Machine)
  {
    && (m.discarded != {} ==> m.closing.GaveUp?)
    && (forall i | 0 <= i < |m.workers| && m.workers[i].Gone? ::
          m.channelClosed && (m.queue == [] || m.closing.GaveUp?))
    && (m.closing.Drained? ==> forall i | 0 <= i < |m.workers| :: m.workers[i].Gone?)
  }

  ghost predicate CountInv(m: Machine)
  {
    m.closing.TimedOut? || m.closing.GaveUp? ==> NeverStarted(m) <= m.closing.count + |m.workers|
  }

  ghost predicate MachineInv(capacity: nat, workerCount: nat, m: Machine)
  {
    |m.workers| == workerCount && ChannelInv(capacity, m) && OrderInv(m) && WorkersInv(m)
    && LeavingInv(m) && CountInv(m)
  }

  // --- Every move keeps it --------------------------------------------------------------

  lemma MoveKeepsChannel(capacity: nat, m: Machine, v: Move)
    requires capacity >= 1 && ChannelInv(capacity, m) && CanMove(m, v)
    ensures ChannelInv(capacity, Do(capacity, m, v))
  {
  }

  /** The oldest queued task goes to the end of `left`, away from `stayed`. */
  ghost predicate Pulled(m: Machine, m': Machine, left: seq<Task>, left': seq<Task>, stayed: seq<Task>)
  {
    && m.queue != [] && m'.queue == m.queue[1..] && left' == left + [m.queue[0]] && m'.accepted == m.accepted
    && Increasing(left') && (forall t | t in left' :: t < Oldest(m') && t !in stayed)
    && (forall t | t in left' :: t in left || t == Oldest(m)) && Oldest(m) in left'
    && (forall t | t in left :: t in left')
    && Oldest(m') == Oldest(m) + 1 && IsRun(m'.queue, Oldest(m'), m'.accepted)
  }

  lemma Pulls(m: Machine, m': Machine, left: seq<Task>, left': seq<Task>, stayed: seq<Task>)
    requires OrderInv(m) && m.queue != [] && m'.queue == m.queue[1..] && left' == left + [m.queue[0]]
    requires m'.accepted == m.accepted && Increasing(left)
    requires forall t | t in left :: t < Oldest(m) && t !in stayed
    requires forall t | t in stayed :: t < Oldest(m)
    ensures Pulled(m, m', left, left', stayed)
  {
    assert m.queue[0] == Oldest(m);
    assert forall i | 0 <= i < |left| :: left[i] in left;
    assert forall i | 0 <= i < |m'.queue| :: m'.queue[i] == m.queue[i + 1];
    assert left'[|left|] == Oldest(m);
  }

  lemma MoveKeepsOrder(capacity: nat, m: Machine, v: Move)
    requires capacity >= 1 && ChannelInv(capacity, m) && OrderInv(m) && CanMove(m, v)
    ensures OrderInv(Do(capacity, m, v))
  {
    var m' := Do(capacity, m, v);
    if v.Receive? {
      Pulls(m, m', m.received, m'.received, m.evicted);
    } else if v.EvictOldest? && m.queue != [] {
      Pulls(m, m', m.evicted, m'.evicted, m.received);
    }
  }

  /** Whoever is elsewhere stays there when one worker moves. */
  lemma OneMoves(ws: seq<Goroutine>, i: nat, w: Goroutine)
    requires i < |ws|
    ensures forall u | u in ws && u != ws[i] :: u in ws[i := w]
    ensures w in ws[i := w]
    ensures HandCount(ws[i := w]) == HandCount(ws) - (if ws[i].InHand? then 1 else 0) + if w.InHand? then 1 else 0
  {
    HandCountUpdate(ws, i, w);
    forall u | u in ws && u != ws[i] ensures u in ws[i := w] {
      var j :| 0 <= j < |ws| && ws[j] == u;
      assert ws[i := w][j] == u;
    }
    assert ws[i := w][i] == w;
  }

  lemma ReceiveKeepsHands(received: seq<Task>, started: set<Task>, discarded: set<Task>,
                          ws: seq<Goroutine>, i: nat, t: Task)
    requires HandsInv(received, started, discarded, ws) && IsAt(ws, i, Idle) && t !in received
    ensures HandsInv(received + [t], started, discarded, ws[i := InHand(t)])
  {
    OneMoves(ws, i, InHand(t));
  }

  lemma StartKeepsHands(received: seq<Task>, started: set<Task>, discarded: set<Task>,
                        ws: seq<Goroutine>, i: nat, t: Task)
    requires HandsInv(received, started, discarded, ws) && IsAt(ws, i, InHand(t))
    ensures HandsInv(received, started + {t}, discarded, ws[i := Busy(t)])
  {
    OneMoves(ws, i, Busy(t));
  }

  lemma DiscardKeepsHands(received: seq<Task>, started: set<Task>, discarded: set<Task>,
                          ws: seq<Goroutine>, i: nat, t: Task)
    requires HandsInv(received, started, discarded, ws) && IsAt(ws, i, InHand(t))
    ensures HandsInv(received, started, discarded + {t}, ws[i := Gone])
  {
    OneMoves(ws, i, Gone);
  }

  lemma PassKeepsHands(received: seq<Task>, started: set<Task>, discarded: set<Task>,
                       ws: seq<Goroutine>, i: nat, w: Goroutine)
    requires HandsInv(received, started, discarded, ws) && i < |ws| && !ws[i].InHand? && !w.InHand?
    ensures HandsInv(received, started, discarded, ws[i := w])
  {
    OneMoves(ws, i, w);
  }

  lemma StartKeepsBusy(started: set<Task>, finished: set<Task>, ws: seq<Goroutine>, i: nat, t: Task)
    requires BusyInv(started, finished, ws) && IsAt(ws, i, InHand(t)) && t !in started
    ensures BusyInv(started + {t}, finished, ws[i := Busy(t)])
  {
    OneMoves(ws, i, Busy(t));
  }

  lemma FinishKeepsBusy(started: set<Task>, finished: set<Task>, ws: seq<Goroutine>, i: nat, t: Task)
    requires BusyInv(started, finished, ws) && IsAt(ws, i, Busy(t))
    ensures BusyInv(started, finished + {t}, ws[i := Idle])
  {
    OneMoves(ws, i, Idle);
  }

  lemma PassKeepsBusy(started: set<Task>, finished: set<Task>, ws: seq<Goroutine>, i: nat, w: Goroutine)
    requires BusyInv(started, finished, ws) && i < |ws| && !ws[i].Busy? && !w.Busy?
    ensures BusyInv(started, finished, ws[i := w])
  {
    OneMoves(ws, i, w);
  }

  lemma ReceiveKeepsWorkers(capacity: nat, m: Machine, i: nat)
    requires OrderInv(m) && WorkersInv(m) && CanMove(m, Receive(i))
    ensures WorkersInv(Do(capacity, m, Receive(i)))
  {
    var t := m.queue[0];
    assert t == Oldest(m);
    ReceiveKeepsHands(m.received, m.started, m.discarded, m.workers, i, t);
    PassKeepsBusy(m.started, m.finished, m.workers, i, InHand(t));
  }

  lemma LookKeepsWorkers(capacity: nat, m: Machine, i: nat)
    requires WorkersInv(m) && CanMove(m, LookAtContext(i))
    ensures WorkersInv(Do(capacity, m, LookAtContext(i)))
  {
    var t := m.workers[i].task;
    if m.cancelled {
      DiscardKeepsHands(m.received, m.started, m.discarded, m.workers, i, t);
      PassKeepsBusy(m.started, m.finished, m.workers, i, Gone);
    } else {
      StartKeepsHands(m.received, m.started, m.discarded, m.workers, i, t);
      StartKeepsBusy(m.started, m.finished, m.workers, i, t);
    }
  }

  lemma MoveKeepsWorkers(capacity: nat, m: Machine, v: Move)
    requires OrderInv(m) && WorkersInv(m) && CanMove(m, v)
    ensures WorkersInv(Do(capacity, m, v))
  {
    match v
    case Receive(i) => ReceiveKeepsWorkers(capacity, m, i);
    case LookAtContext(i) => LookKeepsWorkers(capacity, m, i);
    case FinishTask(i) =>
      PassKeepsHands(m.received, m.started, m.discarded, m.workers, i, Idle);
      FinishKeepsBusy(m.started, m.finished, m.workers, i, m.workers[i].task);
    case Leave(i) =>
      PassKeepsHands(m.received, m.started, m.discarded, m.workers, i, Gone);
      PassKeepsBusy(m.started, m.finished, m.workers, i, Gone);
    case _ =>
  }

  lemma MoveKeepsLeaving(capacity: nat, m: Machine, v: Move)
    requires ChannelInv(capacity, m) && LeavingInv(m) && CanMove(m, v)
    ensures LeavingInv(Do(capacity, m, v))
  {
  }

  lemma MoveKeepsCount(capacity: nat, m: Machine, v: Move)
    requires ChannelInv(capacity, m) && OrderInv(m) && HandsInv(m.received, m.started, m.discarded, m.workers)
    requires LeavingInv(m) && CountInv(m) && CanMove(m, v)
    ensures CountInv(Do(capacity, m, v))
  {
    if v.TimeUp? {
      assert NeverStarted(m) == |m.queue| + HandCount(m.workers);
    }
  }

  lemma MoveKeepsInv(capacity: nat, workerCount: nat, m: Machine, v: Move)
    requires capacity >= 1 && MachineInv(capacity, workerCount, m) && CanMove(m, v)
    ensures MachineInv(capacity, workerCount, Do(capacity, m, v))
  {
    MoveKeepsChannel(capacity, m, v);
    MoveKeepsOrder(capacity, m, v);
    MoveKeepsWorkers(capacity, m, v);
    MoveKeepsLeaving(capacity, m, v);
    MoveKeepsCount(capacity, m, v);
  }

  lemma StartInv(capacity: nat, workerCount: nat)
    ensures MachineInv(capacity, workerCount, Start(workerCount))
  {
    NobodyHolds(workerCount);
  }

  lemma {:induction false} NobodyHolds(n: nat)
    ensures HandCount(seq(n, _ => Idle)) == 0
  {
    if n > 0 {
      var ws: seq<Goroutine> := seq(n, _ => Idle);
      assert ws[..n - 1] == seq(n - 1, _ => Idle);
      NobodyHolds(n - 1);
    }
  }

  lemma {:induction false} RunKeepsInv(capacity: nat, workerCount: nat, ms: seq<Machine>, k: nat)
    requires capacity >= 1 && Steps(capacity, ms) && ms[0] == Start(workerCount) && k < |ms|
    ensures MachineInv(capacity, workerCount, ms[k])
  {
    if k == 0 {
      StartInv(capacity, workerCount);
    } else {
      RunKeepsInv(capacity, workerCount, ms, k - 1);
      assert Next(capacity, ms[k - 1], ms[k]);
      var v :| CanMove(ms[k - 1], v) && ms[k] == Do(capacity, ms[k - 1], v);
      MoveKeepsInv(capacity, workerCount, ms[k - 1], v);
    }
  }

  lemma HappensInv(capacity: nat, workerCount: nat, m: Machine)
    requires capacity >= 1 && Happens(capacity, workerCount, m)
    ensures MachineInv(capacity, workerCount, m)
  {
    var ms :| RunTo(capacity, workerCount, ms, m);
    RunKeepsInv(capacity, workerCount, ms, |ms| - 1);
  }

  lemma StartHappens(capacity: nat, workerCount: nat)
    ensures Happens(capacity, workerCount, Start(workerCount))
  {
    assert RunTo(capacity, workerCount, [Start(workerCount)], Start(workerCount));
  }

  lemma MoveHappens(capacity: nat, workerCount: nat, m: Machine, v: Move)
    requires Happens(capacity, workerCount, m) && CanMove(m, v)
    ensures Happens(capacity, workerCount, Do(capacity, m, v))
  {
    var ms :| RunTo(capacity, workerCount, ms, m);
    assert Next(capacity, m, Do(capacity, m, v));
    assert RunTo(capacity, workerCount, ms + [Do(capacity, m, v)], Do(capacity, m, v));
  }

  // --- What every run promises ---------------------------------------------------------

  /** The second send always finds room, so the newest task is never the one dropped and
      every drop is an eviction; no send meets a closed channel, which closes once. */
  lemma SecondSendAlwaysLands(capacity: nat, workerCount: nat, m: Machine)
    requires capacity >= 1 && Happens(capacity, workerCount, m)
    ensures m.holder == LastSend ==> !m.channelClosed && Do(capacity, m, TryLastSend) == Push(m)
    ensures m.lost == [] && m.drops == |m.evicted|
    ensures m.panics == 0 && m.closes <= 1
    ensures m.holder != LastSend ==> forall t | t in m.evicted :: t + 1 < m.accepted
  {
    HappensInv(capacity, workerCount, m);
  }

  function Fates(m: Machine, t: Task): nat
  {
    (if t in m.queue then 1 else 0) + (if InHand(t) in m.workers then 1 else 0)
    + (if Busy(t) in m.workers then 1 else 0) + (if t in m.finished then 1 else 0)
    + (if t in m.evicted then 1 else 0) + (if t in m.discarded then 1 else 0)
  }

  /** Each accepted task is in exactly one of queued, in a hand, running, finished,
      evicted and discarded, and no other task is anywhere. */
  lemma EveryTaskHasOneFate(capacity: nat, workerCount: nat, m: Machine, t: Task)
    requires capacity >= 1 && Happens(capacity, workerCount, m)
    ensures Fates(m, t) == if t < m.accepted then 1 else 0
  {
    HappensInv(capacity, workerCount, m);
    if Oldest(m) <= t < m.accepted {
      assert m.queue[t - Oldest(m)] == t;
    }
    ReceivedOnce(m, t);
  }

  lemma ReceivedOnce(m: Machine, t: Task)
    requires WorkersInv(m)
    ensures (if InHand(t) in m.workers then 1 else 0) + (if Busy(t) in m.workers then 1 else 0)
            + (if t in m.finished then 1 else 0) + (if t in m.discarded then 1 else 0)
            == if t in m.received then 1 else 0
  {
  }

  /** Tasks leave the queue in the order they were accepted. */
  lemma ReceivesAreFifo(capacity: nat, workerCount: nat, m: Machine, i: nat, j: nat)
    requires capacity >= 1 && Happens(capacity, workerCount, m) && i < j < |m.received|
    ensures m.received[i] < m.received[j] < m.accepted - |m.queue|
  {
    HappensInv(capacity, workerCount, m);
    assert m.received[j] in m.received;
  }

  /** A close whose drain ended in time lost nothing: each task it had accepted finished,
      unless a newer one had evicted it. */
  lemma DrainedCloseLosesNothing(capacity: nat, workerCount: nat, m: Machine, t: Task)
    requires capacity >= 1 && workerCount >= 1 && Happens(capacity, workerCount, m)
    requires m.closing.Drained? && t < m.accepted
    ensures t in m.finished || t in m.evicted
  {
    HappensInv(capacity, workerCount, m);
    EveryTaskHasOneFate(capacity, workerCount, m, t);
    assert m.workers[0].Gone? && m.queue == [];
  }

  /** What cannot change any more once the context is cancelled. */
  ghost predicate Settled(m: Machine, m': Machine)
  {
    && m'.cancelled && m'.closed && m'.channelClosed && m'.holder == Free && m'.closing == m.closing
    && m'.started == m.started && m'.accepted == m.accepted && m'.evicted == m.evicted && m.finished <= m'.finished
  }

  lemma {:induction false} NothingStartsOnceCancelled(capacity: nat, workerCount: nat, ms: seq<Machine>, k: nat)
    requires capacity >= 1 && Steps(capacity, ms) && Happens(capacity, workerCount, ms[0])
    requires ms[0].cancelled && k < |ms|
    ensures Settled(ms[0], ms[k])
  {
    HappensInv(capacity, workerCount, ms[0]);
    if k > 0 {
      NothingStartsOnceCancelled(capacity, workerCount, ms, k - 1);
      assert Next(capacity, ms[k - 1], ms[k]);
    }
  }

  /** What stays as it was when time ran out. */
  ghost predicate RanOut(m: Machine, m': Machine)
  {
    && m'.closed && m'.channelClosed && m'.holder == Free && m'.accepted == m.accepted && m'.evicted == m.evicted
    && (m'.closing == TimedOut(|m.queue|) || m'.closing == GaveUp(|m.queue|))
  }

  lemma MoveStaysRunOut(capacity: nat, m: Machine, m': Machine, v: Move)
    requires RanOut(m, m') && CanMove(m', v)
    ensures RanOut(m, Do(capacity, m', v))
  {
  }

  lemma {:induction false} StaysRunOut(capacity: nat, workerCount: nat, ms: seq<Machine>, k: nat)
    requires capacity >= 1 && Steps(capacity, ms) && Happens(capacity, workerCount, ms[0])
    requires ms[0].closing == Draining && |ms| > 1 && ms[1] == Do(capacity, ms[0], TimeUp) && 1 <= k < |ms|
    ensures RanOut(ms[0], ms[k])
  {
    HappensInv(capacity, workerCount, ms[0]);
    if k > 1 {
      StaysRunOut(capacity, workerCount, ms, k - 1);
      assert Next(capacity, ms[k - 1], ms[k]);
      var v :| CanMove(ms[k - 1], v) && ms[k] == Do(capacity, ms[k - 1], v);
      MoveStaysRunOut(capacity, ms[0], ms[k - 1], v);
    }
  }

  lemma {:induction false} StaysHappening(capacity: nat, workerCount: nat, ms: seq<Machine>, k: nat)
    requires Steps(capacity, ms) && Happens(capacity, workerCount, ms[0]) && k < |ms|
    ensures Happens(capacity, workerCount, ms[k])
  {
    if k > 0 {
      StaysHappening(capacity, workerCount, ms, k - 1);
      assert Next(capacity, ms[k - 1], ms[k]);
      var v :| CanMove(ms[k - 1], v) && ms[k] == Do(capacity, ms[k - 1], v);
      MoveHappens(capacity, workerCount, ms[k - 1], v);
    }
  }

  lemma NeverStartedIsWaiting(capacity: nat, workerCount: nat, m: Machine)
    requires capacity >= 1 && Happens(capacity, workerCount, m) && (m.closing == Draining || m.closing.TimedOut?)
    ensures NeverStarted(m) == |m.queue| + HandCount(m.workers)
  {
    HappensInv(capacity, workerCount, m);
  }

  /** Of a close whose time runs out at the first step and that cancels after step `j`: what
      never starts is what is queued or in a hand at the cancel, for good; so the number
      reported is right exactly when that equals the queue it counted, that is, when as
      many tasks started in between as were in a hand at the count. */
  lemma WhenTheReportIsRight(capacity: nat, workerCount: nat, ms: seq<Machine>, j: nat, k: nat)
    requires capacity >= 1 && Steps(capacity, ms) && Happens(capacity, workerCount, ms[0])
    requires ms[0].closing == Draining && 1 <= j < k < |ms| && ms[1] == Do(capacity, ms[0], TimeUp)
    requires ms[j].closing.TimedOut? && ms[j + 1] == Do(capacity, ms[j], Cancel)
    ensures ms[k].closing == GaveUp(|ms[0].queue|)
    ensures NeverStarted(ms[k]) == |ms[j].queue| + HandCount(ms[j].workers)
    ensures NeverStarted(ms[k]) == ms[k].closing.count
       <==> |ms[j].queue| + HandCount(ms[j].workers) == |ms[0].queue|
    ensures NeverStarted(ms[k]) == ms[k].closing.count
       <==> |ms[j].started| - |ms[0].started| == HandCount(ms[0].workers)
    ensures NeverStarted(ms[k]) <= ms[k].closing.count + workerCount
  {
    var rest := ms[j + 1..];
    StaysHappening(capacity, workerCount, ms, j);
    MoveHappens(capacity, workerCount, ms[j], Cancel);
    StaysRunOut(capacity, workerCount, ms, j);
    NothingStartsOnceCancelled(capacity, workerCount, rest, k - j - 1);
    assert Settled(rest[0], rest[k - j - 1]) && rest[0] == ms[j + 1] && rest[k - j - 1] == ms[k];
    NeverStartedIsWaiting(capacity, workerCount, ms[0]);
    NeverStartedIsWaiting(capacity, workerCount, ms[j]);
    HappensInv(capacity, workerCount, ms[j]);
  }

  // --- Nobody is stuck -------------------------------------------------------------------

  ghost predicate StepsTo(capacity: nat, ms: seq<Machine>, m: Machine) { Steps(capacity, ms) && ms[|ms| - 1] == m }

  ghost predicate Leads(capacity: nat, m: Machine, m': Machine)
  {
    exists ms :: StepsTo(capacity, ms, m') && ms[0] == m
  }

  /** A worker that has not left has a move of its own, unless it waits for a task. */
  lemma NobodyIsStuck(capacity: nat, m: Machine, i: nat)
    requires i < |m.workers| && m.workers[i] != Gone
    requires m.workers[i] == Idle ==> m.queue != [] || m.channelClosed
    ensures exists v :: CanMove(m, v) && Do(capacity, m, v).workers[i] != m.workers[i]
    ensures m.holder != Free ==> exists v :: CanMove(m, v) && Do(capacity, m, v).holder != m.holder
  {
    var v := match m.workers[i]
      case Idle => if m.queue != [] then Receive(i) else Leave(i)
      case InHand(_) => LookAtContext(i)
      case _ => FinishTask(i);
    assert CanMove(m, v) && Do(capacity, m, v).workers[i] != m.workers[i];
    if m.holder != Free {
      var w := match m.holder
        case FirstSend => TryFirstSend
        case Evicting => EvictOldest
        case LastSend => TryLastSend
        case _ => CloseChannel;
      assert CanMove(m, w) && Do(capacity, m, w).holder != m.holder;
    }
  }

  /** `s` comes after `m`, and the workers were the only ones to move. */
  ghost predicate Later(capacity: nat, workerCount: nat, m: Machine, s: Machine)
  {
    && Leads(capacity, m, s) && MachineInv(capacity, workerCount, s)
    && s.accepted == m.accepted && s.evicted == m.evicted && s.closing == m.closing
  }

  lemma OneLater(capacity: nat, workerCount: nat, m: Machine, s: Machine, v: Move)
    requires capacity >= 1 && Later(capacity, workerCount, m, s) && CanMove(s, v)
    requires v.Receive? || v.LookAtContext? || v.FinishTask? || v.Leave?
    ensures Later(capacity, workerCount, m, Do(capacity, s, v))
  {
    LeadsStep(capacity, m, s, v);
    MoveKeepsInv(capacity, workerCount, s, v);
  }

  lemma LeadsStep(capacity: nat, m: Machine, s: Machine, v: Move)
    requires Leads(capacity, m, s) && CanMove(s, v)
    ensures Leads(capacity, m, Do(capacity, s, v))
  {
    var ms :| StepsTo(capacity, ms, s) && ms[0] == m;
    var s' := Do(capacity, s, v);
    assert Next(capacity, s, s');
    assert StepsTo(capacity, ms + [s'], s') && (ms + [s'])[0] == m;
  }

  /** How much is left to do. */
  function StepsLeft(g: Goroutine): nat { match g case InHand(_) => 3 case Busy(_) => 2 case Idle => 1 case Gone => 0 }

  function ToDo(ws: seq<Goroutine>): nat
  {
    if ws == [] then 0 else ToDo(ws[..|ws| - 1]) + StepsLeft(ws[|ws| - 1])
  }

  lemma {:induction false} ToDoUpdate(ws: seq<Goroutine>, i: nat, g: Goroutine)
    requires i < |ws|
    ensures ToDo(ws[i := g]) == ToDo(ws) - StepsLeft(ws[i]) + StepsLeft(g)
    decreases |ws|
  {
    var last := |ws| - 1;
    if i == last {
      assert ws[i := g][..last] == ws[..last];
    } else {
      assert ws[i := g][..last] == ws[..last][i := g];
      ToDoUpdate(ws[..last], i, g);
    }
  }

  /** The next step of a worker that can take one. */
  function NextMove(m: Machine, i: nat): Move
    requires i < |m.workers|
  {
    match m.workers[i]
    case InHand(_) => LookAtContext(i)
    case Busy(_) => FinishTask(i)
    case _ => if m.queue != [] then Receive(i) else Leave(i)
  }

  lemma NextMoveHelps(capacity: nat, s: Machine, i: nat)
    requires i < |s.workers| && s.workers[i] != Gone && s.channelClosed
    ensures var v := NextMove(s, i);
      && CanMove(s, v) && (v.Receive? || v.LookAtContext? || v.FinishTask? || v.Leave?)
      && var s' := Do(capacity, s, v);
         3 * |s'.queue| + ToDo(s'.workers) < 3 * |s.queue| + ToDo(s.workers)
  {
    var s' := Do(capacity, s, NextMove(s, i));
    ToDoUpdate(s.workers, i, s'.workers[i]);
    assert s'.workers == s.workers[i := s'.workers[i]];
  }

  lemma {:induction false} WorkersCanLeave(capacity: nat, workerCount: nat, m: Machine, s: Machine) returns (t: Machine)
    requires capacity >= 1 && workerCount >= 1 && Later(capacity, workerCount, m, s) && s.closing == Draining
    ensures Later(capacity, workerCount, m, t) && forall i | 0 <= i < |t.workers| :: t.workers[i] == Gone
    decreases 3 * |s.queue| + ToDo(s.workers)
  {
    if i :| 0 <= i < |s.workers| && s.workers[i] != Gone {
      NextMoveHelps(capacity, s, i);
      OneLater(capacity, workerCount, m, s, NextMove(s, i));
      t := WorkersCanLeave(capacity, workerCount, m, Do(capacity, s, NextMove(s, i)));
    } else {
      t := s;
    }
  }

  /** From every reachable state in which the close waits for its workers, they can still
      finish every accepted task that was not evicted, and the close end in time. */
  lemma DrainCanEnd(capacity: nat, workerCount: nat, m: Machine)
    requires capacity >= 1 && workerCount >= 1 && Happens(capacity, workerCount, m) && m.closing == Draining
    ensures exists s :: Leads(capacity, m, s) && s.closing == Drained && s.cancelled && s.accepted == m.accepted
                     && s.evicted == m.evicted && forall t: Task | t < s.accepted :: t in s.finished || t in s.evicted
  {
    HappensInv(capacity, workerCount, m);
    assert StepsTo(capacity, [m], m) && [m][0] == m;
    var t := WorkersCanLeave(capacity, workerCount, m, m);
    LeadsStep(capacity, m, t, EndDrain);
    MoveKeepsInv(capacity, workerCount, t, EndDrain);
    var s := Do(capacity, t, EndDrain);
    FinishedOrEvicted(capacity, workerCount, s);
  }

  lemma FinishedOrEvicted(capacity: nat, workerCount: nat, s: Machine)
    requires workerCount >= 1 && MachineInv(capacity, workerCount, s) && s.closing == Drained
    ensures forall t: Task | t < s.accepted :: t in s.finished || t in s.evicted
  {
    assert s.workers[0].Gone? && s.queue == [];
  }

  // --- Where the code promises less than its comments ------------------------------------

  /** While a submit stands before its eviction, the queue shrinks by what is received. */
  lemma {:induction false} OnlyReceivesBetween(capacity: nat, ms: seq<Machine>, k: nat)
    requires Steps(capacity, ms) && k < |ms| && forall i | 0 <= i <= k :: ms[i].holder == Evicting
    ensures ms[k].accepted == ms[0].accepted && ms[k].evicted == ms[0].evicted && ms[0].received <= ms[k].received
    ensures |ms[k].queue| + |ms[k].received| == |ms[0].queue| + |ms[0].received|
  {
    if k > 0 {
      OnlyReceivesBetween(capacity, ms, k - 1);
      assert Next(capacity, ms[k - 1], ms[k]);
    }
  }

  /** Of a submit whose first send failed in step 0 and that evicts after step `k`: the
      task evicted is `capacity` places before the newcomer exactly when no worker has
      received one in between. */
  lemma EvictionDistance(capacity: nat, workerCount: nat, ms: seq<Machine>, k: nat)
    requires capacity >= 1 && Steps(capacity, ms) && Happens(capacity, workerCount, ms[0])
    requires ms[0].holder == FirstSend && 1 <= k < |ms| && ms[1] == Do(capacity, ms[0], TryFirstSend)
    requires (forall i | 1 <= i <= k :: ms[i].holder == Evicting) && ms[k].queue != []
    ensures var m' := Do(capacity, ms[k], EvictOldest);
            m'.evicted == ms[0].evicted + [ms[k].queue[0]]
            && (ms[k].queue[0] + capacity == m'.accepted <==> ms[k].received == ms[0].received)
  {
    HappensInv(capacity, workerCount, ms[0]);
    StaysHappening(capacity, workerCount, ms, k);
    HappensInv(capacity, workerCount, ms[k]);
    var rest := ms[1..];
    assert forall i | 0 <= i <= k - 1 :: rest[i] == ms[i + 1];
    OnlyReceivesBetween(capacity, rest, k - 1);
    assert ms[k].queue[0] == Oldest(ms[k]);
  }

  /** A submit that finds the mutex free and room in the channel. */
  lemma SubmitOne(capacity: nat, workerCount: nat, m: Machine) returns (m': Machine)
    requires Happens(capacity, workerCount, m) && m.holder == Free && !m.closed && !m.channelClosed
    requires |m.queue| < capacity
    ensures Happens(capacity, workerCount, m') && m' == Push(m)
  {
    MoveHappens(capacity, workerCount, m, BeginSubmit);
    var waiting := Do(capacity, m, BeginSubmit);
    MoveHappens(capacity, workerCount, waiting, TryFirstSend);
    m' := Do(capacity, waiting, TryFirstSend);
  }

  lemma {:induction false} Fill(capacity: nat, workerCount: nat, n: nat) returns (m: Machine)
    requires n <= capacity
    ensures Happens(capacity, workerCount, m) && |m.queue| == n == m.accepted && m.evicted == []
    ensures m.holder == Free && !m.closed && !m.channelClosed && m.workers == Start(workerCount).workers
  {
    if n == 0 {
      m := Start(workerCount);
      StartHappens(capacity, workerCount);
    } else {
      var less := Fill(capacity, workerCount, n - 1);
      m := SubmitOne(capacity, workerCount, less);
    }
  }

  /** A worker that receives just after the first send of a submit failed makes the
      submit evict the next task, though there is room. */
  lemma EvictsTheNext(capacity: nat, workerCount: nat, m: Machine, i: nat) returns (m': Machine)
    requires Happens(capacity, workerCount, m) && 2 <= |m.queue| == capacity
    requires m.holder == Free && !m.closed && !m.channelClosed && IsAt(m.workers, i, Idle)
    ensures Happens(capacity, workerCount, m') && m'.holder == Free && m'.accepted == m.accepted + 1
    ensures m'.evicted == m.evicted + [m.queue[1]]
  {
    MoveHappens(capacity, workerCount, m, BeginSubmit);
    var trying := Do(capacity, m, BeginSubmit);
    MoveHappens(capacity, workerCount, trying, TryFirstSend);
    var full := Do(capacity, trying, TryFirstSend);
    MoveHappens(capacity, workerCount, full, Receive(i));
    var received := Do(capacity, full, Receive(i));
    MoveHappens(capacity, workerCount, received, EvictOldest);
    var evicted := Do(capacity, received, EvictOldest);
    assert evicted.evicted == m.evicted + [m.queue[1]];
    MoveHappens(capacity, workerCount, evicted, TryLastSend);
    m' := Do(capacity, evicted, TryLastSend);
  }

  ghost predicate NewestSurvive(capacity: nat, m: Machine)
  {
    m.holder == Free ==> forall t | t in m.evicted :: t + capacity < m.accepted
  }

  /** The newest `capacity` tasks are safe from eviction, as in the other dispatchers,
      exactly when the queue holds a single task. */
  lemma NewestSurviveIffCapacityIsOne(capacity: nat, workerCount: nat)
    requires capacity >= 1 && workerCount >= 1
    ensures (forall m | Happens(capacity, workerCount, m) :: NewestSurvive(capacity, m)) <==> capacity == 1
  {
    if capacity == 1 {
      forall m | Happens(capacity, workerCount, m) ensures NewestSurvive(capacity, m) {
        HappensInv(capacity, workerCount, m);
      }
    } else {
      var full := Fill(capacity, workerCount, capacity);
      HappensInv(capacity, workerCount, full);
      assert full.queue[1] == 1;
      var m := EvictsTheNext(capacity, workerCount, full, 0);
      var t: Task := m.evicted[0];
      assert t == 1 && t in m.evicted && m.accepted == capacity + 1;
      assert !NewestSurvive(capacity, m);
    }
  }

  /** The task in a hand when time runs out is lost without being counted, if the context
      is cancelled before its worker looks. */
  lemma HandIsNotCounted(capacity: nat, workerCount: nat, m: Machine, i: nat) returns (m': Machine)
    requires Happens(capacity, workerCount, m) && m.closing == Draining
    requires i < |m.workers| && m.workers[i].InHand?
    ensures Happens(capacity, workerCount, m') && m'.closing == GaveUp(|m.queue|)
    ensures m'.discarded == m.discarded + {m.workers[i].task} && m'.started == m.started
  {
    MoveHappens(capacity, workerCount, m, TimeUp);
    var late := Do(capacity, m, TimeUp);
    MoveHappens(capacity, workerCount, late, Cancel);
    var cancelled := Do(capacity, late, Cancel);
    MoveHappens(capacity, workerCount, cancelled, LookAtContext(i));
    m' := Do(capacity, cancelled, LookAtContext(i));
  }

  /** So a close can report that it abandoned nothing and yet lose a task. */
  lemma ReportCanMissATask(capacity: nat)
    requires capacity >= 1
    ensures exists m :: Happens(capacity, 1, m) && m.closing == GaveUp(0) && m.discarded == {0}
  {
    var m0 := Start(1);
    StartHappens(capacity, 1);
    var m1 := SubmitOne(capacity, 1, m0);
    MoveHappens(capacity, 1, m1, Receive(0));
    var m2 := Do(capacity, m1, Receive(0));
    assert m2.queue == [] && m2.workers[0] == InHand(0);
    MoveHappens(capacity, 1, m2, LockForClose);
    var m3 := Do(capacity, m2, LockForClose);
    MoveHappens(capacity, 1, m3, CloseChannel);
    var m := HandIsNotCounted(capacity, 1, Do(capacity, m3, CloseChannel), 0);
  }

  /** And it can report a task that started after it was counted. */
  lemma ReportCanCountTooMuch(capacity: nat)
    requires capacity >= 1
    ensures exists m :: Happens(capacity, 1, m) && m.closing == GaveUp(1) && NeverStarted(m) == 0 && m.evicted == []
  {
    var m0 := Start(1);
    StartHappens(capacity, 1);
    var m1 := SubmitOne(capacity, 1, m0);
    MoveHappens(capacity, 1, m1, LockForClose);
    var m2 := Do(capacity, m1, LockForClose);
    MoveHappens(capacity, 1, m2, CloseChannel);
    var m := CountedTaskStarts(capacity, 1, Do(capacity, m2, CloseChannel), 0);
  }

  /** The oldest queued task is counted, then received and started before the cancel. */
  lemma CountedTaskStarts(capacity: nat, workerCount: nat, m: Machine, i: nat) returns (m': Machine)
    requires Happens(capacity, workerCount, m) && m.closing == Draining && !m.cancelled
    requires m.queue != [] && IsAt(m.workers, i, Idle)
    ensures Happens(capacity, workerCount, m') && m'.closing == GaveUp(|m.queue|)
    ensures m'.started == m.started + {m.queue[0]} && m'.accepted == m.accepted && m'.evicted == m.evicted
  {
    MoveHappens(capacity, workerCount, m, TimeUp);
    var late := Do(capacity, m, TimeUp);
    MoveHappens(capacity, workerCount, late, Receive(i));
    var received := Do(capacity, late, Receive(i));
    assert received.workers[i] == InHand(m.queue[0]);
    MoveHappens(capacity, workerCount, received, LookAtContext(i));
    var started := Do(capacity, received, LookAtContext(i));
    MoveHappens(capacity, workerCount, started, Cancel);
    m' := Do(capacity, started, Cancel);
  }
}
