/** The Rust client around its deliveries: each runs the retry loop on some thread while
    a close first signals the interrupt and only then closes the dispatcher. */
module RustClient {
  import opened Retry

  type Result = Outcome<int>

  /** Where a delivery is: past the check that the client is open, in the dispatcher's
      queue, dropped from it, refused, about to start an attempt, in one, in the wait
      after one, or over. */
  datatype Phase =
    | Checked
    | Queued
    | Dropped
    | Refused
    | Ready
    | Attempting
    | BackingOff
    | Over(interrupted: bool, result: Result)

  /** `started` counts attempts; `outcomes` and `waits` list those that ended and the
      waits entered. */
  datatype Delivery = Delivery(phase: Phase, started: nat, outcomes: seq<Result>, waits: seq<nat>)

  datatype Client = Client(closed: bool, signalled: bool, accepting: bool, deliveries: seq<Delivery>)

  datatype Move =
    | Check                      // a caller finds the client open
    | CallNow(d: nat)            // and delivers on its own thread
    | Enqueue(d: nat)            // or submits to the dispatcher
    | Drop(d: nat)               // evicted or abandoned
    | PickUp(d: nat)
    | StartAttempt(d: nat)
    | EndAttempt(d: nat, outcome: Result)
    | EndWait(d: nat)
    | SwapClosed
    | Signal
    | CloseDispatcher

  const OPEN := Client(false, false, true, [])

  predicate IsIn(c: Client, d: nat, phase: Phase) { d < |c.deliveries| && c.deliveries[d].phase == phase }

  ghost predicate CanMove(c: Client, v: Move)
  {
    match v
    case Check => !c.closed
    case CallNow(d) => IsIn(c, d, Checked)
    case Enqueue(d) => IsIn(c, d, Checked)
    case Drop(d) => IsIn(c, d, Queued)
    case PickUp(d) => IsIn(c, d, Queued)
    case StartAttempt(d) => IsIn(c, d, Ready)
    case EndAttempt(d, _) => IsIn(c, d, Attempting)
    case EndWait(d) => IsIn(c, d, BackingOff)
    case SwapClosed => true
    case Signal => c.closed
    case CloseDispatcher => c.signalled
  }

  /** An attempt ended: the loop returns, or enters the next wait. */
  function Ended(delays: seq<nat>, d: Delivery, outcome: Result): Delivery
  {
    var os := d.outcomes + [outcome];
    match outcome
    case Success(_) => d.(outcomes := os, phase := Over(false, outcome))
    case Failed(f) =>
      if !IsRetryable(f) || |d.outcomes| >= |delays| then
        d.(outcomes := os, phase := Over(false, Failed(WithAttemptCount(f, |os|))))
      else
        d.(outcomes := os, phase := BackingOff, waits := d.waits + [delays[|d.outcomes|]])
  }

  function Move1(delays: seq<nat>, c: Client, d: Delivery, v: Move): Delivery
  {
    match v
    case CallNow(_) => d.(phase := Ready)
    case Enqueue(_) => d.(phase := if c.accepting then Queued else Refused)
    case Drop(_) => d.(phase := Dropped)
    case PickUp(_) => d.(phase := Ready)
    case StartAttempt(_) => d.(phase := Attempting, started := d.started + 1)
    case EndAttempt(_, outcome) => Ended(delays, d, outcome)
    // The wait ends either because the flag is up, or with the flag seen down.
    case EndWait(_) => d.(phase := if c.signalled then Over(true, Failed(INTERRUPTED)) else Ready)
    case _ => d
  }

  ghost function Do(delays: seq<nat>, c: Client, v: Move): Client
    requires CanMove(c, v)
  {
    match v
    case Check => c.(deliveries := c.deliveries + [Delivery.Delivery(Checked, 0, [], [])])
    case SwapClosed => c.(closed := true)
    case Signal => c.(signalled := true)
    case CloseDispatcher => c.(accepting := false)
    case _ => c.(deliveries := c.deliveries[v.d := Move1(delays, c, c.deliveries[v.d], v)])
  }

  ghost predicate Next(delays: seq<nat>, c: Client, c': Client) { exists v :: CanMove(c, v) && c' == Do(delays, c, v) }

  ghost predicate Steps(delays: seq<nat>, cs: seq<Client>)
  {
    cs != [] && forall i, j | 0 <= i && j == i + 1 < |cs| :: Next(delays, cs[i], cs[j])
  }

  ghost predicate Run(delays: seq<nat>, cs: seq<Client>) { Steps(delays, cs) && cs[0] == OPEN }

  // --- Every delivery runs the retry loop --------------------------------------------------

  ghost predicate AllRetry(os: seq<Result>) { forall i | 0 <= i < |os| :: Retries(os[i]) }

  ghost predicate DeliveryInv(delays: seq<nat>, d: Delivery)
  {
    match d.phase
    case Over(interrupted, result) =>
      d.started == |d.outcomes| && Ends(delays, d.outcomes, d.waits, interrupted, result)
    case _ =>
      && AllRetry(d.outcomes) && |d.outcomes| <= |delays| && d.waits == delays[..|d.outcomes|]
      && d.started == |d.outcomes| + (if d.phase.Attempting? then 1 else 0)
      && (d.phase.BackingOff? ==> d.outcomes != [])
      && (d.phase in {Checked, Queued, Dropped, Refused} ==> d.outcomes == [])
  }

  /** Only a signal interrupts, and only a closed dispatcher refuses. */
  ghost predicate FlagsInv(c: Client, d: Delivery)
  {
    && (d.phase.Over? && d.phase.interrupted ==> c.signalled)
    && (d.phase.Refused? ==> !c.accepting)
  }

  ghost predicate ClientInv(delays: seq<nat>, c: Client)
  {
    && (c.signalled ==> c.closed) && (!c.accepting ==> c.signalled)
    && (forall i | 0 <= i < |c.deliveries| :: DeliveryInv(delays, c.deliveries[i]))
    && (forall i | 0 <= i < |c.deliveries| :: FlagsInv(c, c.deliveries[i]))
  }

  lemma EndedKeepsInv(delays: seq<nat>, d: Delivery, outcome: Result)
    requires DeliveryInv(delays, d) && d.phase == Attempting
    ensures DeliveryInv(delays, Ended(delays, d, outcome))
  {
  }

  /** The move of one delivery. */
  lemma DeliveryMoveKeepsInv(delays: seq<nat>, c: Client, v: Move, d: Delivery)
    requires (!c.accepting ==> c.signalled) && DeliveryInv(delays, d) && FlagsInv(c, d)
    requires v.CallNow? || v.Enqueue? ==> d.phase == Checked
    requires v.Drop? || v.PickUp? ==> d.phase == Queued
    requires (v.StartAttempt? ==> d.phase == Ready) && (v.EndAttempt? ==> d.phase == Attempting)
    requires v.EndWait? ==> d.phase == BackingOff
    ensures DeliveryInv(delays, Move1(delays, c, d, v)) && FlagsInv(c, Move1(delays, c, d, v))
  {
    if v.EndAttempt? {
      EndedKeepsInv(delays, d, v.outcome);
    }
  }

  lemma UpdateKeepsInv(delays: seq<nat>, c: Client, i: nat, d: Delivery)
    requires ClientInv(delays, c) && i < |c.deliveries| && DeliveryInv(delays, d) && FlagsInv(c, d)
    ensures ClientInv(delays, c.(deliveries := c.deliveries[i := d]))
  {
  }

  lemma MoveKeepsInv(delays: seq<nat>, c: Client, v: Move)
    requires ClientInv(delays, c) && CanMove(c, v)
    ensures ClientInv(delays, Do(delays, c, v))
  {
    match v
    case Check =>
    case SwapClosed =>
    case Signal =>
    case CloseDispatcher =>
    case _ =>
      DeliveryMoveKeepsInv(delays, c, v, c.deliveries[v.d]);
      UpdateKeepsInv(delays, c, v.d, Move1(delays, c, c.deliveries[v.d], v));
  }

  lemma {:induction false} RunKeepsInv(delays: seq<nat>, cs: seq<Client>, k: nat)
    requires Run(delays, cs) && k < |cs|
    ensures ClientInv(delays, cs[k])
  {
    if k > 0 {
      RunKeepsInv(delays, cs, k - 1);
      assert Next(delays, cs[k - 1], cs[k]);
      var v :| CanMove(cs[k - 1], v) && cs[k] == Do(delays, cs[k - 1], v);
      MoveKeepsInv(delays, cs[k - 1], v);
    }
  }

  /** At any time in any run a delivery has started at most one attempt more than there
      are delays and entered a prefix of the waits; every attempt but the last failed
      retryably, and one that is over ended as the retry loop may end, interrupted only
      after a signal. A delivery is refused only by a closed dispatcher. */
  lemma EveryDeliveryRetries(delays: seq<nat>, cs: seq<Client>, k: nat, i: nat)
    requires Run(delays, cs) && k < |cs| && i < |cs[k].deliveries|
    ensures var d := cs[k].deliveries[i];
      && d.started <= |delays| + 1 && d.waits <= delays
      && (forall n | 0 <= n < |d.outcomes| - 1 :: IsRetryableDelivery(d.outcomes[n]))
      && (d.phase.Over? ==> d.started == |d.outcomes|)
      && (d.phase.Over? ==> Ends(delays, d.outcomes, d.waits, d.phase.interrupted, d.phase.result))
      && (d.phase.Over? && d.phase.interrupted ==> cs[k].signalled && cs[k].closed)
      && (d.phase.Refused? ==> !cs[k].accepting && cs[k].closed)
  {
    RunKeepsInv(delays, cs, k);
    var d := cs[k].deliveries[i];
    if d.phase.Over? {
      WhatAnEndingIs(delays, d.outcomes, d.waits, d.phase.interrupted, d.phase.result);
    }
  }

  /** Without a signal a delivery that is over stopped at its first success, at its first
      failure that is not retryable, or when the delays were exhausted. */
  lemma UnsignalledDelivery(delays: seq<nat>, cs: seq<Client>, k: nat, i: nat)
    requires Run(delays, cs) && k < |cs| && i < |cs[k].deliveries|
    requires !cs[k].signalled && cs[k].deliveries[i].phase.Over?
    ensures var d := cs[k].deliveries[i];
      && d.outcomes != [] && d.started == |d.outcomes|
      && var last := d.outcomes[|d.outcomes| - 1];
         && (forall n | 0 <= n < |d.outcomes| - 1 :: IsRetryableDelivery(d.outcomes[n]))
         && (IsRetryableDelivery(last) ==> |d.outcomes| == |delays| + 1)
         && (if last.Success? then d.phase.result == last
             else d.phase.result.Failed? && IsReported(last.failure, d.phase.result.failure, |d.outcomes|))
  {
    RunKeepsInv(delays, cs, k);
    var d := cs[k].deliveries[i];
    WhatAnEndingIs(delays, d.outcomes, d.waits, d.phase.interrupted, d.phase.result);
  }

  /** A wait that nobody cuts short goes on to the next attempt; a signal ends it. */
  lemma WaitGoesOn(delays: seq<nat>, c: Client, i: nat)
    requires i < |c.deliveries| && c.deliveries[i].phase == BackingOff
    ensures CanMove(c, EndWait(i))
    ensures var d := Do(delays, c, EndWait(i)).deliveries[i];
      && d.outcomes == c.deliveries[i].outcomes && d.waits == c.deliveries[i].waits
      && (!c.signalled ==> d.phase == Ready)
      && (c.signalled ==> d.phase.Over? && d.phase.interrupted)
  {
  }

  /** A retryable failure with a delay left enters the wait of that delay. */
  lemma FailureBacksOff(delays: seq<nat>, c: Client, i: nat, f: Failure)
    requires ClientInv(delays, c) && i < |c.deliveries| && c.deliveries[i].phase == Attempting
    requires IsRetryableDelivery<int>(Failed(f)) && c.deliveries[i].started <= |delays|
    ensures var d := Do(delays, c, EndAttempt(i, Failed(f))).deliveries[i];
            d.phase == BackingOff && d.waits == c.deliveries[i].waits + [delays[c.deliveries[i].started - 1]]
  {
    assert DeliveryInv(delays, c.deliveries[i]);
  }

  /** Every delivery that is not over, dropped or refused has a move of its own. */
  lemma NobodyIsStuck(delays: seq<nat>, c: Client, i: nat)
    requires i < |c.deliveries|
    requires c.deliveries[i].phase in {Checked, Queued, Ready, Attempting, BackingOff}
    ensures exists v :: CanMove(c, v) && Do(delays, c, v).deliveries[i].phase != c.deliveries[i].phase
  {
    var v := match c.deliveries[i].phase
      case Checked => CallNow(i)
      case Queued => PickUp(i)
      case Ready => StartAttempt(i)
      case Attempting => EndAttempt(i, Success(0))
      case _ => EndWait(i);
    assert CanMove(c, v) && Do(delays, c, v).deliveries[i].phase != c.deliveries[i].phase;
  }

  /** A close takes three steps: it shuts out new callers, signals, then closes the
      dispatcher, and touches no delivery. */
  lemma CloseInThreeSteps(delays: seq<nat>, c: Client)
    ensures CanMove(c, SwapClosed)
    ensures var c1 := Do(delays, c, SwapClosed);
            c1 == c.(closed := true) && CanMove(c1, Signal)
            && var c2 := Do(delays, c1, Signal);
               c2 == c1.(signalled := true) && CanMove(c2, CloseDispatcher)
               && Do(delays, c2, CloseDispatcher) == c2.(accepting := false)
  {
  }

  /** An open dispatcher queues what it is given, a closed one nothing. */
  lemma DispatcherAccepts(delays: seq<nat>, c: Client, i: nat)
    requires i < |c.deliveries| && c.deliveries[i].phase == Checked
    ensures Do(delays, c, Enqueue(i)).deliveries[i].phase == if c.accepting then Queued else Refused
  {
  }

  // --- After the signal ----------------------------------------------------------------------

  /** The attempts a delivery may still start once the interrupt is signalled. */
  function Left(d: Delivery): nat { if d.phase in {Checked, Queued, Ready} then 1 else 0 }

  /** What can happen to the deliveries once the interrupt is signalled. */
  ghost predicate Spends(c: Client, c': Client)
  {
    && c'.closed && c'.signalled && |c'.deliveries| == |c.deliveries|
    && forall i | 0 <= i < |c.deliveries| ::
         c'.deliveries[i].started + Left(c'.deliveries[i]) <= c.deliveries[i].started + Left(c.deliveries[i])
  }

  lemma MoveSpends(delays: seq<nat>, c: Client, v: Move)
    requires c.closed && c.signalled && CanMove(c, v)
    ensures Spends(c, Do(delays, c, v))
  {
  }

  lemma SpendsTwice(a: Client, b: Client, c: Client)
    requires Spends(a, b) && Spends(b, c)
    ensures Spends(a, c)
  {
  }

  lemma {:induction false} RunSpends(delays: seq<nat>, cs: seq<Client>, j: nat, k: nat)
    requires Run(delays, cs) && j <= k < |cs| && cs[j].signalled && cs[j].closed
    ensures Spends(cs[j], cs[k])
  {
    if j < k {
      RunSpends(delays, cs, j, k - 1);
      assert Next(delays, cs[k - 1], cs[k]);
      var v :| CanMove(cs[k - 1], v) && cs[k] == Do(delays, cs[k - 1], v);
      MoveSpends(delays, cs[k - 1], v);
      SpendsTwice(cs[j], cs[k - 1], cs[k]);
    }
  }

  /** After the signal a delivery in an attempt or a backoff starts none, and any other,
      also of a caller who was past the check before the close, at most one. */
  lemma AttemptsAfterTheSignal(delays: seq<nat>, cs: seq<Client>, j: nat, k: nat)
    requires Run(delays, cs) && j <= k < |cs| && cs[j].signalled
    ensures |cs[k].deliveries| == |cs[j].deliveries|
    ensures forall i | 0 <= i < |cs[k].deliveries| ::
              cs[k].deliveries[i].started
              <= cs[j].deliveries[i].started + if cs[j].deliveries[i].phase in {Checked, Queued, Ready} then 1 else 0
  {
    RunKeepsInv(delays, cs, j);
    RunSpends(delays, cs, j, k);
  }

  /** Closing once more changes nothing, and a closed client lets no new caller in. */
  lemma {:induction false} ClosedStaysClosed(delays: seq<nat>, cs: seq<Client>, k: nat)
    requires Steps(delays, cs) && cs[0].closed && k < |cs|
    ensures cs[k].closed && |cs[k].deliveries| == |cs[0].deliveries| && Do(delays, cs[k], SwapClosed) == cs[k]
  {
    if k > 0 {
      ClosedStaysClosed(delays, cs, k - 1);
      assert Next(delays, cs[k - 1], cs[k]);
    }
  }
}
