/** Retrying one delivery: attempts, the backoff waits between them, and the failure
    that is finally reported. */
module Retry {

  const NO_STATUS_CODE: int := -1

  datatype Failure =
    | InvalidRequest(message: string)
    | ClientClosed
    | Delivery(message: string, statusCode: int, retryable: bool)

  datatype Outcome<T> = Success(value: T) | Failed(failure: Failure)

  const INTERRUPTED := Delivery("incident delivery was interrupted during retry", NO_STATUS_CODE, false)

  predicate IsRetryable(f: Failure) { f.Delivery? && f.retryable }

  predicate Retries<T>(o: Outcome<T>) { o.Failed? && IsRetryable(o.failure) }

  /** The number a decimal numeral spells. */
  function NumeralValue(s: string): int
  {
    if s == [] then 0 else 10 * NumeralValue(s[..|s| - 1]) + (s[|s| - 1] as int - '0' as int)
  }

  /** `s` is how `n` is written in decimal, without leading zeros. */
  ghost predicate IsNumeral(s: string, n: int)
  {
    && s != [] && (forall i | 0 <= i < |s| :: '0' <= s[i] <= '9')
    && (|s| > 1 ==> s[0] != '0') && NumeralValue(s) == n
  }

  function Numeral(n: nat): (s: string)
    ensures IsNumeral(s, n) && (n > 0 ==> s[0] != '0')
  {
    var digit := ['0', '1', '2', '3', '4', '5', '6', '7', '8', '9'][n % 10];
    if n < 10 then [digit]
    else
      var s := Numeral(n / 10) + [digit];
      assert s[..|s| - 1] == Numeral(n / 10);
      s
  }

  function AttemptNote(attempts: nat): string { " (after " + Numeral(attempts) + " attempts)" }

  function WithAttemptCount(f: Failure, attempts: nat): Failure
  {
    if f.Delivery? && f.statusCode == NO_STATUS_CODE && attempts > 1
    then f.(message := f.message + AttemptNote(attempts))
    else f
  }

  // --- What a delivery comes to ----------------------------------------------------------

  /** How a delivery may end: after `outcomes`, one an attempt, in the last of `waits`
      when it was interrupted. */
  ghost predicate Ends<T(!new)>(delays: seq<nat>, outcomes: seq<Outcome<T>>, waits: seq<nat>, interrupted: bool,
                                result: Outcome<T>)
  {
    && 1 <= |outcomes| <= |delays| + 1 && waits <= delays
    && (forall i | 0 <= i < |outcomes| - 1 :: Retries(outcomes[i]))
    && var last := outcomes[|outcomes| - 1];
       if interrupted then
         Retries(last) && |waits| == |outcomes| && result == Failed(INTERRUPTED)
       else
         && |waits| == |outcomes| - 1
         && (Retries(last) ==> |outcomes| == |delays| + 1)
         && result == match last
                      case Success(v) => Success(v)
                      case Failed(f) => Failed(WithAttemptCount(f, |outcomes|))
  }

  /** The failures after which another attempt follows. */
  predicate IsRetryableDelivery<T>(o: Outcome<T>)
  {
    match o
    case Failed(Delivery(_, _, retryable)) => retryable
    case _ => false
  }

  /** What an ending is, in full: which attempts are followed by another, which delays were
      waited, and what is reported. */
  lemma WhatAnEndingIs<T(!new)>(delays: seq<nat>, outcomes: seq<Outcome<T>>, waits: seq<nat>, interrupted: bool,
                                result: Outcome<T>)
    requires Ends(delays, outcomes, waits, interrupted, result)
    ensures 1 <= |outcomes| <= |delays| + 1
    ensures waits == delays[..if interrupted then |outcomes| else |outcomes| - 1]
    ensures forall i | 0 <= i < |outcomes| - 1 :: IsRetryableDelivery(outcomes[i])
    ensures var last := outcomes[|outcomes| - 1];
      && (interrupted ==> IsRetryableDelivery(last) && |outcomes| <= |delays|)
      && (interrupted ==> result == Failed(Delivery("incident delivery was interrupted during retry", -1, false)))
      && (!interrupted && last.Success? ==> result == last)
      && (!interrupted && IsRetryableDelivery(last) ==> |outcomes| == |delays| + 1)
      && (!interrupted && last.Failed? ==>
            result.Failed? && IsReported(last.failure, result.failure, |outcomes|))
  {
    var last := outcomes[|outcomes| - 1];
    if last.Failed? && !interrupted {
      var n := Numeral(|outcomes|);
      assert IsNumeral(n, |outcomes|);
      if last.failure.Delivery? {
        NoteOfAttempts(last.failure.message, n);
      }
    }
  }

  lemma NoteOfAttempts(message: string, n: string)
    ensures message + (" (after " + n + " attempts)") == message + " (after " + n + " attempts)"
  {
  }

  /** What is reported of the last failure: itself, and how many attempts there were when
      more than one was made and none reached a status line. */
  ghost predicate IsReported(f: Failure, reported: Failure, attempts: nat)
  {
    match f
    case Delivery(message, statusCode, retryable) =>
      if statusCode == -1 && attempts >= 2 then
        exists n :: IsNumeral(n, attempts)
                 && reported == Delivery(message + " (after " + n + " attempts)", statusCode, retryable)
      else reported == f
    case _ => reported == f
  }

  function Outcomes<T>(operation: nat -> Outcome<T>, attempts: nat): (os: seq<Outcome<T>>)
    ensures |os| == attempts && forall i | 0 <= i < attempts :: os[i] == operation(i)
  {
    seq(attempts, i requires 0 <= i < attempts => operation(i))
  }

  /** How a delivery may end that meets `operation(i)` in its attempt number `i`, and
      whose wait number `i` is cut short just when `cut(i)`. */
  ghost predicate EndsAfter<T(!new)>(delays: seq<nat>, operation: nat -> Outcome<T>, cut: nat -> bool,
                                     attempts: nat, waits: seq<nat>, interrupted: bool, result: Outcome<T>)
  {
    && Ends(delays, Outcomes(operation, attempts), waits, interrupted, result)
    && (forall i | 0 <= i < |waits| :: cut(i) <==> interrupted && i == |waits| - 1)
  }

  /** Runs attempts until one succeeds, fails for good, exhausts the delays, or is cut
      short in its backoff. */
  method ExecuteWithRetry<T(!new)>(delays: seq<nat>, operation: nat -> Outcome<T>, cut: nat -> bool)
    returns (result: Outcome<T>, attempts: nat, waits: seq<nat>, interrupted: bool)
    ensures EndsAfter(delays, operation, cut, attempts, waits, interrupted, result)
  {
    var attempt := 0;
    waits := [];
    while true
      invariant attempt <= |delays| && waits == delays[..attempt]
      invariant forall i | 0 <= i < attempt :: Retries(operation(i)) && !cut(i)
      decreases |delays| - attempt
    {
      attempts := attempt + 1;
      var outcome := operation(attempt);
      assert Outcomes(operation, attempts)[attempt] == outcome;
      match outcome
      case Success(v) => return outcome, attempts, waits, false;
      case Failed(f) =>
        if !IsRetryable(f) || attempt >= |delays| {
          return Failed(WithAttemptCount(f, attempt + 1)), attempts, waits, false;
        }
        waits := waits + [delays[attempt]];
        if cut(attempt) {
          return Failed(INTERRUPTED), attempts, waits, true;
        }
        attempt := attempt + 1;
    }
  }

  /** The loop goes on after every attempt but the last, and has a reason to stop there. */
  lemma StopsAtTheFirstReason<T(!new)>(delays: seq<nat>, operation: nat -> Outcome<T>, cut: nat -> bool,
                                       attempts: nat, waits: seq<nat>, interrupted: bool, result: Outcome<T>)
    requires EndsAfter(delays, operation, cut, attempts, waits, interrupted, result)
    ensures forall i | 0 <= i < attempts - 1 :: i < |delays| && IsRetryableDelivery(operation(i)) && !cut(i)
    ensures var last := attempts - 1;
            last >= 0 && (last == |delays| || !IsRetryableDelivery(operation(last)) || cut(last))
    ensures interrupted <==> attempts <= |delays| && IsRetryableDelivery(operation(attempts - 1))
    ensures waits == delays[..if interrupted then attempts else attempts - 1]
  {
    var os := Outcomes(operation, attempts);
    assert os[attempts - 1] == operation(attempts - 1);
    forall i | 0 <= i < attempts - 1 ensures i < |delays| && IsRetryableDelivery(operation(i)) && !cut(i) {
      assert os[i] == operation(i);
    }
  }

  /** Nothing is left open: what the attempts and waits meet decides how it ends. */
  lemma EndingIsDetermined<T(!new)>(delays: seq<nat>, operation: nat -> Outcome<T>, cut: nat -> bool,
                                    n: nat, ws: seq<nat>, x: bool, r: Outcome<T>,
                                    n': nat, ws': seq<nat>, x': bool, r': Outcome<T>)
    requires EndsAfter(delays, operation, cut, n, ws, x, r) && EndsAfter(delays, operation, cut, n', ws', x', r')
    ensures n == n' && ws == ws' && x == x' && r == r'
  {
    StopsAtTheFirstReason(delays, operation, cut, n, ws, x, r);
    StopsAtTheFirstReason(delays, operation, cut, n', ws', x', r');
  }

  /** The delays are exhausted exactly when the attempts before the last fail retryably
      and no wait is cut short. */
  lemma Exhausted<T(!new)>(delays: seq<nat>, operation: nat -> Outcome<T>, cut: nat -> bool,
                           attempts: nat, waits: seq<nat>, interrupted: bool, result: Outcome<T>)
    requires EndsAfter(delays, operation, cut, attempts, waits, interrupted, result)
    ensures attempts == |delays| + 1
       <==> forall i | 0 <= i < |delays| :: IsRetryableDelivery(operation(i)) && !cut(i)
    ensures attempts == |delays| + 1 ==> waits == delays && !interrupted
  {
    StopsAtTheFirstReason(delays, operation, cut, attempts, waits, interrupted, result);
  }
}
