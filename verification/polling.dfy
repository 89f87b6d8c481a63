/**
 * The specification of `_checkBalance`'s polling loop. The exchange call and the clock
 * are abstracted as a sequence of ticks, one per pass of the `while` loop: what the clock
 * reads at the loop test, whether the operator cleared the session during the preceding
 * sleep, what `fetchDeposits` returned, and the timestamp string a ledger entry would get.
 */
module Polling {
  import opened Wrappers
  import opened Matching
  import opened Numbers

  /** `MAX_CHECKING_DURATION` in milliseconds. */
  const MAX_CHECKING_DURATION: nat := 180000

  /** `CHECK_INTERVAL`: the sleep between two passes, in milliseconds. */
  const CHECK_INTERVAL: nat := 5000

  /** What `this[exchange].fetchDeposits('USDT', since)` did. */
  datatype Fetch =
    | Listed(records: seq<DepositRecord>)  // resolved with a list
    | Missing                              // resolved with null or undefined
    | Threw                                // rejected: network, auth, unknown exchange

  /** One pass of the loop as the environment decides it. */
  datatype Tick = Tick(cancelled: bool, elapsed: nat, fetched: Fetch, time: string)

  /** Why the loop stopped. */
  datatype Stop = Deadline | Unfrozen | GatewayThrew | Found(amount: real)

  /** The arguments `_startSession` hands to `_checkBalance`. */
  datatype PollRequest = PollRequest(target: real, origin: JsNumber) {
    /** A positive target only comes with a finite fiat input (the value the ledger records). */
    predicate Recordable() {
      target > 0.0 ==> origin.Finite?
    }
  }

  /** What the loop ends with, after the ledger write on a match. */
  datatype Outcome = Paid(amount: real) | NotPaid(cause: Stop) | RecordThrew(amount: real)

  /**
   * `_getDepositOrder`: the exchange's list (null read as []) matched against the target;
   * a rejected call propagates as a failure.
   */
  function GetDepositOrder(f: Fetch, target: real): (r: Result<Option<DepositRecord>>)
    ensures r.Failure? <==> f.Threw?
    ensures f.Listed? ==> r == Success(FindMatchingElement(f.records, target))
    ensures f.Missing? ==> r == Success(None)
    ensures r.Success? && r.value.Some? ==> f.Listed? && Qualifies(r.value.value, target)
    ensures f.Listed? && (exists j :: 0 <= j < |f.records| && Qualifies(f.records[j], target)) ==>
              r.Success? && r.value.Some?
  {
    match f
    case Threw => Failure
    case Missing => Success(FindMatchingElement([], target))
    case Listed(rs) => Success(FindMatchingElement(rs, target))
  }

  /**
   * Whether the pass at tick t ends the loop, `frozen` being `sessionFreezed` as the loop
   * test reads it: the test `elapsed < MAX_CHECKING_DURATION && sessionFreezed`, then a
   * thrown gateway call, then a match whose amount is truthy.
   */
  function StepStop(t: Tick, frozen: bool, target: real): (s: Option<Stop>)
    ensures s.None? <==> t.elapsed < MAX_CHECKING_DURATION && frozen && !t.fetched.Threw?
                         && !(GetDepositOrder(t.fetched, target).value.Some?
                              && GetDepositOrder(t.fetched, target).value.value.amount != 0.0)
    ensures s == Some(Deadline) <==> t.elapsed >= MAX_CHECKING_DURATION
    ensures s == Some(Unfrozen) <==> t.elapsed < MAX_CHECKING_DURATION && !frozen
    ensures (s.Some? && s.value.Found?) <==>
              (t.elapsed < MAX_CHECKING_DURATION && frozen && GetDepositOrder(t.fetched, target).Success?
               && GetDepositOrder(t.fetched, target).value.Some?
               && GetDepositOrder(t.fetched, target).value.value.amount != 0.0)
    ensures s.Some? && s.value.Found? ==> s.value.amount == GetDepositOrder(t.fetched, target).value.value.amount
    ensures s.Some? && s.value.Found? ==> target > 0.0 && s.value.amount > 0.0
    ensures s.Some? && s.value.Found? ==>
              && s.value.amount != 0.0 && frozen && t.fetched.Listed?
              && exists j :: 0 <= j < |t.fetched.records| && t.fetched.records[j] == DepositRecord(s.value.amount, "ok")
  {
    if t.elapsed >= MAX_CHECKING_DURATION then Some(Deadline)
    else if !frozen then Some(Unfrozen)
    else
      match GetDepositOrder(t.fetched, target)
      case Failure => Some(GatewayThrew)
      case Success(d) =>
        if d.Some? && d.value.amount != 0.0 then Some(Found(d.value.amount)) else None
  }

  /** The clock reaches the deadline within the ticks given. */
  predicate ReachesDeadline(ticks: seq<Tick>) {
    |ticks| > 0 && ticks[|ticks| - 1].elapsed >= MAX_CHECKING_DURATION
  }

  /** `sessionFreezed` at the loop test of tick j, given its value before tick i. */
  predicate FlagAt(ticks: seq<Tick>, i: nat, j: nat, frozen: bool)
    requires i <= j < |ticks|
  {
    frozen && forall m :: i <= m <= j ==> !ticks[m].cancelled
  }

  /** The tick at which the loop, entered at tick i with flag `frozen`, stops, and why. */
  function FirstStopFrom(ticks: seq<Tick>, i: nat, frozen: bool, target: real): (r: (nat, Stop))
    requires ReachesDeadline(ticks) && i < |ticks|
    decreases |ticks| - i
    ensures i <= r.0 < |ticks|
    ensures StepStop(ticks[r.0], FlagAt(ticks, i, r.0, frozen), target) == Some(r.1)
    ensures forall j :: i <= j < r.0 ==> StepStop(ticks[j], FlagAt(ticks, i, j, frozen), target).None?
  {
    var f := frozen && !ticks[i].cancelled;
    match StepStop(ticks[i], f, target)
    case Some(s) => (i, s)
    case None =>
      var r := FirstStopFrom(ticks, i + 1, f, target);
      assert forall j :: i + 1 <= j < |ticks| ==> FlagAt(ticks, i + 1, j, f) == FlagAt(ticks, i, j, frozen);
      r
  }

  /** The whole loop: the stopping tick and its cause, from the flag at entry. */
  function FirstStop(ticks: seq<Tick>, target: real, frozen: bool): (r: (nat, Stop))
    requires ReachesDeadline(ticks)
    ensures r.0 < |ticks|
    ensures r.1.Found? ==> target > 0.0 && r.1.amount > 0.0
  {
    FirstStopFrom(ticks, 0, frozen, target)
  }

  /**
   * Clearing the session cancels before the next poll: the loop never gets past a tick
   * whose preceding sleep saw a clear-session, and at that tick it does not call the exchange.
   */
  lemma NoPollAfterClear(ticks: seq<Tick>, target: real, frozen: bool, j: nat)
    requires ReachesDeadline(ticks) && j < |ticks| && ticks[j].cancelled
    ensures FirstStop(ticks, target, frozen).0 <= j
    ensures FirstStop(ticks, target, frozen).0 == j ==>
              FirstStop(ticks, target, frozen).1 in {Deadline, Unfrozen}
  {
    var r := FirstStop(ticks, target, frozen);
    assert !FlagAt(ticks, 0, j, frozen);
  }

  /** Every tick before the stopping one ran a poll: within time, flag set, no throw, no truthy match. */
  lemma PassesBeforeStop(ticks: seq<Tick>, target: real, frozen: bool, j: nat)
    requires ReachesDeadline(ticks) && j < FirstStop(ticks, target, frozen).0
    ensures frozen && !ticks[j].cancelled
    ensures ticks[j].elapsed < MAX_CHECKING_DURATION
    ensures !ticks[j].fetched.Threw?
  {
    assert StepStop(ticks[j], FlagAt(ticks, 0, j, frozen), target).None?;
  }

  /**
   * A thrown exchange call ends the loop: the `try` encloses the whole `while`, so a gateway
   * that always throws stops the loop at its first poll instead of retrying until the deadline.
   */
  lemma ThrowingGatewayStopsAtFirstPoll(ticks: seq<Tick>, target: real)
    requires ReachesDeadline(ticks)
    requires forall j :: 0 <= j < |ticks| ==> ticks[j].fetched.Threw?
    requires ticks[0].elapsed < MAX_CHECKING_DURATION && !ticks[0].cancelled
    ensures FirstStop(ticks, target, true) == (0, GatewayThrew)
  {
  }

  /**
   * With no cancellation, no throw and no truthy match (an empty or null list, or a list
   * with no qualifying record), the loop ends exactly at the deadline.
   */
  lemma QuietGatewayTimesOut(ticks: seq<Tick>, target: real)
    requires ReachesDeadline(ticks)
    requires forall j :: 0 <= j < |ticks| ==>
               (!ticks[j].cancelled && !ticks[j].fetched.Threw?
                && !(GetDepositOrder(ticks[j].fetched, target).value.Some?
                     && GetDepositOrder(ticks[j].fetched, target).value.value.amount != 0.0))
    ensures FirstStop(ticks, target, true).1 == Deadline
    ensures forall j :: 0 <= j < FirstStop(ticks, target, true).0 ==>
              ticks[j].elapsed < MAX_CHECKING_DURATION
  {
    var r := FirstStop(ticks, target, true);
    assert FlagAt(ticks, 0, r.0, true);
  }

  /**
   * When every pass takes at least `CHECK_INTERVAL`, the loop polls the exchange at most
   * 36 times (180000 / 5000) before it stops.
   */
  lemma {:induction false} AtMostThirtySixPolls(ticks: seq<Tick>, target: real, frozen: bool)
    requires ReachesDeadline(ticks)
    requires forall j :: 0 <= j < |ticks| ==> ticks[j].elapsed >= j * CHECK_INTERVAL
    ensures FirstStop(ticks, target, frozen).0 <= MAX_CHECKING_DURATION / CHECK_INTERVAL
  {
    var k := FirstStop(ticks, target, frozen).0;
    if k > 36 {
      PassesBeforeStop(ticks, target, frozen, 36);
    }
  }
}
