/**
 Rows of platform_notification_outbox and the transitions the repository persists
 (app/repositories/notification_outbox.py), with the retry arithmetic of
 app/services/notification_retry.py. Times are seconds.
 */
module OutboxRows {
  import opened Common

  datatype Status = Pending | Sent | Failed

  datatype ErrorClass = ExpiredError | PermanentError | TransientError

  datatype Row = Row(
    status: Status,
    attempts: int,
    nextAttemptAt: int,
    ttl: Option<int>,
    lastError: Option<ErrorClass>)

  /** The settings; parse_retry_delays drops negative entries. */
  datatype Policy = Policy(maxRetries: int, delays: seq<nat>)

  predicate IsExhausted(attempts: int, maxRetries: int) {
    attempts >= 1 + Max0(maxRetries)
  }

  function DelayForAttempt(attempt: int, delays: seq<nat>): nat {
    if delays == [] then 0
    else delays[Min(Max0(attempt - 2), |delays| - 1)]
  }

  function NextAttemptAt(attempt: int, delays: seq<nat>, now: int): int {
    now + DelayForAttempt(attempt, delays)
  }

  predicate Expired(row: Row, now: int) {
    row.ttl.Some? && row.ttl.value <= now
  }

  function MarkSent(row: Row): Row {
    row.(status := Sent)
  }

  function MarkFailed(row: Row, error: ErrorClass): Row {
    row.(attempts := row.attempts + 1, status := Failed, lastError := Some(error))
  }

  // The upcoming attempt number is one past the bumped count.
  function Reschedule(row: Row, policy: Policy, error: ErrorClass, now: int): Row {
    row.(attempts := row.attempts + 1,
         lastError := Some(error),
         nextAttemptAt := NextAttemptAt(row.attempts + 2, policy.delays, now))
  }

  /** What the worker makes of a failed send. */
  function AfterFailure(row: Row, policy: Policy, error: ErrorClass, now: int): Row {
    if error == TransientError && !IsExhausted(row.attempts + 1, policy.maxRetries)
    then Reschedule(row, policy, error, now)
    else MarkFailed(row, error)
  }

  /**
   A rescheduled row is never due before now, and it waits exactly when a delay is
   configured for its attempt: with no delays, or a zero one, it is due again at once.
   */
  lemma RescheduledRowWaits(row: Row, policy: Policy, now: int)
    ensures Reschedule(row, policy, TransientError, now).nextAttemptAt >= now
    ensures Reschedule(row, policy, TransientError, now).nextAttemptAt > now
       <==> policy.delays != [] && policy.delays[Min(Max0(row.attempts), |policy.delays| - 1)] > 0
  {
  }

  /** The configured wait after a row's `attempts`-th attempt: its own entry, or the last one. */
  function ConfiguredDelay(delays: seq<nat>, attempts: int): nat {
    if delays == [] then 0
    else if attempts < 0 then delays[0]
    else if attempts >= |delays| then delays[|delays| - 1]
    else delays[attempts]
  }

  /** The row after a classified rejection, and whether the exhaustion event is written. */
  ghost predicate RejectedTo(row: Row, policy: Policy, error: ErrorClass, now: int, row': Row, exhausted: bool) {
    && exhausted == (|| error == PermanentError
                     || row.attempts + 1 >= 1 + if policy.maxRetries > 0 then policy.maxRetries else 0)
    && row'.attempts == row.attempts + 1 && row'.lastError == Some(error) && row'.ttl == row.ttl
    && (exhausted ==> row'.status == Failed && row'.nextAttemptAt == row.nextAttemptAt)
    && (!exhausted ==>
          row'.status == Pending && row'.nextAttemptAt - now == ConfiguredDelay(policy.delays, row.attempts))
  }

  /**
   A permanent error, or the last allowed attempt, fails the row; any other rejection
   leaves it pending, one attempt older, due again after the configured delay.
   */
  lemma RejectionDecides(row: Row, policy: Policy, error: ErrorClass, now: int)
    requires row.status == Pending && error != ExpiredError
    ensures
      var row' := AfterFailure(row, policy, error, now);
      RejectedTo(row, policy, error, now, row', row'.status == Failed)
  {
  }
}
