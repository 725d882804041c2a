/**
 The worker's own code (scripts/process_notification_outbox.py) and the repository it
 calls (app/repositories/notification_outbox.py), as objects updated in place. A pass
 is shown to be a run of the step system, so its safety results apply to it.
 */
module OutboxWorker {
  import opened Common
  import opened OutboxRows
  import opened OutboxProtocol
  import opened OutboxSafety

  /** A loaded row; the repository assigns its columns. */
  class OutboxRow {
    const id: RowId
    var status: Status
    var attempts: int
    var nextAttemptAt: int
    var ttl: Option<int>
    var lastError: Option<ErrorClass>

    constructor (id: RowId, row: Row)
      ensures this.id == id && Value() == row
    {
      this.id := id;
      status, attempts, nextAttemptAt := row.status, row.attempts, row.nextAttemptAt;
      ttl, lastError := row.ttl, row.lastError;
    }

    function Value(): Row
      reads this
    {
      Row(status, attempts, nextAttemptAt, ttl, lastError)
    }

    method SetSent()
      modifies this
      ensures Value() == MarkSent(old(Value()))
      ensures Value() == Row(Sent, old(attempts), old(nextAttemptAt), old(ttl), old(lastError))
    {
      status := Sent;
    }

    method SetFailed(error: ErrorClass)
      modifies this
      ensures Value() == MarkFailed(old(Value()), error)
      ensures Value() == Row(Failed, old(attempts) + 1, old(nextAttemptAt), old(ttl), Some(error))
    {
      attempts := attempts + 1;
      status := Failed;
      lastError := Some(error);
    }

    method Postpone(policy: Policy, error: ErrorClass, now: int)
      modifies this
      ensures Value() == Reschedule(old(Value()), policy, error, now)
      ensures Value() == Row(old(status), old(attempts) + 1, now + ConfiguredDelay(policy.delays, old(attempts)),
                             old(ttl), Some(error))
    {
      attempts := attempts + 1;
      lastError := Some(error);
      nextAttemptAt := NextAttemptAt(attempts + 1, policy.delays, now);
    }
  }

  /** The transaction's flushed events; a savepoint remembers how many there were. */
  class Session {
    var events: seq<Event>

    constructor ()
      ensures events == []
    {
      events := [];
    }

    method Add(e: Event)
      modifies this
      ensures events == old(events) + [e]
    {
      events := events + [e];
    }

    method BeginNested() returns (savepoint: nat)
      ensures savepoint == |events|
    {
      savepoint := |events|;
    }

    method RollbackTo(savepoint: nat)
      requires savepoint <= |events|
      modifies this
      ensures events == old(events)[..savepoint]
    {
      events := events[..savepoint];
    }
  }

  /**
   How a send ends. A rejection is a classified error, raised before or after the issued
   event and, when the vendor's answer cannot be read, after the vendor took the message;
   the last two are unclassified errors before and after that.
   */
  datatype Outcome =
    | Delivered
    | Rejected(error: ErrorClass, issued: bool, delivered: bool)
    | Broken
    | BrokenAfterDelivery

  ghost predicate ValidOutcome(outcome: Outcome) {
    outcome.Rejected? ==> outcome.error != ExpiredError && (outcome.delivered ==> outcome.issued)
  }

  /** The vendor took the message. */
  predicate Reaches(row: Row, now: int, outcome: Outcome) {
    && !Expired(row, now)
    && (outcome == Delivered || outcome == BrokenAfterDelivery || (outcome.Rejected? && outcome.delivered))
  }

  datatype Report = SentNow | FailedNow | Rescheduled | Errored

  predicate Breaks(row: Row, now: int, outcome: Outcome) {
    !Expired(row, now) && (outcome == Broken || outcome == BrokenAfterDelivery)
  }

  function RowAfter(row: Row, policy: Policy, now: int, outcome: Outcome): Row
    requires !Breaks(row, now, outcome)
  {
    if Expired(row, now) then MarkFailed(row, ExpiredError)
    else if outcome.Rejected? then AfterFailure(row, policy, outcome.error, now)
    else MarkSent(row)
  }

  function EventsAfter(id: RowId, row: Row, policy: Policy, now: int, outcome: Outcome): seq<Event>
    requires !Breaks(row, now, outcome)
  {
    match RowAfter(row, policy, now, outcome).status
    case Sent => [Event(MagicLinkIssued, id), Event(NotificationSent, id)]
    case Failed => [Event(RetryExhausted, id)]
    case Pending => []
  }

  /** The rule for one try, on the row and the events alone. */
  ghost predicate Handled(row: Row, id: RowId, policy: Policy, now: int, outcome: Outcome,
                          row': Row, events: seq<Event>) {
    if row.ttl.Some? && row.ttl.value <= now then
      && row' == row.(status := Failed, attempts := row.attempts + 1, lastError := Some(ExpiredError))
      && events == [Event(RetryExhausted, id)]
    else if outcome == Delivered then
      && row' == row.(status := Sent)
      && events == [Event(MagicLinkIssued, id), Event(NotificationSent, id)]
    else
      && outcome.Rejected?
      && RejectedTo(row, policy, outcome.error, now, row', row'.status == Failed)
      && events == if row'.status == Failed then [Event(RetryExhausted, id)] else []
  }

  /** What a try leaves is what the rule asks. */
  lemma TryFollowsTheRule(row: Row, id: RowId, policy: Policy, now: int, outcome: Outcome)
    requires ValidOutcome(outcome) && row.status == Pending && !Breaks(row, now, outcome)
    ensures Handled(row, id, policy, now, outcome,
                    RowAfter(row, policy, now, outcome), EventsAfter(id, row, policy, now, outcome))
  {
    if outcome.Rejected? {
      RejectionDecides(row, policy, outcome.error, now);
    }
  }

  /** _retry_one: expiry test, savepoint, send, then mark the row according to the outcome. */
  method RetryOne(db: Session, row: OutboxRow, policy: Policy, now: int, outcome: Outcome) returns (report: Report)
    requires ValidOutcome(outcome)
    requires db.events == [] && row.status == Pending
    modifies db, row
    ensures report == Errored <==> Breaks(old(row.Value()), now, outcome)
    ensures report == Errored <==>
      !(old(row.ttl).Some? && old(row.ttl).value <= now) && (outcome == Broken || outcome == BrokenAfterDelivery)
    ensures report != Errored ==> Handled(old(row.Value()), row.id, policy, now, outcome, row.Value(), db.events)
    ensures report != Errored ==>
      && row.Value() == RowAfter(old(row.Value()), policy, now, outcome)
      && db.events == EventsAfter(row.id, old(row.Value()), policy, now, outcome)
      && report == match row.status case Sent => SentNow case Failed => FailedNow case Pending => Rescheduled
  {
    if !Breaks(row.Value(), now, outcome) {
      TryFollowsTheRule(row.Value(), row.id, policy, now, outcome);
    }
    if row.ttl.Some? && row.ttl.value <= now {
      row.SetFailed(ExpiredError);
      db.Add(Event(RetryExhausted, row.id));
      return FailedNow;
    }
    var savepoint := db.BeginNested();
    if !outcome.Rejected? || outcome.issued {
      db.Add(Event(MagicLinkIssued, row.id));
    }
    match outcome
    case Delivered =>
      db.Add(Event(NotificationSent, row.id));
      row.SetSent();
      report := SentNow;
    case Rejected(error, _, _) =>
      db.RollbackTo(savepoint);
      if error == TransientError && !IsExhausted(row.attempts + 1, policy.maxRetries) {
        row.Postpone(policy, error, now);
        report := Rescheduled;
      } else {
        row.SetFailed(error);
        db.Add(Event(RetryExhausted, row.id));
        report := FailedNow;
      }
    case Broken =>
      report := Errored;
    case BrokenAfterDelivery =>
      report := Errored;
  }

  /** The transaction of one row: what it is ready to commit, or nothing if an error went through. */
  method Attempt(id: RowId, row: Row, policy: Policy, now: int, outcome: Outcome)
    returns (committed: bool, row': Row, events: seq<Event>)
    requires ValidOutcome(outcome) && row.status == Pending
    ensures committed <==> !Breaks(row, now, outcome)
    ensures committed ==>
      row' == RowAfter(row, policy, now, outcome) && events == EventsAfter(id, row, policy, now, outcome)
    ensures committed ==> Handled(row, id, policy, now, outcome, row', events)
  {
    var db := new Session();
    var loaded := new OutboxRow(id, row);
    var report := RetryOne(db, loaded, policy, now, outcome);
    committed, row', events := report != Errored, loaded.Value(), db.events;
  }

  // ------------------------------------------------- one row of a pass, as a run

  /** The message as the vendor's ledger sees it: once if it was taken. */
  ghost function Taken(id: RowId, row: Row, now: int, outcome: Outcome): multiset<RowId> {
    if Reaches(row, now, outcome) then multiset{id} else multiset{}
  }

  ghost function AfterRow(s: System, policy: Policy, id: RowId, now: int, outcome: Outcome): System
    requires id in s.rows
  {
    var row := s.rows[id];
    var taken := Taken(id, row, now, outcome);
    if Breaks(row, now, outcome) then
      s.(accepted := s.accepted + taken, undone := s.undone + taken)
    else
      s.(rows := s.rows[id := RowAfter(row, policy, now, outcome)],
         events := s.events + EventsAfter(id, row, policy, now, outcome),
         accepted := s.accepted + taken,
         misread := if outcome == Delivered then s.misread else s.misread + taken,
         tries := s.tries + multiset{id})
  }

  ghost predicate Leads(policy: Policy, s: System, steps: seq<Step>, s': System) {
    ValidRun(policy, s, steps) && Exec(policy, s, steps) == s'
  }

  lemma Take(policy: Policy, s: System, steps: seq<Step>, mid: System, step: Step)
    returns (steps': seq<Step>, mid': System)
    requires Leads(policy, s, steps, mid) && Enabled(mid, step)
    ensures steps' == steps + [step] && mid' == Apply(policy, mid, step)
    ensures Leads(policy, s, steps', mid')
  {
    steps', mid' := steps + [step], Apply(policy, mid, step);
    assert [step][1..] == [];
    assert ValidRun(policy, mid', []);
    assert ValidRun(policy, mid, [step]) && Exec(policy, mid, [step]) == mid';
    RunsCompose(policy, s, steps, [step]);
  }

  // What the worker's transaction holds when it is ready to commit.
  ghost function Finished(s: System, policy: Policy, id: RowId, now: int, outcome: Outcome): Txn
    requires id in s.rows && !Breaks(s.rows[id], now, outcome)
  {
    var row := s.rows[id];
    Txn(id, now, RowAfter(row, policy, now, outcome), EventsAfter(id, row, policy, now, outcome), 0, Done,
        Reaches(row, now, outcome))
  }

  lemma SendRun(policy: Policy, s: System, id: RowId, now: int, issued: bool) returns (steps: seq<Step>, mid: System)
    requires s.txns == map[] && Due(s, id, now) && !Expired(s.rows[id], now)
    ensures Leads(policy, s, steps, mid)
    ensures mid == s.(txns := mid.txns) && mid.txns.Keys == {0}
    ensures mid.txns[0]
         == Txn(id, now, s.rows[id], if issued then [Event(MagicLinkIssued, id)] else [], 0, InSavepoint, false)
  {
    assert ValidRun(policy, s, []);
    steps, mid := Take(policy, s, [], s, Claim(0, id, now));
    steps, mid := Take(policy, s, steps, mid, Begin(0));
    if issued {
      steps, mid := Take(policy, s, steps, mid, Issue(0));
    }
  }

  lemma ExpiryRun(policy: Policy, s: System, id: RowId, now: int, outcome: Outcome)
    returns (steps: seq<Step>, mid: System)
    requires s.txns == map[] && Due(s, id, now) && Expired(s.rows[id], now)
    ensures Leads(policy, s, steps, mid)
    ensures mid == s.(txns := mid.txns) && mid.txns.Keys == {0}
    ensures mid.txns[0] == Finished(s, policy, id, now, outcome)
  {
    assert ValidRun(policy, s, []);
    steps, mid := Take(policy, s, [], s, Claim(0, id, now));
    steps, mid := Take(policy, s, steps, mid, Expire(0));
  }

  // A send the vendor took, up to its answer.
  lemma AcceptedRun(policy: Policy, s: System, id: RowId, now: int) returns (steps: seq<Step>, mid: System)
    requires s.txns == map[] && Due(s, id, now) && !Expired(s.rows[id], now)
    ensures Leads(policy, s, steps, mid)
    ensures mid == s.(txns := mid.txns, accepted := s.accepted + multiset{id}) && mid.txns.Keys == {0}
    ensures mid.txns[0] == Txn(id, now, s.rows[id], [Event(MagicLinkIssued, id)], 0, Accepted, true)
  {
    steps, mid := SendRun(policy, s, id, now, true);
    steps, mid := Take(policy, s, steps, mid, Accept(0));
  }

  lemma RejectedRun(policy: Policy, s: System, id: RowId, now: int, outcome: Outcome)
    returns (steps: seq<Step>, mid: System)
    requires s.txns == map[] && Due(s, id, now) && !Expired(s.rows[id], now)
    requires ValidOutcome(outcome) && outcome.Rejected?
    ensures Leads(policy, s, steps, mid)
    ensures mid.txns.Keys == {0} && mid.txns[0] == Finished(s, policy, id, now, outcome)
    ensures mid == s.(txns := mid.txns, accepted := if outcome.delivered then s.accepted + multiset{id} else s.accepted)
  {
    if outcome.delivered {
      steps, mid := AcceptedRun(policy, s, id, now);
    } else {
      steps, mid := SendRun(policy, s, id, now, outcome.issued);
    }
    assert mid.txns[0].events[..0] == [];
    steps, mid := Take(policy, s, steps, mid, Reject(0, outcome.error));
  }

  lemma FinishRun(policy: Policy, s: System, id: RowId, now: int, outcome: Outcome)
    returns (steps: seq<Step>, mid: System)
    requires s.txns == map[] && Due(s, id, now) && ValidOutcome(outcome)
    requires !Breaks(s.rows[id], now, outcome)
    ensures Leads(policy, s, steps, mid)
    ensures mid.txns.Keys == {0} && mid.txns[0] == Finished(s, policy, id, now, outcome)
    ensures mid == s.(txns := mid.txns, accepted := AfterRow(s, policy, id, now, outcome).accepted)
  {
    if Expired(s.rows[id], now) {
      steps, mid := ExpiryRun(policy, s, id, now, outcome);
    } else if outcome == Delivered {
      steps, mid := AcceptedRun(policy, s, id, now);
      steps, mid := Take(policy, s, steps, mid, Release(0));
    } else {
      steps, mid := RejectedRun(policy, s, id, now, outcome);
    }
  }

  /** Processing one row of a pass is a run of the step system from the claim to the commit or the rollback. */
  lemma RowIsARun(policy: Policy, s: System, id: RowId, now: int, outcome: Outcome) returns (steps: seq<Step>)
    requires s.txns == map[] && Due(s, id, now) && ValidOutcome(outcome)
    ensures Leads(policy, s, steps, AfterRow(s, policy, id, now, outcome))
  {
    var mid;
    if Breaks(s.rows[id], now, outcome) {
      steps, mid := SendRun(policy, s, id, now, true);
      if outcome == BrokenAfterDelivery {
        steps, mid := Take(policy, s, steps, mid, Accept(0));
      }
      steps, mid := Take(policy, s, steps, mid, RollBack(0));
    } else {
      steps, mid := FinishRun(policy, s, id, now, outcome);
      steps, mid := Take(policy, s, steps, mid, Commit(0));
    }
    assert mid.txns == map[];
  }

  lemma RowExtendsRun(policy: Policy, s: System, first: seq<Step>, mid: System, id: RowId, now: int, outcome: Outcome)
    returns (steps: seq<Step>)
    requires Leads(policy, s, first, mid) && mid.txns == map[]
    requires Due(mid, id, now) && ValidOutcome(outcome)
    ensures Leads(policy, s, steps, AfterRow(mid, policy, id, now, outcome))
  {
    var rest := RowIsARun(policy, mid, id, now, outcome);
    RunsCompose(policy, s, first, rest);
    steps := first + rest;
  }

  // A row enqueued with the given TTL, due at time 0, in an otherwise empty system.
  lemma EnqueuedRow(policy: Policy, id: RowId, ttl: int) returns (steps: seq<Step>, s: System)
    ensures Leads(policy, EMPTY, steps, s) && s == Apply(policy, EMPTY, Enqueue(id, 0, ttl))
  {
    assert ValidRun(policy, EMPTY, []);
    steps, s := Take(policy, EMPTY, [], EMPTY, Enqueue(id, 0, ttl));
  }

  // `n` times the vendor takes the message and an error follows; the row stays as it was.
  lemma {:induction false} ErrorsAfterDelivery(policy: Policy, id: RowId, n: nat) returns (steps: seq<Step>, s: System)
    ensures Leads(policy, EMPTY, steps, s) && s.txns == map[]
    ensures id in s.rows && s.rows[id] == Row(Pending, 1, 0, Some(1), Some(TransientError))
    ensures s.accepted[id] == s.undone[id] == n && s.crashed[id] == s.misread[id] == s.tries[id] == 0
  {
    if n == 0 {
      steps, s := EnqueuedRow(policy, id, 1);
    } else {
      var before;
      steps, before := ErrorsAfterDelivery(policy, id, n - 1);
      steps := RowExtendsRun(policy, EMPTY, steps, before, id, 0, BrokenAfterDelivery);
      s := AfterRow(before, policy, id, 0, BrokenAfterDelivery);
    }
  }

  /**
   No retry setting prevents a duplicate, and no crash is needed for one: errors between a
   delivery and its commit let a row be delivered any number of times before it is sent.
   */
  lemma ErrorsDuplicateWithoutLimit(policy: Policy, id: RowId, n: nat)
    ensures exists s ::
      && Reachable(policy, s) && id in s.rows && s.rows[id].status == Sent
      && s.accepted[id] == n + 1 && s.crashed[id] == s.misread[id] == 0
  {
    var steps, before := ErrorsAfterDelivery(policy, id, n);
    steps := RowExtendsRun(policy, EMPTY, steps, before, id, 0, Delivered);
    var s := AfterRow(before, policy, id, 0, Delivered);
    assert Reachable(policy, s);
  }

  // An acknowledgement the sender cannot read, and a retry that succeeds before the TTL.
  lemma UnreadableAckThenSent(policy: Policy, id: RowId) returns (s: System)
    requires policy.maxRetries >= 2
    ensures Reachable(policy, s) && id in s.rows && Lost(s, id) == 0 && s.accepted[id] == 2
  {
    var unread := Rejected(TransientError, true, true);
    var retryAt := NextAttemptAt(3, policy.delays, 0);
    var steps, first := EnqueuedRow(policy, id, retryAt + 1);
    var second := AfterRow(first, policy, id, 0, unread);
    steps := RowExtendsRun(policy, EMPTY, steps, first, id, 0, unread);
    assert second.rows[id] == Row(Pending, 2, retryAt, Some(retryAt + 1), Some(TransientError));
    steps := RowExtendsRun(policy, EMPTY, steps, second, id, retryAt, Delivered);
    s := AfterRow(second, policy, id, retryAt, Delivered);
    assert s.accepted == multiset{id} + multiset{id};
  }

  /**
   Where every delivered transaction is committed, a duplicate is possible exactly when at
   least two retries are configured.
   */
  lemma DuplicateWithoutLossIff(policy: Policy, id: RowId)
    ensures (exists s :: Reachable(policy, s) && id in s.rows && Lost(s, id) == 0 && s.accepted[id] >= 2)
       <==> policy.maxRetries >= 2
  {
    if policy.maxRetries >= 2 {
      var s := UnreadableAckThenSent(policy, id);
    }
    forall s | Reachable(policy, s) && id in s.rows && Lost(s, id) == 0 && s.accepted[id] >= 2
      ensures policy.maxRetries >= 2
    {
      OutboxIsSafe(policy, s, id);
    }
  }

  // --------------------------------------------------------------------- the pass

  predicate IsDue(rows: map<RowId, Row>, id: RowId, now: int) {
    id in rows && rows[id].status == Pending && rows[id].nextAttemptAt <= now
  }

  ghost predicate IsHead(rows: map<RowId, Row>, id: RowId, now: int) {
    IsDue(rows, id, now)
    && forall other :: IsDue(rows, other, now) ==> rows[id].nextAttemptAt <= rows[other].nextAttemptAt
  }

  /**
   `ids` are the rows a pass handled, in order: each was the earliest due row when its
   turn came, its send did not break, and it was committed before the next claim.
   */
  ghost predicate Pass(policy: Policy, s: System, clock: seq<int>, outcomes: seq<Outcome>, ids: seq<RowId>, s': System)
    requires |ids| <= |clock| && |clock| == |outcomes|
    decreases ids
  {
    if ids == [] then s' == s
    else
      var n := |ids| - 1;
      exists mid ::
        && Pass(policy, s, clock, outcomes, ids[..n], mid)
        && Handles(mid, ids[n], clock[n], outcomes[n])
        && s' == AfterRow(mid, policy, ids[n], clock[n], outcomes[n])
  }

  ghost predicate Handles(s: System, id: RowId, now: int, outcome: Outcome) {
    IsHead(s.rows, id, now) && !Breaks(s.rows[id], now, outcome)
  }

  /** Why a pass ended: limit reached, nothing due, or a broken send, which only costs the delivery it made. */
  ghost predicate Stopped(policy: Policy, s: System, limit: int, clock: seq<int>, outcomes: seq<Outcome>,
                          handled: nat, s': System)
    requires limit <= |clock| && |clock| == |outcomes|
  {
    || (s' == s && handled >= limit)
    || (handled < limit && s' == s && forall id :: !IsDue(s.rows, id, clock[handled]))
    || (handled < limit && exists id ::
          && IsHead(s.rows, id, clock[handled]) && Breaks(s.rows[id], clock[handled], outcomes[handled])
          && s' == AfterRow(s, policy, id, clock[handled], outcomes[handled]))
  }

  /** One iteration: nothing was due, or the head was taken and its outcome committed or rolled back. */
  ghost predicate Processed(policy: Policy, s: System, now: int, outcome: Outcome,
                            claimed: Option<RowId>, committed: bool, s': System) {
    if claimed.None? then
      !committed && s' == s && forall id :: !IsDue(s.rows, id, now)
    else
      && IsHead(s.rows, claimed.value, now)
      && committed == !Breaks(s.rows[claimed.value], now, outcome)
      && s' == AfterRow(s, policy, claimed.value, now, outcome)
  }

  // The tables and counters after a commit, from the values the transaction left.
  ghost function Recorded(s: System, id: RowId, row: Row, written: seq<Event>,
                          taken: multiset<RowId>, sent: bool): System {
    s.(rows := s.rows[id := row],
       events := s.events + written,
       accepted := s.accepted + taken,
       misread := if sent then s.misread else s.misread + taken,
       tries := s.tries + multiset{id})
  }

  lemma IterationCommits(policy: Policy, s: System, id: RowId, now: int, outcome: Outcome,
                         row: Row, written: seq<Event>)
    requires IsHead(s.rows, id, now) && !Breaks(s.rows[id], now, outcome)
    requires row == RowAfter(s.rows[id], policy, now, outcome)
    requires written == EventsAfter(id, s.rows[id], policy, now, outcome)
    ensures Processed(policy, s, now, outcome, Some(id), true,
                      Recorded(s, id, row, written, Taken(id, s.rows[id], now, outcome), outcome == Delivered))
  {
  }

  /** The database seen by a single worker. */
  class Outbox {
    var rows: map<RowId, Row>
    var events: seq<Event>
    ghost var accepted: multiset<RowId>
    ghost var crashed: multiset<RowId>
    ghost var undone: multiset<RowId>
    ghost var misread: multiset<RowId>
    ghost var tries: multiset<RowId>

    constructor (rows: map<RowId, Row>, events: seq<Event>)
      ensures this.rows == rows && this.events == events
    {
      this.rows, this.events := rows, events;
    }

    ghost function State(): System
      reads this
    {
      System(rows, events, map[], accepted, crashed, undone, misread, tries)
    }

    /** claim_due with limit 1. */
    method ClaimDue(now: int) returns (claimed: Option<RowId>)
      ensures claimed.None? ==> forall id :: !IsDue(rows, id, now)
      ensures claimed.Some? ==> IsHead(rows, claimed.value, now)
      ensures claimed.None? <==> forall id :: id in rows && rows[id].status == Pending ==> rows[id].nextAttemptAt > now
      ensures claimed.Some? ==>
        && claimed.value in rows && rows[claimed.value].status == Pending && rows[claimed.value].nextAttemptAt <= now
        && forall id :: id in rows && rows[id].status == Pending ==>
             rows[claimed.value].nextAttemptAt <= rows[id].nextAttemptAt
    {
      claimed := None;
      var left: set<RowId> := rows.Keys;
      while left != {}
        invariant left <= rows.Keys
        invariant claimed.None? ==> forall id :: id in rows.Keys - left ==> !IsDue(rows, id, now)
        invariant claimed.Some? ==>
          && IsDue(rows, claimed.value, now)
          && forall id :: id in rows.Keys - left && IsDue(rows, id, now) ==>
               rows[claimed.value].nextAttemptAt <= rows[id].nextAttemptAt
        decreases left
      {
        EmptyOrInhabited(left);
        var id :| id in left;
        if IsDue(rows, id, now)
           && (claimed.None? || rows[id].nextAttemptAt < rows[claimed.value].nextAttemptAt) {
          claimed := Some(id);
        }
        left := left - {id};
      }
      forall id | id in rows && rows[id].status == Pending
        ensures rows[id].nextAttemptAt <= now <==> IsDue(rows, id, now)
      {
      }
    }

    /** The transaction's row and events reach the tables. */
    method Commit(id: RowId, row: Row, written: seq<Event>, ghost taken: multiset<RowId>, ghost sent: bool)
      modifies this
      ensures State() == Recorded(old(State()), id, row, written, taken, sent)
    {
      ghost var after := Recorded(State(), id, row, written, taken, sent);
      rows, events := rows[id := row], events + written;
      accepted, misread, tries := after.accepted, after.misread, after.tries;
    }

    /** The tables stay as they are; what the vendor took cannot be taken back. */
    ghost method RollBack(taken: multiset<RowId>)
      modifies this
      ensures State() == old(State()).(accepted := old(accepted) + taken, undone := old(undone) + taken)
    {
      accepted, undone := accepted + taken, undone + taken;
    }

    /** One iteration: claim, process in its own transaction, commit or roll back. */
    method ProcessNext(policy: Policy, now: int, outcome: Outcome) returns (claimed: Option<RowId>, committed: bool)
      requires ValidOutcome(outcome)
      modifies this
      ensures Processed(policy, old(State()), now, outcome, claimed, committed, State())
    {
      committed := false;
      claimed := ClaimDue(now);
      if claimed.None? {
        return;
      }
      var id := claimed.value;
      var row, written;
      committed, row, written := Attempt(id, rows[id], policy, now, outcome);
      ghost var before, taken := State(), Taken(id, rows[id], now, outcome);
      if committed {
        IterationCommits(policy, before, id, now, outcome, row, written);
        Commit(id, row, written, taken, outcome == Delivered);
      } else {
        RollBack(taken);
      }
    }

    /** One turn of the loop: the pass has handled one row more, or it stops here. */
    method Turn(limit: int, policy: Policy, clock: seq<int>, outcomes: seq<Outcome>, handled: nat,
                ghost start: System, ghost ids: seq<RowId>)
      returns (committed: bool, ghost ids': seq<RowId>)
      requires handled == |ids| < limit <= |clock| && |clock| == |outcomes| && ValidOutcome(outcomes[handled])
      requires Pass(policy, start, clock, outcomes, ids, State())
      modifies this
      ensures committed ==> |ids'| == handled + 1 && Pass(policy, start, clock, outcomes, ids', State())
      ensures !committed ==> Stopped(policy, old(State()), limit, clock, outcomes, handled, State())
    {
      ghost var last := State();
      var claimed;
      claimed, committed := ProcessNext(policy, clock[handled], outcomes[handled]);
      if committed {
        PassGrows(policy, start, clock, outcomes, ids, last, claimed.value, State());
        ids' := ids + [claimed.value];
      } else {
        PassStops(policy, last, limit, clock, outcomes, handled, claimed, State());
        ids' := ids;
      }
    }

    /** process_once: `clock[i]` and `outcomes[i]` are what iteration i reads and meets. */
    method ProcessOnce(limit: int, policy: Policy, clock: seq<int>, outcomes: seq<Outcome>)
      returns (handled: nat, ghost ids: seq<RowId>, ghost last: System)
      requires limit <= |clock| && |clock| == |outcomes|
      requires forall i :: 0 <= i < |outcomes| ==> ValidOutcome(outcomes[i])
      modifies this
      ensures handled == |ids| <= Max0(limit) && |ids| <= |clock|
      ensures Pass(policy, old(State()), clock, outcomes, ids, last)
      ensures Stopped(policy, last, limit, clock, outcomes, handled, State())
    {
      handled := 0;
      ids := [];
      ghost var start := State();
      while handled < limit
        invariant handled == |ids| <= Max0(limit)
        invariant Pass(policy, start, clock, outcomes, ids, State())
      {
        last := State();
        var committed, ids' := Turn(limit, policy, clock, outcomes, handled, start, ids);
        if !committed {
          return;  // nothing due, or the row broke and stays pending
        }
        ids := ids';
        handled := handled + 1;
      }
      last := State();
    }
  }

  lemma PassGrows(policy: Policy, s: System, clock: seq<int>, outcomes: seq<Outcome>,
                  ids: seq<RowId>, mid: System, id: RowId, s': System)
    requires |ids| < |clock| && |clock| == |outcomes|
    requires Pass(policy, s, clock, outcomes, ids, mid)
    requires Processed(policy, mid, clock[|ids|], outcomes[|ids|], Some(id), true, s')
    ensures Pass(policy, s, clock, outcomes, ids + [id], s')
  {
    assert (ids + [id])[..|ids|] == ids;
  }

  lemma PassStops(policy: Policy, last: System, limit: int, clock: seq<int>, outcomes: seq<Outcome>,
                  handled: nat, claimed: Option<RowId>, s': System)
    requires handled < limit <= |clock| && |clock| == |outcomes|
    requires Processed(policy, last, clock[handled], outcomes[handled], claimed, false, s')
    ensures Stopped(policy, last, limit, clock, outcomes, handled, s')
  {
  }

  lemma HeadIsDue(s: System, id: RowId, now: int)
    requires s.txns == map[] && IsHead(s.rows, id, now)
    ensures Due(s, id, now)
  {
  }

  lemma {:induction false} HandledRowsAreARun(policy: Policy, s: System, clock: seq<int>, outcomes: seq<Outcome>,
                                              ids: seq<RowId>, last: System) returns (steps: seq<Step>)
    requires |ids| <= |clock| && |clock| == |outcomes| && s.txns == map[]
    requires forall i :: 0 <= i < |outcomes| ==> ValidOutcome(outcomes[i])
    requires Pass(policy, s, clock, outcomes, ids, last)
    ensures last.txns == map[] && Leads(policy, s, steps, last)
    decreases ids
  {
    if ids == [] {
      steps := [];
    } else {
      var n := |ids| - 1;
      var mid :| Pass(policy, s, clock, outcomes, ids[..n], mid)
                 && Handles(mid, ids[n], clock[n], outcomes[n])
                 && last == AfterRow(mid, policy, ids[n], clock[n], outcomes[n]);
      var first := HandledRowsAreARun(policy, s, clock, outcomes, ids[..n], mid);
      HeadIsDue(mid, ids[n], clock[n]);
      steps := RowExtendsRun(policy, s, first, mid, ids[n], clock[n], outcomes[n]);
    }
  }

  /**
   A whole pass is a run of the step system, whichever way it ends: at its limit, with
   nothing due, or at a send that broke before or after the vendor took the message.
   */
  lemma PassIsARun(policy: Policy, s: System, limit: int, clock: seq<int>, outcomes: seq<Outcome>,
                   ids: seq<RowId>, last: System, s': System) returns (steps: seq<Step>)
    requires limit <= |clock| && |ids| <= |clock| && |clock| == |outcomes| && s.txns == map[]
    requires forall i :: 0 <= i < |outcomes| ==> ValidOutcome(outcomes[i])
    requires Pass(policy, s, clock, outcomes, ids, last)
    requires Stopped(policy, last, limit, clock, outcomes, |ids|, s')
    ensures s'.txns == map[] && Leads(policy, s, steps, s')
  {
    steps := HandledRowsAreARun(policy, s, clock, outcomes, ids, last);
    if s' != last {
      var n := |ids|;
      var id :| IsHead(last.rows, id, clock[n]) && Breaks(last.rows[id], clock[n], outcomes[n])
                && s' == AfterRow(last, policy, id, clock[n], outcomes[n]);
      HeadIsDue(last, id, clock[n]);
      steps := RowExtendsRun(policy, s, steps, last, id, clock[n], outcomes[n]);
    }
  }

  // --------------------------------------------------------------- the poison row

  lemma {:induction false} FirstOfPass(policy: Policy, s: System, clock: seq<int>, outcomes: seq<Outcome>,
                                       ids: seq<RowId>, s': System)
    requires 0 < |ids| <= |clock| && |clock| == |outcomes|
    requires Pass(policy, s, clock, outcomes, ids, s')
    ensures Handles(s, ids[0], clock[0], outcomes[0])
    decreases ids
  {
    var n := |ids| - 1;
    var mid :| Pass(policy, s, clock, outcomes, ids[..n], mid) && Handles(mid, ids[n], clock[n], outcomes[n]);
    if n > 0 {
      FirstOfPass(policy, s, clock, outcomes, ids[..n], mid);
    }
  }

  /** A row whose send breaks at the head of the due order stops the pass before any row is handled. */
  lemma {:induction false} PoisonRowStopsThePass(policy: Policy, s: System, clock: seq<int>, outcomes: seq<Outcome>,
                              ids: seq<RowId>, s': System)
    requires 0 < |clock| == |outcomes| && |ids| <= |clock|
    requires forall id :: IsHead(s.rows, id, clock[0]) ==> Breaks(s.rows[id], clock[0], outcomes[0])
    requires Pass(policy, s, clock, outcomes, ids, s')
    ensures ids == [] && s' == s
  {
    if ids != [] {
      FirstOfPass(policy, s, clock, outcomes, ids, s');
    }
  }

  lemma {:induction false} FailedStaysFailed(policy: Policy, s: System, clock: seq<int>, outcomes: seq<Outcome>,
                                             ids: seq<RowId>, s': System)
    requires 0 < |ids| <= |clock| && |clock| == |outcomes|
    requires Pass(policy, s, clock, outcomes, ids, s')
    requires ids[0] in s.rows && Expired(s.rows[ids[0]], clock[0])
    ensures ids[0] in s'.rows && s'.rows[ids[0]].status == Failed
    decreases ids
  {
    var n := |ids| - 1;
    var mid :| Pass(policy, s, clock, outcomes, ids[..n], mid)
               && Handles(mid, ids[n], clock[n], outcomes[n])
               && s' == AfterRow(mid, policy, ids[n], clock[n], outcomes[n]);
    if n > 0 {
      FailedStaysFailed(policy, s, clock, outcomes, ids[..n], mid);
    }
  }

  /** ... but only until its TTL: once expired, the first pass to reach the row fails it, whatever its send would do. */
  lemma TtlEndsThePoison(policy: Policy, s: System, limit: int, clock: seq<int>, outcomes: seq<Outcome>,
                         ids: seq<RowId>, last: System, s': System, poison: RowId)
    requires 0 < limit <= |clock| && |clock| == |outcomes| && |ids| <= |clock|
    requires IsHead(s.rows, poison, clock[0]) && Expired(s.rows[poison], clock[0])
    requires forall id :: IsHead(s.rows, id, clock[0]) ==> id == poison
    requires Pass(policy, s, clock, outcomes, ids, last)
    requires Stopped(policy, last, limit, clock, outcomes, |ids|, s')
    ensures poison in s'.rows && s'.rows[poison].status == Failed
  {
    if ids != [] {
      FirstOfPass(policy, s, clock, outcomes, ids, last);
      FailedStaysFailed(policy, s, clock, outcomes, ids, last);
    }
  }

  /** What one pass reads and meets. */
  datatype Round = Round(clock: seq<int>, outcomes: seq<Outcome>)

  ghost predicate ValidRound(round: Round, limit: int) {
    0 < limit <= |round.clock| && |round.clock| == |round.outcomes|
  }

  /** The outcome of one complete pass of process_once. */
  ghost predicate OnePass(policy: Policy, s: System, limit: int, round: Round, s': System)
    requires ValidRound(round, limit)
  {
    exists ids, last ::
      && |ids| <= |round.clock|
      && Pass(policy, s, round.clock, round.outcomes, ids, last)
      && Stopped(policy, last, limit, round.clock, round.outcomes, |ids|, s')
  }

  ghost predicate Passes(policy: Policy, s: System, limit: int, rounds: seq<Round>, s': System)
    decreases rounds
  {
    if rounds == [] then s' == s
    else
      var n := |rounds| - 1;
      ValidRound(rounds[n], limit)
      && exists mid :: Passes(policy, s, limit, rounds[..n], mid) && OnePass(policy, mid, limit, rounds[n], s')
  }

  /** `poison` is due, and before every other pending row. */
  ghost predicate Foremost(rows: map<RowId, Row>, poison: RowId, now: int) {
    && IsDue(rows, poison, now)
    && forall id :: id in rows && rows[id].status == Pending && id != poison ==>
         rows[poison].nextAttemptAt < rows[id].nextAttemptAt
  }

  /** The pass starts after `since`, before the TTL of `row`, and its first send breaks. */
  ghost predicate Poisoned(round: Round, limit: int, since: int, row: Row) {
    && ValidRound(round, limit)
    && since <= round.clock[0]
    && Breaks(row, round.clock[0], round.outcomes[0])
  }

  lemma PoisonedPass(policy: Policy, s: System, limit: int, round: Round, s': System, poison: RowId, since: int)
    requires Foremost(s.rows, poison, since) && Poisoned(round, limit, since, s.rows[poison])
    requires OnePass(policy, s, limit, round, s')
    ensures s'.rows == s.rows && s'.events == s.events && s'.tries == s.tries
  {
    var ids, last :| && |ids| <= |round.clock|
                     && Pass(policy, s, round.clock, round.outcomes, ids, last)
                     && Stopped(policy, last, limit, round.clock, round.outcomes, |ids|, s');
    PoisonRowStopsThePass(policy, s, round.clock, round.outcomes, ids, last);
  }

  /**
   However many passes are made before its TTL, a row at the front of the queue whose send
   breaks every time keeps everything as it is: no row changes, no event is written, and
   the row stays at the front.
   */
  lemma {:induction false} PoisonBlocksEveryPass(policy: Policy, s: System, limit: int, rounds: seq<Round>, s': System,
                                                 poison: RowId, since: int)
    requires Foremost(s.rows, poison, since)
    requires forall i :: 0 <= i < |rounds| ==> Poisoned(rounds[i], limit, since, s.rows[poison])
    requires Passes(policy, s, limit, rounds, s')
    ensures s'.rows == s.rows && s'.events == s.events && s'.tries == s.tries
    ensures forall now :: since <= now ==> Foremost(s'.rows, poison, now)
    decreases rounds
  {
    if rounds != [] {
      var n := |rounds| - 1;
      var mid :| Passes(policy, s, limit, rounds[..n], mid) && OnePass(policy, mid, limit, rounds[n], s');
      PoisonBlocksEveryPass(policy, s, limit, rounds[..n], mid, poison, since);
      PoisonedPass(policy, mid, limit, rounds[n], s', poison, since);
    }
  }

  /** ... and the first pass that starts at or after its TTL fails the row, whatever its send would do. */
  lemma PoisonEndsAtItsTtl(policy: Policy, s: System, limit: int, rounds: seq<Round>, mid: System,
                           final: Round, s': System, poison: RowId, since: int)
    requires Foremost(s.rows, poison, since)
    requires forall i :: 0 <= i < |rounds| ==> Poisoned(rounds[i], limit, since, s.rows[poison])
    requires ValidRound(final, limit) && since <= final.clock[0] && Expired(s.rows[poison], final.clock[0])
    requires Passes(policy, s, limit, rounds, mid) && OnePass(policy, mid, limit, final, s')
    ensures mid.rows == s.rows
    ensures poison in s'.rows && s'.rows[poison].status == Failed
  {
    PoisonBlocksEveryPass(policy, s, limit, rounds, mid, poison, since);
    assert Foremost(mid.rows, poison, final.clock[0]);
    var ids, last :| && |ids| <= |final.clock|
                     && Pass(policy, mid, final.clock, final.outcomes, ids, last)
                     && Stopped(policy, last, limit, final.clock, final.outcomes, |ids|, s');
    TtlEndsThePoison(policy, mid, limit, final.clock, final.outcomes, ids, last, s', poison);
  }
}
