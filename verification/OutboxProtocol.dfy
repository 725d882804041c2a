/**
 The outbox worker as a step system (scripts/process_notification_outbox.py):
 any number of workers, row locks, one transaction per row with a savepoint inside
 it, vendor sends that cannot be undone, and a crash possible between any two steps.
 */
module OutboxProtocol {
  import opened Common
  import opened OutboxRows

  type RowId = int
  type WorkerId = int

  datatype Kind = MagicLinkIssued | NotificationSent | RetryExhausted

  /** A platform event, attributed to the outbox row whose processing wrote it. */
  datatype Event = Event(kind: Kind, id: RowId)

  // Claimed: row locked. InSavepoint: before the vendor's answer. Accepted: the vendor
  // took the message. Done: ready to commit.
  datatype Phase = Claimed | InSavepoint | Accepted | Done

  /** A worker's open transaction: its lock, its uncommitted row and events. */
  datatype Txn = Txn(id: RowId, now: int, row: Row, events: seq<Event>, savepoint: nat, phase: Phase, delivered: bool)

  /**
   Committed tables, open transactions, and history counters per row: messages the vendor
   accepted; of these, the ones whose transaction a crash lost, an error undid, or a commit
   recorded as a failed try; and all committed tries.
   */
  datatype System = System(
    rows: map<RowId, Row>,
    events: seq<Event>,
    txns: map<WorkerId, Txn>,
    accepted: multiset<RowId>,
    crashed: multiset<RowId>,
    undone: multiset<RowId>,
    misread: multiset<RowId>,
    tries: multiset<RowId>)

  datatype Step =
    | Enqueue(id: RowId, nextAttemptAt: int, ttl: int)
    | Claim(w: WorkerId, id: RowId, now: int)
    | Expire(w: WorkerId)
    | Begin(w: WorkerId)
    | Issue(w: WorkerId)
    | Accept(w: WorkerId)
    | Release(w: WorkerId)
    | Reject(w: WorkerId, error: ErrorClass)
    | Commit(w: WorkerId)
    | RollBack(w: WorkerId)  // unclassified error or failed commit; the worker lives on
    | Crash(w: WorkerId)     // the worker dies and the database discards its transaction

  const EMPTY := System(map[], [], map[], multiset{}, multiset{}, multiset{}, multiset{}, multiset{})

  ghost predicate Locked(s: System, id: RowId) {
    exists w :: w in s.txns && s.txns[w].id == id
  }

  /** What claim_due may lock: under concurrent commits a locking ORDER BY need not answer the earliest row. */
  ghost predicate Due(s: System, id: RowId, now: int) {
    id in s.rows && s.rows[id].status == Pending && s.rows[id].nextAttemptAt <= now && !Locked(s, id)
  }

  ghost predicate InPhase(s: System, w: WorkerId, phase: Phase) {
    w in s.txns && s.txns[w].phase == phase
  }

  ghost predicate Enabled(s: System, step: Step) {
    match step
    case Enqueue(id, _, _) => id !in s.rows
    case Claim(w, id, now) => w !in s.txns && Due(s, id, now)
    case Expire(w) => InPhase(s, w, Claimed) && Expired(s.txns[w].row, s.txns[w].now)
    case Begin(w) => InPhase(s, w, Claimed) && !Expired(s.txns[w].row, s.txns[w].now)
    // The dispatcher flushes the issued event before it calls the vendor.
    case Issue(w) => InPhase(s, w, InSavepoint) && |s.txns[w].events| == s.txns[w].savepoint
    case Accept(w) => InPhase(s, w, InSavepoint) && |s.txns[w].events| == s.txns[w].savepoint + 1
    case Release(w) => InPhase(s, w, Accepted)
    // Recipient lookup and suppression can reject before the event, the vendor after it, and
    // the sender even after the vendor took the message (no message id, unexpected status).
    case Reject(w, error) => (InPhase(s, w, InSavepoint) || InPhase(s, w, Accepted)) && error != ExpiredError
                             && s.txns[w].savepoint <= |s.txns[w].events|
    case Commit(w) => InPhase(s, w, Done)
    case RollBack(w) => w in s.txns
    case Crash(w) => w in s.txns
  }

  /** The vendor took the message, but the try counts as a failed one. */
  predicate Misreads(t: Txn) {
    t.delivered && t.row.status != Sent
  }

  ghost function WithTxn(s: System, w: WorkerId, t: Txn): System {
    s.(txns := s.txns[w := t])
  }

  ghost function Apply(policy: Policy, s: System, step: Step): System
    requires Enabled(s, step)
  {
    match step
    case Enqueue(id, nextAttemptAt, ttl) =>
      s.(rows := s.rows[id := Row(Pending, 1, nextAttemptAt, Some(ttl), Some(TransientError))])
    case Claim(w, id, now) =>
      WithTxn(s, w, Txn(id, now, s.rows[id], [], 0, Claimed, false))
    case Expire(w) =>
      var t := s.txns[w];
      WithTxn(s, w, t.(row := MarkFailed(t.row, ExpiredError),
                       events := t.events + [Event(RetryExhausted, t.id)], phase := Done))
    case Begin(w) =>
      var t := s.txns[w];
      WithTxn(s, w, t.(savepoint := |t.events|, phase := InSavepoint))
    case Issue(w) =>
      var t := s.txns[w];
      WithTxn(s, w, t.(events := t.events + [Event(MagicLinkIssued, t.id)]))
    case Accept(w) =>
      var t := s.txns[w];
      WithTxn(s, w, t.(phase := Accepted, delivered := true)).(accepted := s.accepted + multiset{t.id})
    case Release(w) =>
      var t := s.txns[w];
      WithTxn(s, w, t.(row := MarkSent(t.row),
                       events := t.events + [Event(NotificationSent, t.id)], phase := Done))
    case Reject(w, error) =>
      var t := s.txns[w];
      var row := AfterFailure(t.row, policy, error, t.now);
      var kept := t.events[..t.savepoint];
      WithTxn(s, w, t.(row := row,
                       events := if row.status == Failed then kept + [Event(RetryExhausted, t.id)] else kept,
                       phase := Done))
    case Commit(w) =>
      var t := s.txns[w];
      s.(rows := s.rows[t.id := t.row], events := s.events + t.events,
         txns := s.txns - {w}, tries := s.tries + multiset{t.id},
         misread := if Misreads(t) then s.misread + multiset{t.id} else s.misread)
    case RollBack(w) =>
      var t := s.txns[w];
      s.(txns := s.txns - {w}, undone := if t.delivered then s.undone + multiset{t.id} else s.undone)
    case Crash(w) =>
      var t := s.txns[w];
      s.(txns := s.txns - {w}, crashed := if t.delivered then s.crashed + multiset{t.id} else s.crashed)
  }

  // ------------------------------------------------------------------------- runs

  ghost predicate ValidRun(policy: Policy, s: System, steps: seq<Step>)
    decreases steps
  {
    steps == [] || (Enabled(s, steps[0]) && ValidRun(policy, Apply(policy, s, steps[0]), steps[1..]))
  }

  ghost function Exec(policy: Policy, s: System, steps: seq<Step>): System
    requires ValidRun(policy, s, steps)
    decreases steps
  {
    if steps == [] then s else Exec(policy, Apply(policy, s, steps[0]), steps[1..])
  }

  lemma {:induction false} RunsCompose(policy: Policy, s: System, first: seq<Step>, second: seq<Step>)
    requires ValidRun(policy, s, first) && ValidRun(policy, Exec(policy, s, first), second)
    ensures ValidRun(policy, s, first + second)
    ensures Exec(policy, s, first + second) == Exec(policy, Exec(policy, s, first), second)
    decreases first
  {
    if first == [] {
      assert first + second == second;
    } else {
      RunsCompose(policy, Apply(policy, s, first[0]), first[1..], second);
      assert (first + second)[1..] == first[1..] + second;
    }
  }
}
