/**
 Safety of the outbox over every interleaving of workers, failures and crashes.
 */
module OutboxSafety {
  import opened Common
  import opened OutboxRows
  import opened OutboxProtocol

  function Written(s: System, kind: Kind, id: RowId): nat {
    multiset(s.events)[Event(kind, id)]
  }

  /** Deliveries of which the database keeps no trace, because a crash or an error ended their transaction. */
  function Lost(s: System, id: RowId): nat {
    s.crashed[id] + s.undone[id]
  }

  ghost predicate InFlight(s: System, id: RowId) {
    exists w :: w in s.txns && s.txns[w].id == id && s.txns[w].delivered
  }

  function Cap(policy: Policy): int {
    1 + Max0(policy.maxRetries)
  }

  // --------------------------------------------------------------------- invariant

  /** An open transaction works on a copy of its pending row and holds only its own events. */
  ghost predicate TxnOk(policy: Policy, s: System, t: Txn) {
    && t.id in s.rows && s.rows[t.id].status == Pending
    && t.savepoint == 0
    && var committed := s.rows[t.id];
       match t.phase
       case Claimed => t.row == committed && t.events == [] && !t.delivered
       case InSavepoint =>
         t.row == committed && !t.delivered && (t.events == [] || t.events == [Event(MagicLinkIssued, t.id)])
       case Accepted => t.row == committed && t.delivered && t.events == [Event(MagicLinkIssued, t.id)]
       case Done => DoneOk(policy, committed, t)
  }

  ghost predicate DoneOk(policy: Policy, committed: Row, t: Txn) {
    match t.row.status
    case Sent =>
      t.delivered && t.row.attempts == committed.attempts
      && t.events == [Event(MagicLinkIssued, t.id), Event(NotificationSent, t.id)]
    case Failed =>
      t.row.attempts == committed.attempts + 1 && t.events == [Event(RetryExhausted, t.id)]
    case Pending =>
      t.row.attempts == committed.attempts + 1 && t.events == []
      && !IsExhausted(t.row.attempts, policy.maxRetries)
  }

  /** The committed account of one row: its status decides every counter. */
  ghost predicate RowOk(policy: Policy, s: System, id: RowId) {
    if id !in s.rows then
      && Written(s, RetryExhausted, id) == 0
      && Written(s, MagicLinkIssued, id) == 0
      && Written(s, NotificationSent, id) == 0
      && s.accepted[id] == s.crashed[id] == s.undone[id] == s.misread[id] == s.tries[id] == 0
    else
      var row := s.rows[id];
      var sent := if row.status == Sent then 1 else 0;
      && Written(s, RetryExhausted, id) == (if row.status == Failed then 1 else 0)
      && Written(s, MagicLinkIssued, id) == sent
      && Written(s, NotificationSent, id) == sent
      && s.accepted[id] == Lost(s, id) + s.misread[id] + sent + (if InFlight(s, id) then 1 else 0)
      && s.misread[id] + sent <= s.tries[id]
      && s.tries[id] == row.attempts - 1 + sent
      && 1 <= row.attempts <= Max(2, Cap(policy))
      && (row.status != Failed ==> row.attempts == 1 || row.attempts < Cap(policy))
  }

  ghost predicate Inv(policy: Policy, s: System) {
    && (forall w :: w in s.txns ==> TxnOk(policy, s, s.txns[w]))
    && (forall v, w :: v in s.txns && w in s.txns && s.txns[v].id == s.txns[w].id ==> v == w)
    && (forall id :: RowOk(policy, s, id))
  }

  lemma InvHoldsInitially(policy: Policy)
    ensures Inv(policy, EMPTY)
  {
  }

  // ------------------------------------------------------------------ preservation

  // A step inside one transaction, without a delivery, touches no committed account.
  lemma StepInsideTxn(policy: Policy, s: System, w: WorkerId, t: Txn)
    requires Inv(policy, s) && w in s.txns
    requires t.id == s.txns[w].id && t.delivered == s.txns[w].delivered
    requires TxnOk(policy, s, t)
    ensures Inv(policy, WithTxn(s, w, t))
  {
    var s' := WithTxn(s, w, t);
    forall v | v in s'.txns ensures TxnOk(policy, s', s'.txns[v]) {
      assert v == w || TxnOk(policy, s, s.txns[v]);
    }
    forall id ensures RowOk(policy, s', id) {
      assert RowOk(policy, s, id);
      SameFlights(s, s', w, id);
    }
  }

  lemma SameFlights(s: System, s': System, w: WorkerId, id: RowId)
    requires w in s.txns && w in s'.txns && s'.txns == s.txns[w := s'.txns[w]]
    requires s'.txns[w].id == s.txns[w].id && s'.txns[w].delivered == s.txns[w].delivered
    ensures InFlight(s, id) == InFlight(s', id)
  {
    if InFlight(s, id) {
      var v :| v in s.txns && s.txns[v].id == id && s.txns[v].delivered;
      assert v in s'.txns && s'.txns[v].id == id && s'.txns[v].delivered;
    }
    if InFlight(s', id) {
      var v :| v in s'.txns && s'.txns[v].id == id && s'.txns[v].delivered;
      assert v in s.txns && s.txns[v].id == id && s.txns[v].delivered;
    }
  }

  lemma ClaimKeepsInv(policy: Policy, s: System, w: WorkerId, id: RowId, now: int)
    requires Inv(policy, s) && Enabled(s, Claim(w, id, now))
    ensures Inv(policy, Apply(policy, s, Claim(w, id, now)))
  {
    var s' := Apply(policy, s, Claim(w, id, now));
    forall v | v in s'.txns ensures TxnOk(policy, s', s'.txns[v]) {
      assert v == w || TxnOk(policy, s, s.txns[v]);
    }
    forall i ensures RowOk(policy, s', i) {
      assert RowOk(policy, s, i);
      if InFlight(s, i) {
        var v :| v in s.txns && s.txns[v].id == i && s.txns[v].delivered;
        assert v in s'.txns && s'.txns[v] == s.txns[v];
      }
      assert InFlight(s, i) == InFlight(s', i);
    }
  }

  lemma AcceptKeepsInv(policy: Policy, s: System, w: WorkerId)
    requires Inv(policy, s) && Enabled(s, Accept(w))
    ensures Inv(policy, Apply(policy, s, Accept(w)))
  {
    var s' := Apply(policy, s, Accept(w));
    var mine := s.txns[w].id;
    assert TxnOk(policy, s, s.txns[w]);
    forall v | v in s'.txns ensures TxnOk(policy, s', s'.txns[v]) {
      assert v == w || TxnOk(policy, s, s.txns[v]);
    }
    forall id ensures RowOk(policy, s', id) {
      assert RowOk(policy, s, id);
      if id == mine {
        assert !InFlight(s, id);
        assert w in s'.txns && s'.txns[w].id == id && s'.txns[w].delivered;
      } else {
        OtherFlights(s, s', w, id);
      }
    }
  }

  // Flights of other rows do not depend on worker `w`'s transaction.
  lemma OtherFlights(s: System, s': System, w: WorkerId, id: RowId)
    requires forall v :: v != w ==> (v in s.txns <==> v in s'.txns)
    requires forall v :: v != w && v in s.txns ==> s.txns[v] == s'.txns[v]
    requires w in s.txns ==> s.txns[w].id != id
    requires w in s'.txns ==> s'.txns[w].id != id
    ensures InFlight(s, id) == InFlight(s', id)
  {
  }

  // When a transaction ends, its row is no longer in flight.
  lemma FlightEnds(s: System, s': System, w: WorkerId)
    requires w in s.txns && s'.txns == s.txns - {w}
    requires forall v :: v in s.txns && s.txns[v].id == s.txns[w].id ==> v == w
    ensures InFlight(s, s.txns[w].id) == s.txns[w].delivered
    ensures !InFlight(s', s.txns[w].id)
  {
  }

  lemma EndKeepsTxns(policy: Policy, s: System, s': System, w: WorkerId)
    requires Inv(policy, s) && w in s.txns && s'.txns == s.txns - {w}
    requires forall id :: id in s.rows && id != s.txns[w].id ==> id in s'.rows && s'.rows[id] == s.rows[id]
    ensures forall v :: v in s'.txns ==> TxnOk(policy, s', s'.txns[v])
  {
  }

  lemma LossKeepsInv(policy: Policy, s: System, w: WorkerId, step: Step)
    requires Inv(policy, s) && Enabled(s, step) && (step == RollBack(w) || step == Crash(w))
    ensures Inv(policy, Apply(policy, s, step))
  {
    var s' := Apply(policy, s, step);
    EndKeepsTxns(policy, s, s', w);
    FlightEnds(s, s', w);
    forall id ensures RowOk(policy, s', id) {
      assert RowOk(policy, s, id);
      if id == s.txns[w].id {
        assert TxnOk(policy, s, s.txns[w]);
      } else {
        OtherFlights(s, s', w, id);
      }
    }
  }

  lemma CommittedCounts(s: System, s': System, t: Txn, id: RowId)
    requires s'.events == s.events + t.events
    ensures forall kind :: Written(s', kind, id) == Written(s, kind, id) + multiset(t.events)[Event(kind, id)]
  {
  }

  lemma CommitAccount(policy: Policy, s: System, w: WorkerId)
    requires Inv(policy, s) && Enabled(s, Commit(w))
    ensures RowOk(policy, Apply(policy, s, Commit(w)), s.txns[w].id)
  {
    var s' := Apply(policy, s, Commit(w));
    var t := s.txns[w];
    assert TxnOk(policy, s, t) && RowOk(policy, s, t.id);
    FlightEnds(s, s', w);
    CommittedCounts(s, s', t, t.id);
    match t.row.status
    case Sent =>
      assert multiset(t.events) == multiset{Event(MagicLinkIssued, t.id), Event(NotificationSent, t.id)};
    case Failed =>
      assert multiset(t.events) == multiset{Event(RetryExhausted, t.id)};
    case Pending =>
  }

  lemma CommitKeepsOtherAccounts(policy: Policy, s: System, w: WorkerId, id: RowId)
    requires Inv(policy, s) && Enabled(s, Commit(w)) && id != s.txns[w].id
    ensures RowOk(policy, Apply(policy, s, Commit(w)), id)
  {
    var s', t := Apply(policy, s, Commit(w)), s.txns[w];
    assert TxnOk(policy, s, t) && RowOk(policy, s, id);
    OtherFlights(s, s', w, id);
    CommittedCounts(s, s', t, id);
    forall kind ensures multiset(t.events)[Event(kind, id)] == 0 {
      OnlyOwnEvents(policy, s, t, kind, id);
    }
  }

  lemma CommitKeepsInv(policy: Policy, s: System, w: WorkerId)
    requires Inv(policy, s) && Enabled(s, Commit(w))
    ensures Inv(policy, Apply(policy, s, Commit(w)))
  {
    var s' := Apply(policy, s, Commit(w));
    assert TxnOk(policy, s, s.txns[w]);
    EndKeepsTxns(policy, s, s', w);
    forall id ensures RowOk(policy, s', id) {
      if id == s.txns[w].id {
        CommitAccount(policy, s, w);
      } else {
        CommitKeepsOtherAccounts(policy, s, w, id);
      }
    }
  }

  lemma OnlyOwnEvents(policy: Policy, s: System, t: Txn, kind: Kind, id: RowId)
    requires TxnOk(policy, s, t) && id != t.id
    ensures multiset(t.events)[Event(kind, id)] == 0
  {
  }

  lemma EnqueueKeepsInv(policy: Policy, s: System, id: RowId, nextAttemptAt: int, ttl: int)
    requires Inv(policy, s) && Enabled(s, Enqueue(id, nextAttemptAt, ttl))
    ensures Inv(policy, Apply(policy, s, Enqueue(id, nextAttemptAt, ttl)))
  {
    var s' := Apply(policy, s, Enqueue(id, nextAttemptAt, ttl));
    forall w | w in s'.txns ensures TxnOk(policy, s', s'.txns[w]) {
      assert TxnOk(policy, s, s.txns[w]);
    }
    forall i ensures RowOk(policy, s', i) {
      assert RowOk(policy, s, i);
      assert InFlight(s', i) == InFlight(s, i);
    }
  }

  lemma RejectKeepsInv(policy: Policy, s: System, w: WorkerId, error: ErrorClass)
    requires Inv(policy, s) && Enabled(s, Reject(w, error))
    ensures Inv(policy, Apply(policy, s, Reject(w, error)))
  {
    var t := s.txns[w];
    var t' := Apply(policy, s, Reject(w, error)).txns[w];
    assert TxnOk(policy, s, t);
    assert t.events[..0] == [];
    StepInsideTxn(policy, s, w, t');
  }

  /** Every step of every worker keeps the account of every row. */
  lemma StepKeepsInv(policy: Policy, s: System, step: Step)
    requires Inv(policy, s) && Enabled(s, step)
    ensures Inv(policy, Apply(policy, s, step))
  {
    match step
    case Enqueue(id, nextAttemptAt, ttl) => EnqueueKeepsInv(policy, s, id, nextAttemptAt, ttl);
    case Claim(w, id, now) => ClaimKeepsInv(policy, s, w, id, now);
    case Expire(w) =>
      assert TxnOk(policy, s, s.txns[w]);
      StepInsideTxn(policy, s, w, Apply(policy, s, step).txns[w]);
    case Begin(w) =>
      assert TxnOk(policy, s, s.txns[w]);
      StepInsideTxn(policy, s, w, Apply(policy, s, step).txns[w]);
    case Issue(w) =>
      assert TxnOk(policy, s, s.txns[w]);
      StepInsideTxn(policy, s, w, Apply(policy, s, step).txns[w]);
    case Accept(w) => AcceptKeepsInv(policy, s, w);
    case Release(w) =>
      assert TxnOk(policy, s, s.txns[w]);
      StepInsideTxn(policy, s, w, Apply(policy, s, step).txns[w]);
    case Reject(w, error) => RejectKeepsInv(policy, s, w, error);
    case Commit(w) => CommitKeepsInv(policy, s, w);
    case RollBack(w) => LossKeepsInv(policy, s, w, step);
    case Crash(w) => LossKeepsInv(policy, s, w, step);
  }

  lemma {:induction false} RunKeepsInv(policy: Policy, s: System, steps: seq<Step>)
    requires Inv(policy, s) && ValidRun(policy, s, steps)
    ensures Inv(policy, Exec(policy, s, steps))
    decreases steps
  {
    if steps != [] {
      StepKeepsInv(policy, s, steps[0]);
      RunKeepsInv(policy, Apply(policy, s, steps[0]), steps[1..]);
    }
  }

  // ------------------------------------------------------------------ main results

  ghost predicate Reachable(policy: Policy, s: System) {
    exists steps :: ValidRun(policy, EMPTY, steps) && Exec(policy, EMPTY, steps) == s
  }

  /**
   In every reachable state: a failed row has exactly one exhaustion event and no issued
   link; a sent row keeps exactly one issued link and one sent notice; and every message
   the vendor accepted is one lost in a crash, one undone by an error, one committed as a
   failed try, the one of the sent row, or one of a transaction still open.
   */
  lemma OutboxIsSafe(policy: Policy, s: System, id: RowId)
    requires Reachable(policy, s) && id in s.rows
    ensures Written(s, RetryExhausted, id) == if s.rows[id].status == Failed then 1 else 0
    ensures Written(s, MagicLinkIssued, id) == if s.rows[id].status == Sent then 1 else 0
    ensures Written(s, NotificationSent, id) == Written(s, MagicLinkIssued, id)
    ensures s.accepted[id] == s.crashed[id] + s.undone[id] + s.misread[id]
                              + (if s.rows[id].status == Sent || InFlight(s, id) then 1 else 0)
    ensures InFlight(s, id) ==> s.rows[id].status == Pending
    ensures s.misread[id] + (if s.rows[id].status == Sent then 1 else 0) <= s.tries[id]
    ensures s.accepted[id] <= Max(1, policy.maxRetries) + s.crashed[id] + s.undone[id]
  {
    var steps :| ValidRun(policy, EMPTY, steps) && Exec(policy, EMPTY, steps) == s;
    InvHoldsInitially(policy);
    RunKeepsInv(policy, EMPTY, steps);
    assert RowOk(policy, s, id);
    if InFlight(s, id) {
      var w :| w in s.txns && s.txns[w].id == id && s.txns[w].delivered;
      assert TxnOk(policy, s, s.txns[w]);
    }
  }

  /** Bounded retries: after max(1, maxRetries) committed tries a row is sent or failed. */
  lemma TriesAreBounded(policy: Policy, s: System, id: RowId)
    requires Reachable(policy, s) && id in s.rows
    ensures s.tries[id] <= Max(1, policy.maxRetries)
    ensures s.tries[id] == Max(1, policy.maxRetries) ==> s.rows[id].status != Pending
  {
    var steps :| ValidRun(policy, EMPTY, steps) && Exec(policy, EMPTY, steps) == s;
    InvHoldsInitially(policy);
    RunKeepsInv(policy, EMPTY, steps);
    assert RowOk(policy, s, id);
  }

  /** No two workers ever hold the same row. */
  lemma LocksAreExclusive(policy: Policy, s: System, v: WorkerId, w: WorkerId)
    requires Reachable(policy, s) && v in s.txns && w in s.txns && v != w
    ensures s.txns[v].id != s.txns[w].id
  {
    var steps :| ValidRun(policy, EMPTY, steps) && Exec(policy, EMPTY, steps) == s;
    InvHoldsInitially(policy);
    RunKeepsInv(policy, EMPTY, steps);
  }

  ghost predicate Concerns(s: System, step: Step, id: RowId) {
    !step.Enqueue? && step.w in s.txns && s.txns[step.w].id == id
  }

  /**
   Steps of a run that concern a row: vendor acceptances; crashes and roll-backs between an
   acceptance and its commit; commits of an accepted message as a failed try; all commits.
   */
  ghost function Acceptances(policy: Policy, s: System, steps: seq<Step>, id: RowId): nat
    requires ValidRun(policy, s, steps)
    decreases steps
  {
    if steps == [] then 0
    else (if steps[0].Accept? && Concerns(s, steps[0], id) then 1 else 0)
         + Acceptances(policy, Apply(policy, s, steps[0]), steps[1..], id)
  }

  ghost function CrashedDeliveries(policy: Policy, s: System, steps: seq<Step>, id: RowId): nat
    requires ValidRun(policy, s, steps)
    decreases steps
  {
    if steps == [] then 0
    else (if steps[0].Crash? && Concerns(s, steps[0], id) && s.txns[steps[0].w].delivered then 1 else 0)
         + CrashedDeliveries(policy, Apply(policy, s, steps[0]), steps[1..], id)
  }

  ghost function UndoneDeliveries(policy: Policy, s: System, steps: seq<Step>, id: RowId): nat
    requires ValidRun(policy, s, steps)
    decreases steps
  {
    if steps == [] then 0
    else (if steps[0].RollBack? && Concerns(s, steps[0], id) && s.txns[steps[0].w].delivered then 1 else 0)
         + UndoneDeliveries(policy, Apply(policy, s, steps[0]), steps[1..], id)
  }

  ghost function MisreadCommits(policy: Policy, s: System, steps: seq<Step>, id: RowId): nat
    requires ValidRun(policy, s, steps)
    decreases steps
  {
    if steps == [] then 0
    else (if steps[0].Commit? && Concerns(s, steps[0], id) && Misreads(s.txns[steps[0].w]) then 1 else 0)
         + MisreadCommits(policy, Apply(policy, s, steps[0]), steps[1..], id)
  }

  ghost function Commits(policy: Policy, s: System, steps: seq<Step>, id: RowId): nat
    requires ValidRun(policy, s, steps)
    decreases steps
  {
    if steps == [] then 0
    else (if steps[0].Commit? && Concerns(s, steps[0], id) then 1 else 0)
         + Commits(policy, Apply(policy, s, steps[0]), steps[1..], id)
  }

  lemma CountersCountOneStep(policy: Policy, s: System, step: Step, id: RowId)
    requires Enabled(s, step)
    ensures
      var s', here := Apply(policy, s, step), Concerns(s, step, id);
      && s'.accepted[id] == s.accepted[id] + (if step.Accept? && here then 1 else 0)
      && s'.crashed[id] == s.crashed[id] + (if step.Crash? && here && s.txns[step.w].delivered then 1 else 0)
      && s'.undone[id] == s.undone[id] + (if step.RollBack? && here && s.txns[step.w].delivered then 1 else 0)
      && s'.misread[id] == s.misread[id] + (if step.Commit? && here && Misreads(s.txns[step.w]) then 1 else 0)
      && s'.tries[id] == s.tries[id] + (if step.Commit? && here then 1 else 0)
  {
  }

  /** The history counters count what they are said to count. */
  lemma {:induction false} CountersCountSteps(policy: Policy, s: System, steps: seq<Step>, id: RowId)
    requires ValidRun(policy, s, steps)
    ensures
      var s' := Exec(policy, s, steps);
      && s'.accepted[id] == s.accepted[id] + Acceptances(policy, s, steps, id)
      && s'.crashed[id] == s.crashed[id] + CrashedDeliveries(policy, s, steps, id)
      && s'.undone[id] == s.undone[id] + UndoneDeliveries(policy, s, steps, id)
      && s'.misread[id] == s.misread[id] + MisreadCommits(policy, s, steps, id)
      && s'.tries[id] == s.tries[id] + Commits(policy, s, steps, id)
    decreases steps
  {
    if steps != [] {
      CountersCountOneStep(policy, s, steps[0], id);
      CountersCountSteps(policy, Apply(policy, s, steps[0]), steps[1..], id);
    }
  }

  /**
   In any run from the empty system a row is delivered at most once more than there were,
   between one of its deliveries and the commit, crashes, errors, and sends reported as
   failures. The last are limited by the retries: but for crashes and errors there are at
   most max(1, maxRetries) deliveries, as there are commits.
   */
  lemma DeliveriesPerRun(policy: Policy, steps: seq<Step>, id: RowId)
    requires ValidRun(policy, EMPTY, steps)
    ensures
      var crashes, errors := CrashedDeliveries(policy, EMPTY, steps, id), UndoneDeliveries(policy, EMPTY, steps, id);
      && Acceptances(policy, EMPTY, steps, id) <= 1 + crashes + errors + MisreadCommits(policy, EMPTY, steps, id)
      && Acceptances(policy, EMPTY, steps, id) <= Max(1, policy.maxRetries) + crashes + errors
    ensures Commits(policy, EMPTY, steps, id) <= Max(1, policy.maxRetries)
  {
    InvHoldsInitially(policy);
    RunKeepsInv(policy, EMPTY, steps);
    CountersCountSteps(policy, EMPTY, steps, id);
    assert RowOk(policy, Exec(policy, EMPTY, steps), id);
    var s := Exec(policy, EMPTY, steps);
    if InFlight(s, id) {
      var w :| w in s.txns && s.txns[w].id == id && s.txns[w].delivered;
      assert TxnOk(policy, s, s.txns[w]);
    }
  }

  lemma TerminalStep(policy: Policy, s: System, step: Step, id: RowId)
    requires Inv(policy, s) && Enabled(s, step)
    requires id in s.rows && s.rows[id].status != Pending
    ensures id in Apply(policy, s, step).rows && Apply(policy, s, step).rows[id] == s.rows[id]
    ensures Apply(policy, s, step).tries[id] == s.tries[id] && Apply(policy, s, step).accepted[id] == s.accepted[id]
  {
  }

  /** Sent and failed are final: the row never changes again, nor is it tried or delivered again. */
  lemma {:induction false} TerminalRowsAreFinal(policy: Policy, s: System, steps: seq<Step>, id: RowId)
    requires Inv(policy, s) && ValidRun(policy, s, steps)
    requires id in s.rows && s.rows[id].status != Pending
    ensures
      var s' := Exec(policy, s, steps);
      id in s'.rows && s'.rows[id] == s.rows[id] && s'.tries[id] == s.tries[id] && s'.accepted[id] == s.accepted[id]
    decreases steps
  {
    if steps != [] {
      TerminalStep(policy, s, steps[0], id);
      StepKeepsInv(policy, s, steps[0]);
      TerminalRowsAreFinal(policy, Apply(policy, s, steps[0]), steps[1..], id);
    }
  }

  /** Tries left before the row must be terminal; every committed try uses one up. */
  function TriesLeft(policy: Policy, row: Row): int {
    if row.status == Pending then Max(1, Cap(policy) - row.attempts) else 0
  }

  lemma CommitUsesUpATry(policy: Policy, s: System, w: WorkerId)
    requires Inv(policy, s) && Enabled(s, Commit(w))
    ensures
      var id := s.txns[w].id;
      0 <= TriesLeft(policy, Apply(policy, s, Commit(w)).rows[id]) < TriesLeft(policy, s.rows[id])
  {
  }

  // ------------------------------------------------------- what a try does to the tables

  /** The tables once worker `w` takes `step` and commits. */
  ghost function Committed(policy: Policy, s: System, w: WorkerId, step: Step): System
    requires Enabled(s, step) && Enabled(Apply(policy, s, step), Commit(w))
  {
    Apply(policy, Apply(policy, s, step), Commit(w))
  }

  /** A committed rejection: the row by the rule, one exhaustion event exactly when it fails, no other row touched. */
  lemma CommittedRejection(policy: Policy, s: System, w: WorkerId, error: ErrorClass)
    requires Inv(policy, s) && Enabled(s, Reject(w, error))
    ensures Enabled(Apply(policy, s, Reject(w, error)), Commit(w))
    ensures
      var id := s.txns[w].id;
      var s' := Committed(policy, s, w, Reject(w, error));
      && id in s.rows && id in s'.rows && s'.rows == s.rows[id := s'.rows[id]]
      && RejectedTo(s.rows[id], policy, error, s.txns[w].now, s'.rows[id], s'.rows[id].status == Failed)
      && s'.events == s.events + if s'.rows[id].status == Failed then [Event(RetryExhausted, id)] else []
  {
    var t := s.txns[w];
    assert TxnOk(policy, s, t);
    assert t.events[..0] == [];
    RejectionDecides(t.row, policy, error, t.now);
  }

  /** A committed send and a committed expiry. */
  lemma CommittedSendOrExpiry(policy: Policy, s: System, w: WorkerId, step: Step)
    requires Inv(policy, s) && Enabled(s, step) && (step == Release(w) || step == Expire(w))
    ensures Enabled(Apply(policy, s, step), Commit(w))
    ensures
      var id := s.txns[w].id;
      var s' := Committed(policy, s, w, step);
      && id in s.rows
      && (step.Release? ==>
            && s'.rows == s.rows[id := s.rows[id].(status := Sent)]
            && s'.events == s.events + [Event(MagicLinkIssued, id), Event(NotificationSent, id)])
      && (step.Expire? ==>
            && s.rows[id].ttl.Some? && s.rows[id].ttl.value <= s.txns[w].now
            && s'.rows == s.rows[id := s.rows[id].(status := Failed, attempts := s.rows[id].attempts + 1,
                                                   lastError := Some(ExpiredError))]
            && s'.events == s.events + [Event(RetryExhausted, id)])
  {
    assert TxnOk(policy, s, s.txns[w]);
  }
}
