/**
 The engine that serves balances after the migration: row-to-event mapping
 (app/services/loan_ledger.py) and the bucket walk (app/services/interest_engine.py).
 The migration re-implements this walk; here the two are compared.
 */
module LiveEngine {
  import opened Common
  import opened Accrual
  import opened LedgerRows
  import opened LedgerWalk
  import opened Cutover

  datatype Event = Event(
    effective: int,
    principalPaid: int, interestPaid: int, feesPaid: int, addOnPaid: int,
    principalCharged: int, interestCharged: int, feesCharged: int, addOnCharged: int)

  datatype Buckets = Buckets(outstanding: int, interestDue: int, feesDue: int, addOn: int, cursor: Option<int>)

  // ------------------------------------------------------------- rows to events

  function FindRow(rows: seq<Row>, number: int): Option<Row> {
    if rows == [] then None
    else if rows[|rows| - 1].number == number then Some(rows[|rows| - 1])
    else FindRow(rows[..|rows| - 1], number)
  }

  function PaymentEvent(row: Row): Event {
    Event(row.effective, row.principal, row.interest, row.fees, row.addOn, 0, 0, 0, 0)
  }

  // Payments and adjustments pay the buckets, fees charge them, disbursements are informational.
  function ForwardEvent(row: Row): Option<Event> {
    match row.txn
    case Payment => Some(PaymentEvent(row))
    case Adjustment => Some(PaymentEvent(row))
    case Fee => Some(Event(row.effective, 0, 0, 0, 0, 0, 0, row.fees, row.addOn))
    case Disbursement => None
    case Reversal => None
  }

  // A reversal is the original with paid and charged exchanged, at its own date;
  // dangling and chained reversals are no-ops.
  function EventForRow(rows: seq<Row>, row: Row): Option<Event> {
    if row.txn != Reversal then ForwardEvent(row)
    else if row.reverses.None? then None
    else
      match FindRow(rows, row.reverses.value)
      case None => None
      case Some(original) =>
        match ForwardEvent(original)
        case None => None
        case Some(e) => Some(Event(row.effective,
                                   0, 0, e.feesCharged, e.addOnCharged,
                                   e.principalPaid, e.interestPaid, e.feesPaid, e.addOnPaid))
  }

  function EventsForRows(rows: seq<Row>, k: nat): seq<Event>
    requires k <= |rows|
  {
    if k == 0 then []
    else EventsForRows(rows, k - 1)
         + match EventForRow(rows, rows[k - 1]) case None => [] case Some(e) => [e]
  }

  // --------------------------------------------------------------- the bucket walk

  function EngineOpening(loan: Loan): Buckets {
    Buckets(Max0(loan.principal), 0, 0, 0, loan.disbursedOn)
  }

  function EngineAccrue(b: Buckets, rateBps: int, day: int): Buckets {
    if b.cursor.Some? && day > b.cursor.value then
      b.(interestDue := b.interestDue + AccrueCents(b.outstanding, rateBps, day - b.cursor.value),
         cursor := Some(day))
    else b
  }

  function EngineApply(b: Buckets, e: Event): Buckets {
    var interestDue := b.interestDue + e.interestCharged;
    var excess := Max0(e.interestPaid - interestDue);
    Buckets(Max0(b.outstanding + e.principalCharged - e.principalPaid - excess),
            Max0(interestDue - e.interestPaid),
            Max0(b.feesDue + e.feesCharged - e.feesPaid),
            Max0(b.addOn + e.addOnCharged - e.addOnPaid),
            b.cursor)
  }

  function EngineReplay(loan: Loan, events: seq<Event>, asOf: int): Buckets {
    if events == [] then EngineOpening(loan)
    else
      var b, e := EngineReplay(loan, events[..|events| - 1], asOf), events[|events| - 1];
      if e.effective > asOf then b else EngineApply(EngineAccrue(b, loan.rateBps, e.effective), e)
  }

  function EngineBalances(loan: Loan, events: seq<Event>, asOf: int): Buckets {
    EngineAccrue(EngineReplay(loan, events, asOf), loan.rateBps, asOf)
  }

  method ComputeBalances(loan: Loan, events: seq<Event>, asOf: int)
    returns (outstanding: int, interestDue: int, feesDue: int, addOn: int)
    ensures
      var b := EngineBalances(loan, events, asOf);
      outstanding == b.outstanding && interestDue == b.interestDue && feesDue == b.feesDue && addOn == b.addOn
  {
    outstanding, interestDue, feesDue, addOn := Max0(loan.principal), 0, 0, 0;
    var cursor := loan.disbursedOn;
    for i := 0 to |events|
      invariant Buckets(outstanding, interestDue, feesDue, addOn, cursor) == EngineReplay(loan, events[..i], asOf)
    {
      var e := events[i];
      assert events[..i + 1][..i] == events[..i];
      if e.effective > asOf {
        continue;
      }
      if cursor.Some? && e.effective > cursor.value {
        interestDue := interestDue + AccrueCents(outstanding, loan.rateBps, e.effective - cursor.value);
        cursor := Some(e.effective);
      }
      interestDue := interestDue + e.interestCharged;
      var excess := Max0(e.interestPaid - interestDue);
      interestDue := Max0(interestDue - e.interestPaid);
      outstanding := outstanding + e.principalCharged;
      outstanding := Max0(outstanding - e.principalPaid - excess);
      feesDue := Max0(feesDue + e.feesCharged - e.feesPaid);
      addOn := Max0(addOn + e.addOnCharged - e.addOnPaid);
    }
    assert events[..|events|] == events;
    if cursor.Some? && asOf > cursor.value {
      interestDue := interestDue + AccrueCents(outstanding, loan.rateBps, asOf - cursor.value);
    }
  }

  /** What the application reports for a loan: all rows in replay order, mapped, walked. */
  function LoanBalances(loan: Loan, rows: seq<Row>, asOf: int): Buckets {
    var ordered := OrderRows(rows);
    EngineBalances(loan, EventsForRows(ordered, |ordered|), asOf)
  }

  // ------------------------------------------------------- engine versus migration

  predicate Core(row: Row) {
    IsReplayed(row) || row.txn == Disbursement
  }

  predicate NoFees(row: Row) {
    row.fees == 0 && row.addOn == 0
  }

  ghost predicate Matches(b: Buckets, w: Balance) {
    b.outstanding == w.outstanding && b.interestDue == w.interestDue && b.cursor == w.cursor
  }

  lemma EngineStep(loan: Loan, events: seq<Event>, e: Event, asOf: int)
    ensures EngineReplay(loan, events + [e], asOf)
         == if e.effective > asOf then EngineReplay(loan, events, asOf)
            else EngineApply(EngineAccrue(EngineReplay(loan, events, asOf), loan.rateBps, e.effective), e)
  {
  }

  lemma WalkStep(loan: Loan, rows: seq<Row>, row: Row, asOf: int)
    ensures Replay(loan, rows + [row], asOf) == ApplyRow(Replay(loan, rows, asOf), loan.rateBps, row, asOf)
  {
  }

  lemma PaymentMatches(b: Buckets, w: Balance, rateBps: int, row: Row, e: Event)
    requires Matches(b, w)
    requires e == PaymentEvent(row)
    ensures Matches(EngineApply(EngineAccrue(b, rateBps, e.effective), e),
                    Pay(AccrueTo(w, rateBps, row.effective), row.principal, row.interest))
  {
  }

  /** What an event moves, paid less charged, as a row of the migration's walk. */
  function NetRow(e: Event): Row {
    Row(0, Adjustment, 0, e.principalPaid - e.principalCharged, e.interestPaid - e.interestCharged, 0, 0,
        e.effective, None)
  }

  function NetRows(events: seq<Event>): seq<Row> {
    if events == [] then [] else NetRows(events[..|events| - 1]) + [NetRow(events[|events| - 1])]
  }

  lemma NetRowMatches(b: Buckets, w: Balance, rateBps: int, e: Event, asOf: int)
    requires Matches(b, w) && e.effective <= asOf
    ensures Matches(EngineApply(EngineAccrue(b, rateBps, e.effective), e), ApplyRow(w, rateBps, NetRow(e), asOf))
  {
  }

  /**
   The engine's walk and the migration's are one walk: for every list of events, charges,
   fees and reversals included, principal and interest are those of the net rows, where a
   reversal takes back its original's allocations and a fee moves nothing but the date.
   */
  lemma {:induction false} EngineIsTheWalkOfNetRows(loan: Loan, events: seq<Event>, asOf: int)
    ensures Matches(EngineReplay(loan, events, asOf), Replay(loan, NetRows(events), asOf))
    ensures Matches(EngineBalances(loan, events, asOf), BalanceAt(loan, NetRows(events), asOf))
  {
    if events != [] {
      var init, e := events[..|events| - 1], events[|events| - 1];
      EngineIsTheWalkOfNetRows(loan, init, asOf);
      WalkStep(loan, NetRows(init), NetRow(e), asOf);
      if e.effective <= asOf {
        NetRowMatches(EngineReplay(loan, init, asOf), Replay(loan, NetRows(init), asOf), loan.rateBps, e, asOf);
      }
    }
  }

  // A payment or adjustment adds one event for the engine and one row for the walk.
  lemma PaymentExtendsBoth(ordered: seq<Row>, k: nat, e: Event)
    requires 0 < k <= |ordered| && IsReplayed(ordered[k - 1])
    requires e == PaymentEvent(ordered[k - 1])
    ensures EventsForRows(ordered, k) == EventsForRows(ordered, k - 1) + [e]
    ensures Select(ordered[..k]) == Select(ordered[..k - 1]) + [ordered[k - 1]]
  {
    assert ordered[..k][..k - 1] == ordered[..k - 1];
  }

  // A disbursement adds nothing to either.
  lemma DisbursementExtendsNeither(ordered: seq<Row>, k: nat)
    requires 0 < k <= |ordered| && ordered[k - 1].txn == Disbursement
    ensures EventsForRows(ordered, k) == EventsForRows(ordered, k - 1)
    ensures Select(ordered[..k]) == Select(ordered[..k - 1])
  {
    assert ordered[..k][..k - 1] == ordered[..k - 1];
  }

  lemma {:induction false} EngineFollowsWalk(loan: Loan, ordered: seq<Row>, k: nat, asOf: int)
    requires k <= |ordered|
    requires forall i :: 0 <= i < |ordered| ==> Core(ordered[i])
    ensures Matches(EngineReplay(loan, EventsForRows(ordered, k), asOf), Replay(loan, Select(ordered[..k]), asOf))
  {
    if k > 0 {
      EngineFollowsWalk(loan, ordered, k - 1, asOf);
      var row := ordered[k - 1];
      var events, rows := EventsForRows(ordered, k - 1), Select(ordered[..k - 1]);
      assert Core(row);
      if IsReplayed(row) {
        var e := PaymentEvent(row);
        PaymentExtendsBoth(ordered, k, e);
        EngineStep(loan, events, e, asOf);
        WalkStep(loan, rows, row, asOf);
        PaymentMatches(EngineReplay(loan, events, asOf), Replay(loan, rows, asOf), loan.rateBps, row, e);
      } else {
        DisbursementExtendsNeither(ordered, k);
      }
    }
  }

  lemma {:induction false} SelectCounts(rows: seq<Row>, row: Row)
    ensures multiset(Select(rows))[row] == if IsReplayed(row) then multiset(rows)[row] else 0
  {
    if rows != [] {
      var init, last := rows[..|rows| - 1], rows[|rows| - 1];
      SelectCounts(init, row);
      assert rows == init + [last];
    }
  }

  lemma {:induction false} SelectKeepsOrder(rows: seq<Row>)
    requires InOrder(rows)
    ensures InOrder(Select(rows))
  {
    if rows != [] {
      var init, last := rows[..|rows| - 1], rows[|rows| - 1];
      SelectKeepsOrder(init);
      forall i | 0 <= i < |Select(init)| ensures Precedes(Select(init)[i], last) {
        SelectedRowsAreRows(init, Select(init)[i]);
      }
    }
  }

  lemma SelectCommutesWithOrder(rows: seq<Row>)
    requires ValidRows(rows)
    ensures Select(OrderRows(rows)) == OrderRows(Select(rows))
  {
    OrderRowsSorts(rows);
    SelectKeepsOrder(OrderRows(rows));
    SelectKeepsValid(rows);
    OrderRowsSorts(Select(rows));
    forall r | true
      ensures multiset(Select(OrderRows(rows)))[r] == multiset(OrderRows(Select(rows)))[r]
    {
      SelectCounts(OrderRows(rows), r);
      SelectCounts(rows, r);
    }
    assert multiset(Select(OrderRows(rows))) == multiset(OrderRows(Select(rows)));
    ReplayOrderIsUnique(Select(OrderRows(rows)), OrderRows(Select(rows)));
  }

  /** The migration's walk has the semantics of the live engine, on ledgers without fee and reversal rows. */
  lemma MigrationAgreesWithEngine(loan: Loan, rows: seq<Row>, asOf: int)
    requires ValidRows(rows)
    requires forall i :: 0 <= i < |rows| ==> Core(rows[i])
    ensures LoanBalances(loan, rows, asOf).outstanding == MigrationBalance(loan, rows, asOf).outstanding
    ensures LoanBalances(loan, rows, asOf).interestDue == MigrationBalance(loan, rows, asOf).interestDue
  {
    var ordered := OrderRows(rows);
    forall i | 0 <= i < |ordered| ensures Core(ordered[i]) {
      OrderMembers(rows, ordered[i]);
    }
    EngineFollowsWalk(loan, ordered, |ordered|, asOf);
    assert ordered[..|ordered|] == ordered;
    SelectCommutesWithOrder(rows);
  }

  lemma {:induction false} NoFeeBuckets(loan: Loan, ordered: seq<Row>, k: nat, asOf: int)
    requires k <= |ordered|
    requires forall i :: 0 <= i < |ordered| ==> Core(ordered[i]) && NoFees(ordered[i])
    ensures EngineReplay(loan, EventsForRows(ordered, k), asOf).feesDue == 0
    ensures EngineReplay(loan, EventsForRows(ordered, k), asOf).addOn == 0
  {
    if k > 0 {
      NoFeeBuckets(loan, ordered, k - 1, asOf);
      var row := ordered[k - 1];
      assert Core(row) && NoFees(row);
      if IsReplayed(row) {
        PaymentExtendsBoth(ordered, k, PaymentEvent(row));
        EngineStep(loan, EventsForRows(ordered, k - 1), PaymentEvent(row), asOf);
      } else {
        DisbursementExtendsNeither(ordered, k);
      }
    }
  }

  /**
   After the reconciliation the live engine itself reports the stored balance (clamped
   at zero) and empty interest, fee and add-on buckets at the cutover date.
   */
  lemma EngineReportsStoredBalance(loan: Loan, rows: seq<Row>, cutover: int)
    requires ValidRows(rows)
    requires forall i :: 0 <= i < |rows| ==> Core(rows[i]) && NoFees(rows[i])
    ensures
      var b := LoanBalances(loan, Reconciled(loan, rows, cutover), cutover);
      b.outstanding == Max0(loan.storedBalance) && b.interestDue == 0 && b.feesDue == 0 && b.addOn == 0
  {
    var after := Reconciled(loan, rows, cutover);
    ReconciledIsValid(loan, rows, cutover);
    MigrationAgreesWithEngine(loan, after, cutover);
    ReconciliationLands(loan, rows, cutover);
    var ordered := OrderRows(after);
    forall i | 0 <= i < |ordered| ensures Core(ordered[i]) && NoFees(ordered[i]) {
      OrderMembers(after, ordered[i]);
    }
    NoFeeBuckets(loan, ordered, |ordered|, cutover);
  }

  // ------------------------------------------------------------------------ fee rows

  /** A fee row as the walk sees it: nothing moves, but interest is rounded off at its date. */
  function Walked(row: Row): Row {
    if row.txn == Fee then row.(txn := Adjustment, principal := 0, interest := 0) else row
  }

  function WalkedRows(rows: seq<Row>): seq<Row> {
    seq(|rows|, i requires 0 <= i < |rows| => Walked(rows[i]))
  }

  lemma {:induction false} InsertingWalkedRows(sorted: seq<Row>, row: Row)
    ensures InsertRow(WalkedRows(sorted), Walked(row)) == WalkedRows(InsertRow(sorted, row))
  {
    if sorted != [] {
      var init := sorted[..|sorted| - 1];
      InsertingWalkedRows(init, row);
      assert WalkedRows(sorted)[..|sorted| - 1] == WalkedRows(init);
    }
  }

  lemma {:induction false} OrderingWalkedRows(rows: seq<Row>)
    ensures OrderRows(WalkedRows(rows)) == WalkedRows(OrderRows(rows))
  {
    if rows != [] {
      var init, last := rows[..|rows| - 1], rows[|rows| - 1];
      OrderingWalkedRows(init);
      assert WalkedRows(rows)[..|rows| - 1] == WalkedRows(init);
      InsertingWalkedRows(OrderRows(init), last);
    }
  }

  // The net row of a ledger row's event, if it has one.
  function Moves(rows: seq<Row>, row: Row): seq<Row> {
    match EventForRow(rows, row) case None => [] case Some(e) => [NetRow(e)]
  }

  lemma WalkedRowMovesTheSame(rows: seq<Row>, others: seq<Row>, row: Row)
    requires row.txn != Reversal
    ensures Moves(rows, row) == Moves(others, Walked(row))
  {
  }

  lemma OneMoreNetRow(rows: seq<Row>, k: nat)
    requires 0 < k <= |rows|
    ensures NetRows(EventsForRows(rows, k)) == NetRows(EventsForRows(rows, k - 1)) + Moves(rows, rows[k - 1])
  {
    var init := EventsForRows(rows, k - 1);
    match EventForRow(rows, rows[k - 1])
    case None =>
      assert EventsForRows(rows, k) == init;
    case Some(e) =>
      assert EventsForRows(rows, k) == init + [e];
      assert (init + [e])[..|init|] == init;
  }

  ghost predicate NoReversals(rows: seq<Row>) {
    forall i :: 0 <= i < |rows| ==> rows[i].txn != Reversal
  }

  lemma {:induction false} WalkedRowsMoveTheSame(rows: seq<Row>, walked: seq<Row>, k: nat)
    requires k <= |rows| == |walked| && NoReversals(rows)
    requires forall i :: 0 <= i < |rows| ==> walked[i] == Walked(rows[i])
    ensures NetRows(EventsForRows(rows, k)) == NetRows(EventsForRows(walked, k))
  {
    if k > 0 {
      var row := rows[k - 1];
      assert Moves(rows, row) == Moves(walked, walked[k - 1]) by {
        WalkedRowMovesTheSame(rows, walked, row);
      }
      WalkedRowsMoveTheSame(rows, walked, k - 1);
      OneMoreNetRow(rows, k);
      OneMoreNetRow(walked, k);
    }
  }

  lemma EngineSeesWalkedRows(loan: Loan, rows: seq<Row>, asOf: int)
    requires NoReversals(rows)
    ensures LoanBalances(loan, rows, asOf).outstanding == LoanBalances(loan, WalkedRows(rows), asOf).outstanding
    ensures LoanBalances(loan, rows, asOf).interestDue == LoanBalances(loan, WalkedRows(rows), asOf).interestDue
  {
    var ordered := OrderRows(rows);
    var walked := WalkedRows(ordered);
    forall i | 0 <= i < |ordered| ensures ordered[i].txn != Reversal {
      OrderMembers(rows, ordered[i]);
    }
    OrderingWalkedRows(rows);
    WalkedRowsMoveTheSame(ordered, walked, |ordered|);
    EngineIsTheWalkOfNetRows(loan, EventsForRows(ordered, |ordered|), asOf);
    EngineIsTheWalkOfNetRows(loan, EventsForRows(walked, |walked|), asOf);
  }

  lemma WalkedConcat(a: seq<Row>, b: seq<Row>)
    ensures WalkedRows(a + b) == WalkedRows(a) + WalkedRows(b)
  {
  }

  lemma CoreRowsAreWalked(rows: seq<Row>)
    requires forall i :: 0 <= i < |rows| ==> Core(rows[i])
    ensures WalkedRows(rows) == rows && NoReversals(rows)
  {
  }

  lemma WalkedRowsAreValid(rows: seq<Row>)
    requires ValidRows(rows)
    ensures ValidRows(WalkedRows(rows))
  {
  }

  /**
   On every ledger without reversals, fee rows included, the application reports the
   balance the migration's walk gives when it stops at the fee rows too.
   */
  lemma EngineStopsAtFeeRows(loan: Loan, rows: seq<Row>, asOf: int)
    requires ValidRows(rows)
    requires NoReversals(rows)
    ensures LoanBalances(loan, rows, asOf).outstanding == MigrationBalance(loan, WalkedRows(rows), asOf).outstanding
    ensures LoanBalances(loan, rows, asOf).interestDue == MigrationBalance(loan, WalkedRows(rows), asOf).interestDue
  {
    EngineSeesWalkedRows(loan, rows, asOf);
    WalkedRowsAreValid(rows);
    MigrationAgreesWithEngine(loan, WalkedRows(rows), asOf);
  }
}
