/**
 Cutover reconciliation (alembic/versions/049_loan_ledger.py): one adjustment row
 must make the replay land on the stored balance with no interest due.
 */
module Cutover {
  import opened Common
  import opened Accrual
  import opened LedgerRows
  import opened LedgerWalk

  predicate IsReplayed(row: Row) {
    row.txn == Payment || row.txn == Adjustment
  }

  // WHERE txn_type IN ('payment', 'adjustment')
  function Select(rows: seq<Row>): seq<Row> {
    if rows == [] then []
    else
      var last := rows[|rows| - 1];
      Select(rows[..|rows| - 1]) + if IsReplayed(last) then [last] else []
  }

  /** The balance the migration computes from a ledger: select, order, walk. */
  function MigrationBalance(loan: Loan, rows: seq<Row>, cutover: int): Balance {
    BalanceAt(loan, OrderRows(Select(rows)), cutover)
  }

  function AdjustmentRow(loan: Loan, rows: seq<Row>, cutover: int): Row {
    var b := MigrationBalance(loan, rows, cutover);
    var gap := b.outstanding - loan.storedBalance;
    Row(MaxNumber(rows) + 1, Adjustment, Abs(gap) + b.interestDue, gap, b.interestDue, 0, 0, cutover, None)
  }

  predicate Consistent(loan: Loan, rows: seq<Row>, cutover: int) {
    var b := MigrationBalance(loan, rows, cutover);
    b.outstanding == loan.storedBalance && b.interestDue == 0
  }

  function Reconciled(loan: Loan, rows: seq<Row>, cutover: int): seq<Row> {
    if Consistent(loan, rows, cutover) then rows else rows + [AdjustmentRow(loan, rows, cutover)]
  }

  // ------------------------------------------------------- the row takes its place

  // The new row lands after every row dated up to the cutover, before the future-dated ones.
  lemma {:induction false} ReplayWithNewestRow(loan: Loan, ordered: seq<Row>, row: Row, cutover: int)
    requires row.effective == cutover
    requires forall i :: 0 <= i < |ordered| ==> ordered[i].number < row.number
    ensures Replay(loan, InsertRow(ordered, row), cutover)
         == ApplyRow(Replay(loan, ordered, cutover), loan.rateBps, row, cutover)
  {
    if ordered == [] {
      assert [row][..0] == [];
    } else {
      var init, last := ordered[..|ordered| - 1], ordered[|ordered| - 1];
      if Precedes(row, last) {
        ReplayWithNewestRow(loan, init, row, cutover);
        assert (InsertRow(init, row) + [last])[..|InsertRow(init, row)|] == InsertRow(init, row);
      } else {
        assert (ordered + [row])[..|ordered|] == ordered;
      }
    }
  }

  lemma {:induction false} SelectedRowsAreRows(rows: seq<Row>, row: Row)
    ensures row in Select(rows) <==> row in rows && IsReplayed(row)
  {
    if rows != [] {
      SelectedRowsAreRows(rows[..|rows| - 1], row);
      assert rows == rows[..|rows| - 1] + [rows[|rows| - 1]];
    }
  }

  lemma {:induction false} InsertMembers(sorted: seq<Row>, row: Row, r: Row)
    ensures r in InsertRow(sorted, row) <==> r in sorted || r == row
  {
    if sorted != [] {
      InsertMembers(sorted[..|sorted| - 1], row, r);
      assert sorted == sorted[..|sorted| - 1] + [sorted[|sorted| - 1]];
    }
  }

  lemma {:induction false} OrderMembers(rows: seq<Row>, r: Row)
    ensures r in OrderRows(rows) <==> r in rows
  {
    if rows != [] {
      var init, last := rows[..|rows| - 1], rows[|rows| - 1];
      OrderMembers(init, r);
      InsertMembers(OrderRows(init), last, r);
      assert rows == init + [last];
    }
  }

  lemma NewRowIsNewest(rows: seq<Row>)
    ensures forall i :: 0 <= i < |OrderRows(Select(rows))| ==> OrderRows(Select(rows))[i].number < MaxNumber(rows) + 1
  {
    var ordered := OrderRows(Select(rows));
    forall i | 0 <= i < |ordered| ensures ordered[i].number < MaxNumber(rows) + 1 {
      OrderMembers(Select(rows), ordered[i]);
      SelectedRowsAreRows(rows, ordered[i]);
      var j :| 0 <= j < |rows| && rows[j] == ordered[i];
      MaxNumberIsAbove(rows, j);
    }
  }

  // Paying exactly what is due, and the gap, at the cutover leaves the target and nothing due.
  lemma PayingTheGapLands(b: Balance, rateBps: int, target: int, row: Row, cutover: int)
    requires row.effective == cutover
    requires row.principal == AccrueTo(b, rateBps, cutover).outstanding - target
    requires row.interest == AccrueTo(b, rateBps, cutover).interestDue
    ensures
      var after := AccrueTo(ApplyRow(b, rateBps, row, cutover), rateBps, cutover);
      after.outstanding == Max0(target) && after.interestDue == 0
  {
  }

  lemma OrderWithNewestRow(rows: seq<Row>, row: Row)
    requires IsReplayed(row)
    ensures OrderRows(Select(rows + [row])) == InsertRow(OrderRows(Select(rows)), row)
  {
    assert (rows + [row])[..|rows|] == rows;
    assert Select(rows + [row]) == Select(rows) + [row];
    assert (Select(rows) + [row])[..|Select(rows)|] == Select(rows);
  }

  lemma BalanceAfterAdjustment(loan: Loan, rows: seq<Row>, cutover: int)
    ensures
      var b := MigrationBalance(loan, rows + [AdjustmentRow(loan, rows, cutover)], cutover);
      b.outstanding == Max0(loan.storedBalance) && b.interestDue == 0
  {
    var row := AdjustmentRow(loan, rows, cutover);
    var ordered := OrderRows(Select(rows));
    OrderWithNewestRow(rows, row);
    NewRowIsNewest(rows);
    ReplayWithNewestRow(loan, ordered, row, cutover);
    PayingTheGapLands(Replay(loan, ordered, cutover), loan.rateBps, loan.storedBalance, row, cutover);
  }

  // ------------------------------------------------------------------ main results

  /**
   After the pass the replay shows the stored balance clamped at zero and no interest,
   whatever rows the ledger held: future-dated, backdated or with signed allocations.
   */
  lemma ReconciliationLands(loan: Loan, rows: seq<Row>, cutover: int)
    ensures
      var b := MigrationBalance(loan, Reconciled(loan, rows, cutover), cutover);
      b.outstanding == Max0(loan.storedBalance) && b.interestDue == 0
  {
    if Consistent(loan, rows, cutover) {
      BalancesStayNonNegative(loan, OrderRows(Select(rows)), cutover);
    } else {
      BalanceAfterAdjustment(loan, rows, cutover);
    }
  }

  /** The documented outcome (outstanding equals the stored balance) holds exactly when that balance is not negative. */
  lemma LandsExactlyIffStoredBalanceNonNegative(loan: Loan, rows: seq<Row>, cutover: int)
    ensures Consistent(loan, Reconciled(loan, rows, cutover), cutover) <==> loan.storedBalance >= 0
  {
    ReconciliationLands(loan, rows, cutover);
  }

  /** A second pass on the same date appends nothing, exactly when the stored balance is not negative. */
  lemma SecondPassIsIdle(loan: Loan, rows: seq<Row>, cutover: int)
    ensures
      var once := Reconciled(loan, rows, cutover);
      Reconciled(loan, once, cutover) == once <==> loan.storedBalance >= 0
  {
    LandsExactlyIffStoredBalanceNonNegative(loan, rows, cutover);
  }

  /** The pass appends at most one row, and the table accepts it: fresh sequence number, non-negative amount. */
  lemma ReconciledIsValid(loan: Loan, rows: seq<Row>, cutover: int)
    requires ValidRows(rows)
    ensures ValidRows(Reconciled(loan, rows, cutover))
    ensures rows <= Reconciled(loan, rows, cutover) && |Reconciled(loan, rows, cutover)| <= |rows| + 1
    ensures
      var after := Reconciled(loan, rows, cutover);
      |after| > |rows| ==>
        var row := after[|rows|];
        && row.txn == Adjustment && row.effective == cutover && row.fees == row.addOn == 0
        && row.amount == Abs(row.principal) + row.interest > 0
  {
    BalancesStayNonNegative(loan, OrderRows(Select(rows)), cutover);
    forall i | 0 <= i < |rows| ensures rows[i].number <= MaxNumber(rows) {
      MaxNumberIsAbove(rows, i);
    }
  }

  /** The row's sequence number is the next one: 1 on an empty ledger, else one past the highest. */
  lemma AdjustmentIsNumberedNext(loan: Loan, rows: seq<Row>, cutover: int)
    ensures
      var number := AdjustmentRow(loan, rows, cutover).number;
      && (forall r :: r in rows ==> r.number < number)
      && (if rows == [] then number == 1 else exists r :: r in rows && r.number == number - 1)
  {
    MaxNumberIsTaken(rows);
    forall i | 0 <= i < |rows| ensures rows[i].number <= MaxNumber(rows) {
      MaxNumberIsAbove(rows, i);
    }
  }

  lemma {:induction false} SelectKeepsValid(rows: seq<Row>)
    requires ValidRows(rows)
    ensures ValidRows(Select(rows))
  {
    if rows != [] {
      var init, last := rows[..|rows| - 1], rows[|rows| - 1];
      SelectKeepsValid(init);
      forall i | 0 <= i < |Select(init)| ensures Select(init)[i].number != last.number {
        SelectedRowsAreRows(init, Select(init)[i]);
      }
    }
  }

  /** Any order the database may answer with is the one the balance above uses. */
  lemma AnyOrderingGivesTheBalance(loan: Loan, rows: seq<Row>, cutover: int, answer: seq<Row>)
    requires ValidRows(rows)
    requires InOrder(answer) && multiset(answer) == multiset(Select(rows))
    ensures BalanceAt(loan, answer, cutover) == MigrationBalance(loan, rows, cutover)
  {
    SelectKeepsValid(rows);
    OrderRowsSorts(Select(rows));
    ReplayOrderIsUnique(answer, OrderRows(Select(rows)));
  }
}
