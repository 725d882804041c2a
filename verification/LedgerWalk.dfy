/**
 The ledger walk of the cutover reconciliation (alembic/versions/049_loan_ledger.py):
 accrue up to each row, pay interest first, send excess interest to principal,
 clamp at zero. Nothing is assumed about the rows: allocations may be negative and
 rows may be dated after the cutover or before the disbursement.
 */
module LedgerWalk {
  import opened Common
  import opened Accrual
  import opened LedgerRows

  datatype Loan = Loan(principal: int, storedBalance: int, rateBps: int, disbursedOn: Option<int>)

  datatype Balance = Balance(outstanding: int, interestDue: int, cursor: Option<int>)

  // -------------------------------------------------------------- specification

  function Opening(loan: Loan): Balance {
    Balance(Max0(loan.principal), 0, loan.disbursedOn)
  }

  predicate Advances(b: Balance, day: int) {
    b.cursor.Some? && day > b.cursor.value
  }

  function AccrueTo(b: Balance, rateBps: int, day: int): Balance {
    if Advances(b, day) then
      Balance(b.outstanding,
              b.interestDue + AccrueCents(b.outstanding, rateBps, day - b.cursor.value),
              Some(day))
    else b
  }

  function Pay(b: Balance, principal: int, interest: int): Balance {
    var excess := Max0(interest - b.interestDue);
    Balance(Max0(b.outstanding - principal - excess), Max0(b.interestDue - interest), b.cursor)
  }

  function ApplyRow(b: Balance, rateBps: int, row: Row, cutover: int): Balance {
    if row.effective > cutover then b
    else Pay(AccrueTo(b, rateBps, row.effective), row.principal, row.interest)
  }

  function Replay(loan: Loan, rows: seq<Row>, cutover: int): Balance {
    if rows == [] then Opening(loan)
    else ApplyRow(Replay(loan, rows[..|rows| - 1], cutover), loan.rateBps, rows[|rows| - 1], cutover)
  }

  function BalanceAt(loan: Loan, rows: seq<Row>, cutover: int): Balance {
    AccrueTo(Replay(loan, rows, cutover), loan.rateBps, cutover)
  }

  /** The loop over the ordered rows. */
  method Walk(loan: Loan, rows: seq<Row>, cutover: int) returns (outstanding: int, interestDue: int)
    ensures outstanding == BalanceAt(loan, rows, cutover).outstanding
    ensures interestDue == BalanceAt(loan, rows, cutover).interestDue
  {
    outstanding := Max0(loan.principal);
    interestDue := 0;
    var cursor := loan.disbursedOn;
    for i := 0 to |rows|
      invariant Balance(outstanding, interestDue, cursor) == Replay(loan, rows[..i], cutover)
    {
      var row := rows[i];
      assert rows[..i + 1][..i] == rows[..i];
      if row.effective > cutover {
        continue;
      }
      if cursor.Some? && row.effective > cursor.value {
        interestDue := interestDue + AccrueCents(outstanding, loan.rateBps, row.effective - cursor.value);
        cursor := Some(row.effective);
      }
      var excess := Max0(row.interest - interestDue);
      interestDue := Max0(interestDue - row.interest);
      outstanding := Max0(outstanding - row.principal - excess);
    }
    assert rows[..|rows|] == rows;
    if cursor.Some? && cutover > cursor.value {
      interestDue := interestDue + AccrueCents(outstanding, loan.rateBps, cutover - cursor.value);
    }
  }

  // ------------------------------------------------------------- never negative

  lemma {:induction false} BalancesStayNonNegative(loan: Loan, rows: seq<Row>, cutover: int)
    ensures Replay(loan, rows, cutover).outstanding >= 0
    ensures Replay(loan, rows, cutover).interestDue >= 0
    ensures BalanceAt(loan, rows, cutover).outstanding >= 0
    ensures BalanceAt(loan, rows, cutover).interestDue >= 0
  {
    if rows != [] {
      BalancesStayNonNegative(loan, rows[..|rows| - 1], cutover);
    }
    var b := Replay(loan, rows, cutover);
    if Advances(b, cutover) {
      AccrualNonNegative(b.outstanding, loan.rateBps, cutover - b.cursor.value);
    }
  }

  // ----------------------------------------------------- the accrual spans tile time

  /** Interest of one span: `days` days from `start`, on the principal outstanding at that point. */
  datatype Span = Span(start: int, end: int, outstanding: int)

  function SpanTo(b: Balance, day: int): seq<Span> {
    if Advances(b, day) then [Span(b.cursor.value, day, b.outstanding)] else []
  }

  function SpansOfRows(loan: Loan, rows: seq<Row>, cutover: int): seq<Span> {
    if rows == [] then []
    else
      var init, last := rows[..|rows| - 1], rows[|rows| - 1];
      SpansOfRows(loan, init, cutover)
      + if last.effective > cutover then [] else SpanTo(Replay(loan, init, cutover), last.effective)
  }

  function Spans(loan: Loan, rows: seq<Row>, cutover: int): seq<Span> {
    SpansOfRows(loan, rows, cutover) + SpanTo(Replay(loan, rows, cutover), cutover)
  }

  /** Non-empty spans laid end to end from `start` to `end`. */
  ghost predicate Tile(spans: seq<Span>, start: int, end: int) {
    && (forall i :: 0 <= i < |spans| ==> spans[i].start < spans[i].end)
    && (forall i :: 0 <= i < |spans| - 1 ==> spans[i].end == spans[i + 1].start)
    && (if spans == [] then start == end else spans[0].start == start && spans[|spans| - 1].end == end)
  }

  lemma {:induction false} SpansOfRowsTile(loan: Loan, rows: seq<Row>, cutover: int)
    requires loan.disbursedOn.Some?
    ensures
      var b := Replay(loan, rows, cutover);
      && b.cursor.Some?
      && loan.disbursedOn.value <= b.cursor.value <= Max(loan.disbursedOn.value, cutover)
      && Tile(SpansOfRows(loan, rows, cutover), loan.disbursedOn.value, b.cursor.value)
  {
    if rows != [] {
      SpansOfRowsTile(loan, rows[..|rows| - 1], cutover);
    }
  }

  /** For every ledger, in any order, interest accrues on each day of the loan exactly once. */
  lemma SpansPartitionTheLoan(loan: Loan, rows: seq<Row>, cutover: int)
    requires loan.disbursedOn.Some?
    ensures Tile(Spans(loan, rows, cutover), loan.disbursedOn.value, Max(loan.disbursedOn.value, cutover))
  {
    SpansOfRowsTile(loan, rows, cutover);
  }

  lemma {:induction false} NoDisbursementNoAccrual(loan: Loan, rows: seq<Row>, cutover: int)
    requires loan.disbursedOn.None?
    ensures Replay(loan, rows, cutover).cursor.None? && Spans(loan, rows, cutover) == []
    ensures BalanceAt(loan, rows, cutover).interestDue == 0 || exists i :: 0 <= i < |rows| && rows[i].interest < 0
  {
    if rows != [] {
      NoDisbursementNoAccrual(loan, rows[..|rows| - 1], cutover);
    }
  }

  // ------------------------------------------------------------------ conservation

  function Accrued(spans: seq<Span>, rateBps: int): int {
    if spans == [] then 0
    else
      var last := spans[|spans| - 1];
      Accrued(spans[..|spans| - 1], rateBps) + AccrueCents(last.outstanding, rateBps, last.end - last.start)
  }

  function Allocated(rows: seq<Row>, cutover: int): int {
    if rows == [] then 0
    else
      var last := rows[|rows| - 1];
      Allocated(rows[..|rows| - 1], cutover)
      + if last.effective > cutover then 0 else last.principal + last.interest
  }

  /** Money a row pays beyond the principal it finds: the zero clamp forgets it. */
  function RowLoss(b: Balance, rateBps: int, row: Row): nat {
    var due := AccrueTo(b, rateBps, row.effective).interestDue;
    Max0(row.principal + Max0(row.interest - due) - b.outstanding)
  }

  function ClampLoss(loan: Loan, rows: seq<Row>, cutover: int): nat {
    if rows == [] then 0
    else
      var init, last := rows[..|rows| - 1], rows[|rows| - 1];
      ClampLoss(loan, init, cutover)
      + if last.effective > cutover then 0 else RowLoss(Replay(loan, init, cutover), loan.rateBps, last)
  }

  lemma AccruedOfOneMore(spans: seq<Span>, b: Balance, rateBps: int, day: int)
    ensures Accrued(spans + SpanTo(b, day), rateBps)
         == Accrued(spans, rateBps) + AccrueTo(b, rateBps, day).interestDue - b.interestDue
  {
    if Advances(b, day) {
      assert (spans + SpanTo(b, day))[..|spans|] == spans;
    } else {
      assert spans + SpanTo(b, day) == spans;
    }
  }

  lemma {:induction false} ReplayConservesMoney(loan: Loan, rows: seq<Row>, cutover: int)
    ensures
      var b := Replay(loan, rows, cutover);
      b.outstanding + b.interestDue
        == Max0(loan.principal) + Accrued(SpansOfRows(loan, rows, cutover), loan.rateBps)
           - Allocated(rows, cutover) + ClampLoss(loan, rows, cutover)
  {
    if rows != [] {
      var init, last := rows[..|rows| - 1], rows[|rows| - 1];
      ReplayConservesMoney(loan, init, cutover);
      if last.effective > cutover {
        assert SpansOfRows(loan, rows, cutover) == SpansOfRows(loan, init, cutover);
      } else {
        AccruedOfOneMore(SpansOfRows(loan, init, cutover), Replay(loan, init, cutover), loan.rateBps, last.effective);
      }
    }
  }

  /**
   Conservation over the whole walk: what is owed at the cutover is the advance, plus
   the interest of the spans, minus everything allocated, plus what the clamp forgot.
   */
  lemma WalkConservesMoney(loan: Loan, rows: seq<Row>, cutover: int)
    ensures
      var b := BalanceAt(loan, rows, cutover);
      b.outstanding + b.interestDue
        == Max0(loan.principal) + Accrued(Spans(loan, rows, cutover), loan.rateBps)
           - Allocated(rows, cutover) + ClampLoss(loan, rows, cutover)
  {
    ReplayConservesMoney(loan, rows, cutover);
    AccruedOfOneMore(SpansOfRows(loan, rows, cutover), Replay(loan, rows, cutover), loan.rateBps, cutover);
  }

  /** Row `k` pays no more principal, excess interest included, than is outstanding when it is met. */
  ghost predicate Fits(loan: Loan, rows: seq<Row>, cutover: int, k: nat)
    requires k < |rows|
  {
    rows[k].effective <= cutover ==>
      var b := AccrueTo(Replay(loan, rows[..k], cutover), loan.rateBps, rows[k].effective);
      rows[k].principal + Max0(rows[k].interest - b.interestDue) <= b.outstanding
  }

  /** The walk forgets money exactly when some row pays more principal than is outstanding. */
  lemma {:induction false} NothingForgottenIff(loan: Loan, rows: seq<Row>, cutover: int)
    ensures ClampLoss(loan, rows, cutover) == 0
       <==> forall k {:trigger Fits(loan, rows, cutover, k)} :: 0 <= k < |rows| ==> Fits(loan, rows, cutover, k)
  {
    if rows != [] {
      var n := |rows| - 1;
      var init := rows[..n];
      NothingForgottenIff(loan, init, cutover);
      forall k | 0 <= k < n ensures Fits(loan, init, cutover, k) <==> Fits(loan, rows, cutover, k) {
        assert init[..k] == rows[..k];
      }
      assert Fits(loan, rows, cutover, n) <==>
             rows[n].effective > cutover || RowLoss(Replay(loan, init, cutover), loan.rateBps, rows[n]) == 0;
    }
  }

  /** Conservation without a loss, for exactly the ledgers whose rows all fit. */
  lemma MoneyIsConservedIff(loan: Loan, rows: seq<Row>, cutover: int)
    ensures
      var b := BalanceAt(loan, rows, cutover);
      b.outstanding + b.interestDue
        == Max0(loan.principal) + Accrued(Spans(loan, rows, cutover), loan.rateBps) - Allocated(rows, cutover)
      <==> forall k {:trigger Fits(loan, rows, cutover, k)} :: 0 <= k < |rows| ==> Fits(loan, rows, cutover, k)
  {
    WalkConservesMoney(loan, rows, cutover);
    NothingForgottenIff(loan, rows, cutover);
  }

  /** Principal paid beyond the balance is forgotten even while interest is still owed. */
  lemma SurplusPrincipalDoesNotPayInterest()
    ensures
      var loan := Loan(100_000, 0, 3_650, Some(0));
      var row := Row(1, Payment, 120_000, 120_000, 0, 0, 0, 30, None);
      BalanceAt(loan, [row], 30) == Balance(0, 3_000, Some(30)) && ClampLoss(loan, [row], 30) == 20_000
  {
  }
}
