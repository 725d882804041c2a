/**
 The migration of one loan (alembic/versions/049_loan_ledger.py): the ledger table
 filled from the payment history, then reconciled with the stored balance.
 */
module LoanLedger {
  import opened Common
  import opened Waterfall
  import opened WaterfallTheorems
  import opened LedgerRows
  import opened LedgerWalk
  import opened Cutover
  import opened LiveEngine

  const SECONDS_PER_DAY := 86_400

  /** A platform_loan_payments row; `receivedAt` is a timestamp in seconds. */
  datatype PaymentRecord = PaymentRecord(amount: int, receivedAt: int)

  function ReceivedOn(p: PaymentRecord): int {
    p.receivedAt / SECONDS_PER_DAY
  }

  function Amounts(payments: seq<PaymentRecord>): seq<int> {
    seq(|payments|, i requires 0 <= i < |payments| => payments[i].amount)
  }

  ghost predicate OrderedByReceipt(payments: seq<PaymentRecord>) {
    forall i, j :: 0 <= i < j < |payments| ==> payments[i].receivedAt <= payments[j].receivedAt
  }

  ghost predicate NonNegativeAmounts(payments: seq<PaymentRecord>) {
    forall i :: 0 <= i < |payments| ==> payments[i].amount >= 0
  }

  function BackfillRow(payments: seq<PaymentRecord>, k: nat, a: Allocation): Row
    requires k < |payments|
  {
    Row(k + 1, Payment, payments[k].amount, a.principal, a.interest, 0, 0, ReceivedOn(payments[k]), None)
  }

  /** One payment row per payment, numbered from 1, carrying its share of the cash stream. */
  ghost predicate Backfilled(schedule: seq<Installment>, payments: seq<PaymentRecord>, rows: seq<Row>) {
    && |rows| <= |payments|
    && forall k {:trigger rows[k]} :: 0 <= k < |rows| ==>
         && payments[k].amount >= 0
         && rows[k] == BackfillRow(payments, k,
              Share(schedule, Cash(Amounts(payments), k), payments[k].amount))
  }

  /**
   What a backfilled row says about its payment: the day of receipt (in whole days of
   86,400 seconds), the amount split in two parts, the running number, and no fees.
   */
  ghost predicate Mirrors(row: Row, p: PaymentRecord, number: int) {
    && row.effective * 86_400 <= p.receivedAt < (row.effective + 1) * 86_400
    && row.amount == p.amount == row.principal + row.interest
    && row.principal >= 0 && row.interest >= 0
    && row.number == number
    && row.txn == Payment && row.fees == row.addOn == 0 && row.reverses == None
  }

  lemma BackfilledRowsMirrorPayments(schedule: seq<Installment>, payments: seq<PaymentRecord>, rows: seq<Row>)
    requires Backfilled(schedule, payments, rows)
    ensures forall k :: 0 <= k < |rows| ==> Mirrors(rows[k], payments[k], k + 1)
  {
    forall k | 0 <= k < |rows| ensures Mirrors(rows[k], payments[k], k + 1) {
      assert rows[k].number == k + 1 && payments[k].amount >= 0;
      RowSplitsItsAmount(schedule, Cash(Amounts(payments), k), payments[k].amount);
    }
  }

  /** Of the first `k` rows, the principal is what the cents of the cash received so far are spent on. */
  lemma BackfilledPrincipal(schedule: seq<Installment>, payments: seq<PaymentRecord>, rows: seq<Row>, k: nat)
    requires Backfilled(schedule, payments, rows) && k <= |rows|
    ensures Principals(Allocations(rows[..k])) == CumulativePrincipal(schedule, Cash(Amounts(payments), k))
  {
    forall i | 0 <= i < k ensures rows[..k][i] == rows[i] {
    }
    assert Backfilled(schedule, payments, rows[..k]);
    BackfilledAllocates(schedule, payments, rows[..k]);
    RowsTelescope(schedule, Amounts(payments), Allocations(rows[..k]));
  }

  class LoanLedger {
    var rows: seq<Row>

    /** The migration creates the table, so it starts empty. */
    constructor ()
      ensures rows == []
    {
      rows := [];
    }

    /** Backfill; a negative amount violates the table's CHECK and rolls the migration back. */
    method BackfillFromPayments(schedule: seq<Installment>, payments: seq<PaymentRecord>)
      returns (ok: bool, ghost paid: map<int, int>)
      requires rows == [] && DistinctNumbers(schedule)
      modifies this
      ensures ok <==> NonNegativeAmounts(payments)
      ensures ok ==> |rows| == |payments| && Backfilled(schedule, payments, rows)
      ensures ok ==> forall k :: 0 <= k < |rows| ==> Mirrors(rows[k], payments[k], k + 1)
      ensures ok ==> FillState(schedule, Cash(Amounts(payments), |payments|), paid)
      ensures !ok ==> rows == []
    {
      var numbers := set i | 0 <= i < |schedule| :: schedule[i].number;
      var fills: map<int, int> := map n | n in numbers :: 0;
      forall i | 0 <= i < |schedule| ensures Fill(schedule, 0, i) == 0 {
        EmptyFill(schedule, i);
      }
      ghost var amounts := Amounts(payments);
      for k := 0 to |payments|
        invariant |rows| == k && Backfilled(schedule, payments, rows)
        invariant FillState(schedule, Cash(amounts, k), fills)
        invariant forall i :: 0 <= i < k ==> payments[i].amount >= 0
      {
        var allocation;
        fills, allocation := AllocatePayment(schedule, fills, payments[k].amount, Cash(amounts, k));
        assert amounts[k] == payments[k].amount;
        if payments[k].amount < 0 {
          rows := [];
          return false, fills;
        }
        rows := rows + [BackfillRow(payments, k, allocation)];
      }
      BackfilledRowsMirrorPayments(schedule, payments, rows);
      return true, fills;
    }

    /** Reconciliation: at most one row is appended, nothing is changed or removed. */
    method ReconcileAtCutover(loan: Loan, cutover: int)
      requires ValidRows(rows)
      modifies this
      ensures rows == Reconciled(loan, old(rows), cutover) && ValidRows(rows)
    {
      var ordered := OrderRows(Select(rows));
      var outstanding, interestDue := Walk(loan, ordered, cutover);
      ReconciledIsValid(loan, rows, cutover);
      var principalGap := outstanding - loan.storedBalance;
      if principalGap == 0 && interestDue == 0 {
        return;
      }
      var number := MaxNumber(rows) + 1;
      rows := rows + [Row(number, Adjustment, Abs(principalGap) + interestDue,
                          principalGap, interestDue, 0, 0, cutover, None)];
    }

    /** The whole migration of one loan, judged by the engine that serves it afterwards. */
    method Upgrade(loan: Loan, schedule: seq<Installment>, payments: seq<PaymentRecord>, cutover: int)
      returns (ok: bool)
      requires rows == [] && DistinctNumbers(schedule)
      modifies this
      ensures ok <==> NonNegativeAmounts(payments)
      ensures ok ==>
        && ValidRows(rows)
        && |payments| <= |rows| <= |payments| + 1
        && Backfilled(schedule, payments, rows[..|payments|])
        && (forall k :: 0 <= k < |payments| ==> Mirrors(rows[k], payments[k], k + 1))
        && var b := LoanBalances(loan, rows, cutover);
           b.outstanding == Max0(loan.storedBalance) && b.interestDue == 0 && b.feesDue == 0 && b.addOn == 0
      ensures ok ==> (Reconciled(loan, rows, cutover) == rows <==> loan.storedBalance >= 0)
      ensures !ok ==> rows == []
    {
      ghost var paid;
      ok, paid := BackfillFromPayments(schedule, payments);
      if ok {
        BackfilledIsValid(schedule, payments, rows);
        ghost var before := rows;
        ReconcileAtCutover(loan, cutover);
        EngineReportsStoredBalance(loan, before, cutover);
        SecondPassIsIdle(loan, before, cutover);
        assert rows[..|payments|] == before;
      }
    }
  }

  lemma BackfilledIsValid(schedule: seq<Installment>, payments: seq<PaymentRecord>, rows: seq<Row>)
    requires Backfilled(schedule, payments, rows)
    ensures ValidRows(rows)
    ensures forall i :: 0 <= i < |rows| ==> Core(rows[i]) && NoFees(rows[i])
  {
  }

  /** The backfilled rows already stand in replay order: recording order is effective order. */
  lemma BackfilledIsInOrder(schedule: seq<Installment>, payments: seq<PaymentRecord>, rows: seq<Row>)
    requires OrderedByReceipt(payments) && Backfilled(schedule, payments, rows)
    ensures InOrder(rows) && OrderRows(rows) == rows
  {
    forall i, j | 0 <= i < j < |rows| ensures Precedes(rows[i], rows[j]) {
      assert payments[i].receivedAt <= payments[j].receivedAt;
    }
    OrderingSortedRowsIsIdentity(rows);
  }

  function Allocations(rows: seq<Row>): seq<Allocation> {
    seq(|rows|, i requires 0 <= i < |rows| => Allocation(rows[i].principal, rows[i].interest))
  }

  lemma BackfilledAllocates(schedule: seq<Installment>, payments: seq<PaymentRecord>, rows: seq<Row>)
    requires Backfilled(schedule, payments, rows)
    ensures Allocates(schedule, Amounts(payments), Allocations(rows))
  {
  }

  /** Two histories of the same total cash backfill ledgers with the same total split. */
  lemma {:induction false} BackfillIsPathIndependent(schedule: seq<Installment>,
                                  p: seq<PaymentRecord>, rowsP: seq<Row>,
                                  q: seq<PaymentRecord>, rowsQ: seq<Row>)
    requires |rowsP| == |p| && Backfilled(schedule, p, rowsP)
    requires |rowsQ| == |q| && Backfilled(schedule, q, rowsQ)
    requires Cash(Amounts(p), |p|) == Cash(Amounts(q), |q|)
    ensures Principals(Allocations(rowsP)) == Principals(Allocations(rowsQ))
    ensures Interests(Allocations(rowsP)) == Interests(Allocations(rowsQ))
  {
    BackfilledAllocates(schedule, p, rowsP);
    BackfilledAllocates(schedule, q, rowsQ);
    RowsTelescope(schedule, Amounts(p), Allocations(rowsP));
    RowsTelescope(schedule, Amounts(q), Allocations(rowsQ));
  }
}
