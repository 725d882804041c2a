/**
 Rows of platform_loan_transactions for one loan and the order they are replayed in
 (effective date, then the per-loan sequence number). Dates are day numbers.
 */
module LedgerRows {
  import opened Common

  datatype TxnType = Payment | Disbursement | Fee | Adjustment | Reversal

  datatype Row = Row(
    number: int,  // the column `seq`; unique within the loan
    txn: TxnType,
    amount: int,
    principal: int,  // signed: an adjustment may raise the balance
    interest: int,
    fees: int,
    addOn: int,
    effective: int,
    reverses: Option<int>)

  /** The table constraints: unique sequence numbers, no negative amount. */
  ghost predicate ValidRows(rows: seq<Row>) {
    && (forall i, j :: 0 <= i < j < |rows| ==> rows[i].number != rows[j].number)
    && (forall i :: 0 <= i < |rows| ==> rows[i].amount >= 0)
  }

  predicate Precedes(a: Row, b: Row) {
    a.effective < b.effective || (a.effective == b.effective && a.number < b.number)
  }

  // ------------------------------------------------ ORDER BY effective_date, seq

  function InsertRow(sorted: seq<Row>, row: Row): seq<Row> {
    if sorted == [] then [row]
    else
      var init, last := sorted[..|sorted| - 1], sorted[|sorted| - 1];
      if Precedes(row, last) then InsertRow(init, row) + [last] else sorted + [row]
  }

  function OrderRows(rows: seq<Row>): seq<Row> {
    if rows == [] then [] else InsertRow(OrderRows(rows[..|rows| - 1]), rows[|rows| - 1])
  }

  ghost predicate InOrder(rows: seq<Row>) {
    forall i, j :: 0 <= i < j < |rows| ==> Precedes(rows[i], rows[j])
  }

  ghost predicate DistinctFrom(rows: seq<Row>, row: Row) {
    forall i :: 0 <= i < |rows| ==> rows[i].number != row.number
  }

  lemma {:induction false} InsertPermutes(sorted: seq<Row>, row: Row)
    ensures multiset(InsertRow(sorted, row)) == multiset(sorted) + multiset{row}
  {
    if sorted != [] && Precedes(row, sorted[|sorted| - 1]) {
      InsertPermutes(sorted[..|sorted| - 1], row);
      assert sorted == sorted[..|sorted| - 1] + [sorted[|sorted| - 1]];
    }
  }

  lemma {:induction false} InsertKeepsOrder(sorted: seq<Row>, row: Row)
    requires InOrder(sorted) && DistinctFrom(sorted, row)
    ensures InOrder(InsertRow(sorted, row))
  {
    if sorted != [] {
      var init, last := sorted[..|sorted| - 1], sorted[|sorted| - 1];
      if Precedes(row, last) {
        InsertKeepsOrder(init, row);
        InsertPermutes(init, row);
        var head := InsertRow(init, row);
        forall i | 0 <= i < |head| ensures Precedes(head[i], last) {
          assert head[i] in multiset(init) + multiset{row};
        }
      }
    }
  }

  /** The sort puts the rows in replay order and loses none. */
  lemma {:induction false} OrderRowsSorts(rows: seq<Row>)
    requires ValidRows(rows)
    ensures InOrder(OrderRows(rows)) && multiset(OrderRows(rows)) == multiset(rows)
  {
    if rows != [] {
      var init, last := rows[..|rows| - 1], rows[|rows| - 1];
      assert rows == init + [last];
      OrderRowsSorts(init);
      forall i | 0 <= i < |OrderRows(init)| ensures OrderRows(init)[i].number != last.number {
        assert OrderRows(init)[i] in multiset(init);
      }
      InsertKeepsOrder(OrderRows(init), last);
      InsertPermutes(OrderRows(init), last);
    }
  }

  lemma HeadComesFirst(rows: seq<Row>, row: Row)
    requires InOrder(rows) && row in rows
    ensures row == rows[0] || Precedes(rows[0], row)
  {
  }

  lemma DropHead(rows: seq<Row>)
    requires rows != []
    ensures multiset(rows[1..]) == multiset(rows) - multiset{rows[0]}
  {
    assert rows == [rows[0]] + rows[1..];
  }

  /** There is only one replay order: whatever the database returns for the ORDER BY is it. */
  lemma {:induction false} ReplayOrderIsUnique(a: seq<Row>, b: seq<Row>)
    requires InOrder(a) && InOrder(b) && multiset(a) == multiset(b)
    ensures a == b
  {
    assert |a| == |multiset(a)| == |multiset(b)| == |b|;
    if a != [] {
      assert a[0] in multiset(b) && b[0] in multiset(a);
      HeadComesFirst(a, b[0]);
      HeadComesFirst(b, a[0]);
      assert a[0] == b[0];
      DropHead(a);
      DropHead(b);
      ReplayOrderIsUnique(a[1..], b[1..]);
      assert a == [a[0]] + a[1..] && b == [b[0]] + b[1..];
    }
  }

  lemma {:induction false} OrderingSortedRowsIsIdentity(rows: seq<Row>)
    requires InOrder(rows)
    ensures OrderRows(rows) == rows
  {
    if rows != [] {
      var init, last := rows[..|rows| - 1], rows[|rows| - 1];
      OrderingSortedRowsIsIdentity(init);
      assert rows == init + [last];
      if init != [] {
        assert Precedes(init[|init| - 1], last);
      }
    }
  }

  // ------------------------------------------------------- next sequence number

  // COALESCE(MAX(seq), 0)
  function MaxNumber(rows: seq<Row>): int {
    if rows == [] then 0
    else if |rows| == 1 then rows[0].number
    else Max(MaxNumber(rows[..|rows| - 1]), rows[|rows| - 1].number)
  }

  lemma {:induction false} MaxNumberIsAbove(rows: seq<Row>, i: nat)
    requires i < |rows|
    ensures rows[i].number <= MaxNumber(rows)
  {
    if |rows| > 1 && i < |rows| - 1 {
      MaxNumberIsAbove(rows[..|rows| - 1], i);
    }
  }

  lemma {:induction false} MaxNumberIsTaken(rows: seq<Row>)
    ensures rows != [] ==> exists r :: r in rows && r.number == MaxNumber(rows)
  {
    if |rows| == 1 {
      assert rows[0] in rows;
    } else if |rows| > 1 {
      var init, last := rows[..|rows| - 1], rows[|rows| - 1];
      MaxNumberIsTaken(init);
      assert rows == init + [last];
    }
  }
}
