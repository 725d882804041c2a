/**
 "Everything forward is pure actuals" and "restart interest accrual at the cutover date"
 (alembic/versions/049_loan_ledger.py): does the loan go on as one freshly disbursed at
 the cutover date for its stored balance? Rows dated after the cutover, recorded before
 or after it, belong to both. The answer is an exact condition on the history.
 */
module AfterCutover {
  import opened Common
  import opened Accrual
  import opened LedgerRows
  import opened LedgerWalk
  import opened Cutover
  import opened LiveEngine

  /** The stored balance, lent at the cutover date on the same terms. */
  function Fresh(loan: Loan, cutover: int): Loan {
    loan.(principal := loan.storedBalance, disbursedOn := Some(cutover))
  }

  // ------------------------------------------------------------ rows up to and after a day

  /** The rows dated after `day`, or those dated up to it. */
  function Part(rows: seq<Row>, day: int, after: bool): seq<Row> {
    if rows == [] then []
    else
      var last := rows[|rows| - 1];
      Part(rows[..|rows| - 1], day, after) + if (last.effective > day) == after then [last] else []
  }

  function UpTo(rows: seq<Row>, day: int): seq<Row> {
    Part(rows, day, false)
  }

  function Beyond(rows: seq<Row>, day: int): seq<Row> {
    Part(rows, day, true)
  }

  ghost predicate DatedUpTo(rows: seq<Row>, day: int) {
    forall i :: 0 <= i < |rows| ==> rows[i].effective <= day
  }

  ghost predicate DatedAfter(rows: seq<Row>, day: int) {
    forall i :: 0 <= i < |rows| ==> rows[i].effective > day
  }

  lemma {:induction false} PartMembers(rows: seq<Row>, day: int, after: bool, r: Row)
    ensures r in Part(rows, day, after) <==> r in rows && (r.effective > day) == after
  {
    if rows != [] {
      var init, last := rows[..|rows| - 1], rows[|rows| - 1];
      PartMembers(init, day, after, r);
      assert rows == init + [last];
    }
  }

  lemma PartsAreDated(rows: seq<Row>, day: int)
    ensures DatedUpTo(UpTo(rows, day), day) && DatedAfter(Beyond(rows, day), day)
  {
    forall r | r in UpTo(rows, day) ensures r.effective <= day {
      PartMembers(rows, day, false, r);
    }
    forall r | r in Beyond(rows, day) ensures r.effective > day {
      PartMembers(rows, day, true, r);
    }
  }

  lemma {:induction false} PartCounts(rows: seq<Row>, day: int, after: bool, r: Row)
    ensures multiset(Part(rows, day, after))[r] == if (r.effective > day) == after then multiset(rows)[r] else 0
  {
    if rows != [] {
      var init, last := rows[..|rows| - 1], rows[|rows| - 1];
      PartCounts(init, day, after, r);
      assert rows == init + [last];
      assert Part(rows, day, after) == Part(init, day, after) + if (last.effective > day) == after then [last] else [];
    }
  }

  lemma {:induction false} PartOfOneKind(rows: seq<Row>, day: int, after: bool)
    requires if after then DatedAfter(rows, day) else DatedUpTo(rows, day)
    ensures Part(rows, day, after) == rows && Part(rows, day, !after) == []
  {
    if rows != [] {
      PartOfOneKind(rows[..|rows| - 1], day, after);
    }
  }

  // ------------------------------------------------------------- dividing a ledger in two

  lemma {:induction false} UniqueNumbersOccurOnce(rows: seq<Row>, r: Row)
    requires ValidRows(rows)
    ensures multiset(rows)[r] <= 1
  {
    if rows != [] {
      var init, last := rows[..|rows| - 1], rows[|rows| - 1];
      UniqueNumbersOccurOnce(init, r);
      assert rows == init + [last];
      assert last !in init;
    }
  }

  lemma OccursTwice(rows: seq<Row>, i: nat, j: nat)
    requires i < j < |rows| && rows[i] == rows[j]
    ensures multiset(rows)[rows[i]] >= 2
  {
    assert rows == rows[..j] + [rows[j]] + rows[j + 1..];
    assert rows[..j][i] == rows[i];
  }

  // Some of the rows of a ledger are a ledger.
  lemma SomeRowsAreValid(whole: seq<Row>, some: seq<Row>)
    requires ValidRows(whole) && forall r :: multiset(some)[r] <= multiset(whole)[r]
    ensures ValidRows(some)
  {
    forall r | r in some ensures r in whole {
      assert multiset(some)[r] > 0;
    }
    forall i, j | 0 <= i < j < |some| ensures some[i].number != some[j].number {
      if some[i].number == some[j].number {
        assert some[i] in whole && some[j] in whole;
        OccursTwice(some, i, j);
        UniqueNumbersOccurOnce(whole, some[i]);
      }
    }
    forall i | 0 <= i < |some| ensures some[i].amount >= 0 {
      assert some[i] in whole;
    }
  }

  /** `a` and `b` hold the rows of `whole` between them, and replay puts those of `a` first. */
  ghost predicate Divides(whole: seq<Row>, a: seq<Row>, b: seq<Row>) {
    && ValidRows(whole)
    && (forall r :: multiset(a)[r] + multiset(b)[r] == multiset(whole)[r])
    && (forall x, y :: x in a && y in b && IsReplayed(x) && IsReplayed(y) ==> Precedes(x, y))
  }

  lemma DividedPartsAreValid(whole: seq<Row>, a: seq<Row>, b: seq<Row>)
    requires Divides(whole, a, b)
    ensures ValidRows(a) && ValidRows(b)
  {
    SomeRowsAreValid(whole, a);
    SomeRowsAreValid(whole, b);
  }

  lemma PartsDivide(rows: seq<Row>, day: int)
    requires ValidRows(rows)
    ensures Divides(rows, UpTo(rows, day), Beyond(rows, day))
  {
    forall r | true ensures multiset(UpTo(rows, day))[r] + multiset(Beyond(rows, day))[r] == multiset(rows)[r] {
      PartCounts(rows, day, false, r);
      PartCounts(rows, day, true, r);
    }
    forall x, y | x in UpTo(rows, day) && y in Beyond(rows, day) ensures Precedes(x, y) {
      PartMembers(rows, day, false, x);
      PartMembers(rows, day, true, y);
    }
  }

  /** The rows the migration walks, in its order. */
  function Ordered(rows: seq<Row>): seq<Row> {
    OrderRows(Select(rows))
  }

  lemma OrderedMembers(rows: seq<Row>, r: Row)
    ensures r in Ordered(rows) <==> r in rows && IsReplayed(r)
  {
    OrderMembers(Select(rows), r);
    SelectedRowsAreRows(rows, r);
  }

  lemma OrderedIsInOrder(rows: seq<Row>)
    requires ValidRows(rows)
    ensures InOrder(Ordered(rows))
  {
    SelectKeepsValid(rows);
    OrderRowsSorts(Select(rows));
  }

  lemma OrderedCounts(rows: seq<Row>, r: Row)
    requires ValidRows(rows)
    ensures multiset(Ordered(rows))[r] == if IsReplayed(r) then multiset(rows)[r] else 0
  {
    SelectKeepsValid(rows);
    OrderRowsSorts(Select(rows));
    SelectCounts(rows, r);
  }

  lemma OrderingKeepsDates(rows: seq<Row>, day: int)
    ensures DatedUpTo(rows, day) ==> DatedUpTo(Ordered(rows), day)
    ensures DatedAfter(rows, day) ==> DatedAfter(Ordered(rows), day)
  {
    var ordered := Ordered(rows);
    forall i | 0 <= i < |ordered| ensures ordered[i] in rows {
      OrderedMembers(rows, ordered[i]);
    }
  }

  lemma CountsAddUp(a: seq<Row>, b: seq<Row>, c: seq<Row>)
    requires forall r :: multiset(a)[r] + multiset(b)[r] == multiset(c)[r]
    ensures multiset(a + b) == multiset(c)
  {
  }

  lemma DividedOrderIsInOrder(whole: seq<Row>, a: seq<Row>, b: seq<Row>)
    requires Divides(whole, a, b)
    ensures InOrder(Ordered(a) + Ordered(b))
  {
    DividedPartsAreValid(whole, a, b);
    OrderedIsInOrder(a);
    OrderedIsInOrder(b);
    var first, second := Ordered(a), Ordered(b);
    forall i, j | 0 <= i < |first| && 0 <= j < |second| ensures Precedes(first[i], second[j]) {
      OrderedMembers(a, first[i]);
      OrderedMembers(b, second[j]);
    }
  }

  // Replay walks the first part in its order and then the second in its order.
  lemma OrderDivides(whole: seq<Row>, a: seq<Row>, b: seq<Row>)
    requires Divides(whole, a, b)
    ensures Ordered(whole) == Ordered(a) + Ordered(b)
  {
    OrderedIsInOrder(whole);
    DividedOrderIsInOrder(whole, a, b);
    forall r | true ensures multiset(Ordered(a))[r] + multiset(Ordered(b))[r] == multiset(Ordered(whole))[r] {
      DividedPartsAreValid(whole, a, b);
      OrderedCounts(whole, r);
      OrderedCounts(a, r);
      OrderedCounts(b, r);
    }
    CountsAddUp(Ordered(a), Ordered(b), Ordered(whole));
    ReplayOrderIsUnique(Ordered(whole), Ordered(a) + Ordered(b));
  }

  // ----------------------------------------------------------- continuing from a balance

  function ReplayFrom(b: Balance, rateBps: int, rows: seq<Row>, asOf: int): Balance {
    if rows == [] then b
    else ApplyRow(ReplayFrom(b, rateBps, rows[..|rows| - 1], asOf), rateBps, rows[|rows| - 1], asOf)
  }

  function BalanceFrom(b: Balance, rateBps: int, rows: seq<Row>, asOf: int): Balance {
    AccrueTo(ReplayFrom(b, rateBps, rows, asOf), rateBps, asOf)
  }

  lemma {:induction false} ReplayInTwoParts(loan: Loan, first: seq<Row>, second: seq<Row>, asOf: int)
    ensures Replay(loan, first + second, asOf) == ReplayFrom(Replay(loan, first, asOf), loan.rateBps, second, asOf)
  {
    if second == [] {
      assert first + second == first;
    } else {
      ReplayInTwoParts(loan, first, second[..|second| - 1], asOf);
      assert (first + second)[..|first + second| - 1] == first + second[..|second| - 1];
    }
  }

  lemma {:induction false} PastRowsReplayTheSame(loan: Loan, rows: seq<Row>, cutover: int, asOf: int)
    requires cutover <= asOf && DatedUpTo(rows, cutover)
    ensures Replay(loan, rows, asOf) == Replay(loan, rows, cutover)
  {
    if rows != [] {
      PastRowsReplayTheSame(loan, rows[..|rows| - 1], cutover, asOf);
    }
  }

  lemma {:induction false} FutureRowsAreSkipped(b: Balance, rateBps: int, rows: seq<Row>, asOf: int)
    requires DatedAfter(rows, asOf)
    ensures ReplayFrom(b, rateBps, rows, asOf) == b
  {
    if rows != [] {
      FutureRowsAreSkipped(b, rateBps, rows[..|rows| - 1], asOf);
    }
  }

  // The balance of a divided ledger: walk the first part, continue with the second.
  lemma BalanceContinues(loan: Loan, whole: seq<Row>, a: seq<Row>, b: seq<Row>, day: int, asOf: int)
    requires Divides(whole, a, b) && DatedUpTo(a, day) && day <= asOf
    ensures MigrationBalance(loan, whole, asOf)
         == BalanceFrom(Replay(loan, Ordered(a), day), loan.rateBps, Ordered(b), asOf)
  {
    OrderDivides(whole, a, b);
    OrderingKeepsDates(a, day);
    ReplayInTwoParts(loan, Ordered(a), Ordered(b), asOf);
    PastRowsReplayTheSame(loan, Ordered(a), day, asOf);
  }

  // Rows dated after the cutover have no part in the reconciliation.
  lemma FutureRowsDoNotCount(loan: Loan, rows: seq<Row>, cutover: int)
    requires ValidRows(rows)
    ensures MigrationBalance(loan, rows, cutover) == MigrationBalance(loan, UpTo(rows, cutover), cutover)
  {
    var past, future := UpTo(rows, cutover), Beyond(rows, cutover);
    PartsDivide(rows, cutover);
    PartsAreDated(rows, cutover);
    BalanceContinues(loan, rows, past, future, cutover, cutover);
    OrderingKeepsDates(future, cutover);
    FutureRowsAreSkipped(Replay(loan, Ordered(past), cutover), loan.rateBps, Ordered(future), cutover);
  }

  // ----------------------------------------------------------------- the state at the cutover

  function CursorThrough(cursor: Option<int>, day: int): Option<int> {
    if cursor.Some? then Some(Max(cursor.value, day)) else None
  }

  /** The state the later rows start from: the stored balance, nothing due, and this cursor. */
  function CursorAt(loan: Loan, past: seq<Row>, cutover: int): Option<int> {
    var cursor := Replay(loan, Ordered(past), cutover).cursor;
    if Consistent(loan, past, cutover) then cursor else CursorThrough(cursor, cutover)
  }

  function Start(loan: Loan, cursor: Option<int>): Balance {
    Balance(Max0(loan.storedBalance), 0, cursor)
  }

  lemma ConsistentState(loan: Loan, past: seq<Row>, cutover: int)
    requires Consistent(loan, past, cutover)
    ensures Replay(loan, Ordered(past), cutover) == Start(loan, CursorAt(loan, past, cutover))
  {
    BalancesStayNonNegative(loan, Ordered(past), cutover);
    var b := Replay(loan, Ordered(past), cutover);
    if Advances(b, cutover) {
      AccrualNonNegative(b.outstanding, loan.rateBps, cutover - b.cursor.value);
    }
  }

  // The newest row of the cutover date is the last of the rows up to it.
  lemma NewestComesLast(rows: seq<Row>, row: Row, cutover: int)
    requires ValidRows(rows) && IsReplayed(row) && row.effective == cutover && row.number > MaxNumber(rows)
    ensures Ordered(UpTo(rows, cutover) + [row]) == Ordered(UpTo(rows, cutover)) + [row]
  {
    var past := UpTo(rows, cutover);
    OrderWithNewestRow(past, row);
    if Ordered(past) != [] {
      var last := Ordered(past)[|Ordered(past)| - 1];
      OrderedMembers(past, last);
      PartMembers(rows, cutover, false, last);
      var i :| 0 <= i < |rows| && rows[i] == last;
      MaxNumberIsAbove(rows, i);
    }
  }

  lemma AdjustedState(loan: Loan, rows: seq<Row>, cutover: int)
    requires ValidRows(rows) && !Consistent(loan, rows, cutover)
    ensures
      var past, row := UpTo(rows, cutover), AdjustmentRow(loan, rows, cutover);
      Replay(loan, Ordered(past + [row]), cutover) == Start(loan, CursorAt(loan, past, cutover))
  {
    var past, row := UpTo(rows, cutover), AdjustmentRow(loan, rows, cutover);
    FutureRowsDoNotCount(loan, rows, cutover);
    NewestComesLast(rows, row, cutover);
    assert (Ordered(past) + [row])[..|Ordered(past)|] == Ordered(past);
  }

  /** The row the reconciliation appends, if any. */
  function Appended(loan: Loan, rows: seq<Row>, cutover: int): seq<Row> {
    if Consistent(loan, rows, cutover) then [] else [AdjustmentRow(loan, rows, cutover)]
  }

  lemma ReconciledState(loan: Loan, rows: seq<Row>, cutover: int)
    requires ValidRows(rows)
    ensures
      var past := UpTo(rows, cutover);
      Replay(loan, Ordered(past + Appended(loan, rows, cutover)), cutover) == Start(loan, CursorAt(loan, past, cutover))
  {
    var past := UpTo(rows, cutover);
    if Consistent(loan, rows, cutover) {
      FutureRowsDoNotCount(loan, rows, cutover);
      ConsistentState(loan, past, cutover);
      assert past + [] == past;
    } else {
      AdjustedState(loan, rows, cutover);
    }
  }

  /**
   `later` may be recorded after the reconciliation of `rows`: rows of the cutover day or
   after it, those of the day itself with a higher sequence number.
   */
  ghost predicate MayFollow(loan: Loan, rows: seq<Row>, later: seq<Row>, cutover: int) {
    var after := Reconciled(loan, rows, cutover);
    && ValidRows(after + later)
    && forall i :: 0 <= i < |later| ==>
         later[i].effective > cutover || (later[i].effective == cutover && later[i].number > MaxNumber(after))
  }

  lemma PrefixIsValid(a: seq<Row>, b: seq<Row>)
    requires ValidRows(a + b)
    ensures ValidRows(a)
  {
    forall i, j | 0 <= i < j < |a| ensures a[i].number != a[j].number {
      assert (a + b)[i] == a[i] && (a + b)[j] == a[j];
    }
    forall i | 0 <= i < |a| ensures a[i].amount >= 0 {
      assert (a + b)[i] == a[i];
    }
  }

  lemma LedgerIsValid(loan: Loan, rows: seq<Row>, later: seq<Row>, cutover: int)
    requires MayFollow(loan, rows, later, cutover)
    ensures ValidRows(rows)
  {
    PrefixIsValid(Reconciled(loan, rows, cutover), later);
    assert Reconciled(loan, rows, cutover) == rows + Appended(loan, rows, cutover);
    PrefixIsValid(rows, Appended(loan, rows, cutover));
  }

  // The rows of the cutover and before it, and all those that replay after them.
  lemma ThreeDivide(rows: seq<Row>, extra: seq<Row>, later: seq<Row>, cutover: int)
    requires ValidRows(rows + extra + later)
    requires forall i :: 0 <= i < |extra| ==> extra[i].effective == cutover
    requires forall i :: 0 <= i < |later| ==>
      later[i].effective > cutover || (later[i].effective == cutover && later[i].number > MaxNumber(rows + extra))
    ensures Divides(rows + extra + later, UpTo(rows, cutover) + extra, Beyond(rows, cutover) + later)
  {
    var a, b := UpTo(rows, cutover) + extra, Beyond(rows, cutover) + later;
    forall r | true ensures multiset(a)[r] + multiset(b)[r] == multiset(rows + extra + later)[r] {
      PartCounts(rows, cutover, false, r);
      PartCounts(rows, cutover, true, r);
    }
    forall x, y | x in a && y in b ensures Precedes(x, y) {
      PartMembers(rows, cutover, false, x);
      PartMembers(rows, cutover, true, y);
      assert x in rows + extra;
      var i :| 0 <= i < |rows + extra| && (rows + extra)[i] == x;
      MaxNumberIsAbove(rows + extra, i);
    }
  }

  lemma LaterRowsDivide(loan: Loan, rows: seq<Row>, later: seq<Row>, cutover: int)
    requires MayFollow(loan, rows, later, cutover)
    ensures Divides(Reconciled(loan, rows, cutover) + later,
                    UpTo(rows, cutover) + Appended(loan, rows, cutover), Beyond(rows, cutover) + later)
  {
    var extra := Appended(loan, rows, cutover);
    assert Reconciled(loan, rows, cutover) == rows + extra;
    ThreeDivide(rows, extra, later, cutover);
  }

  /** After the reconciliation a loan continues from its stored balance, with nothing due. */
  lemma ReconciledContinues(loan: Loan, rows: seq<Row>, later: seq<Row>, cutover: int, asOf: int)
    requires MayFollow(loan, rows, later, cutover) && cutover <= asOf
    ensures MigrationBalance(loan, Reconciled(loan, rows, cutover) + later, asOf)
         == BalanceFrom(Start(loan, CursorAt(loan, UpTo(rows, cutover), cutover)), loan.rateBps,
                        Ordered(Beyond(rows, cutover) + later), asOf)
  {
    var whole, past := Reconciled(loan, rows, cutover) + later, UpTo(rows, cutover) + Appended(loan, rows, cutover);
    LedgerIsValid(loan, rows, later, cutover);
    LaterRowsDivide(loan, rows, later, cutover);
    PartsAreDated(rows, cutover);
    ReconciledState(loan, rows, cutover);
    BalanceContinues(loan, whole, past, Beyond(rows, cutover) + later, cutover, asOf);
  }

  // Whatever the rows, the fresh loan walks them all from its opening.
  lemma FreshContinues(loan: Loan, rows: seq<Row>, cutover: int, asOf: int)
    ensures MigrationBalance(Fresh(loan, cutover), rows, asOf)
         == BalanceFrom(Start(loan, Some(cutover)), loan.rateBps, Ordered(rows), asOf)
  {
    ReplayInTwoParts(Fresh(loan, cutover), [], Ordered(rows), asOf);
    assert [] + Ordered(rows) == Ordered(rows);
  }

  // ------------------------------------------------------------- when nothing can tell them apart

  predicate SameOwed(a: Balance, b: Balance) {
    a.outstanding == b.outstanding && a.interestDue == b.interestDue
  }

  predicate Reached(cursor: Option<int>, day: int) {
    cursor.Some? && cursor.value <= day
  }

  /** No row dated `day` or later can tell the two states apart. */
  predicate Alike(a: Balance, b: Balance, rateBps: int, day: int) {
    && SameOwed(a, b)
    && (|| rateBps <= 0
        || a.cursor == b.cursor
        || (a.outstanding == 0 && Reached(a.cursor, day) && Reached(b.cursor, day)))
  }

  lemma AlikeAfterRow(a: Balance, b: Balance, rateBps: int, day: int, row: Row, asOf: int)
    requires Alike(a, b, rateBps, day) && row.effective >= day
    ensures Alike(ApplyRow(a, rateBps, row, asOf), ApplyRow(b, rateBps, row, asOf), rateBps, day)
  {
  }

  lemma {:induction false} AlikeForward(a: Balance, b: Balance, rateBps: int, day: int, rows: seq<Row>, asOf: int)
    requires Alike(a, b, rateBps, day) && DatedAfter(rows, day - 1)
    ensures Alike(ReplayFrom(a, rateBps, rows, asOf), ReplayFrom(b, rateBps, rows, asOf), rateBps, day)
    ensures SameOwed(BalanceFrom(a, rateBps, rows, asOf), BalanceFrom(b, rateBps, rows, asOf))
  {
    if rows != [] {
      var init, last := rows[..|rows| - 1], rows[|rows| - 1];
      AlikeForward(a, b, rateBps, day, init, asOf);
      AlikeAfterRow(ReplayFrom(a, rateBps, init, asOf), ReplayFrom(b, rateBps, init, asOf), rateBps, day, last, asOf);
    }
  }

  // --------------------------------------------------------------------- when something can

  lemma AccrualReachesACent(p: int, r: int, d: nat)
    requires p > 0 && r > 0 && d >= 1
    ensures AccrueCents(p, r, DENOMINATOR * d) >= 1
  {
    var perSpan := p * r * d;
    assert p * r >= 1 && perSpan >= 1;
    assert p * r * (DENOMINATOR * d) == perSpan * DENOMINATOR;
    AccrualIsCorrectlyRounded(p, r, DENOMINATOR * d, perSpan);
  }

  lemma {:induction false} AccrualChangesFrom(p: int, r: int, d: nat, i: nat) returns (a: nat)
    requires p > 0 && r > 0 && d >= 1 && i <= DENOMINATOR
    requires AccrueCents(p, r, i * d) == 0
    ensures AccrueCents(p, r, a) != AccrueCents(p, r, a + d)
    decreases DENOMINATOR - i
  {
    AccrualReachesACent(p, r, d);
    assert (i + 1) * d == i * d + d;
    if AccrueCents(p, r, (i + 1) * d) != 0 {
      a := i * d;
    } else {
      a := AccrualChangesFrom(p, r, d, i + 1);
    }
  }

  /** On a positive balance some day shows from which of two dates the interest runs, if it runs at all. */
  lemma CursorShows(p: int, rateBps: int, cursor: Option<int>, day: int) returns (asOf: int)
    requires p > 0 && rateBps > 0 && cursor != Some(day)
    ensures day <= asOf
    ensures !SameOwed(AccrueTo(Balance(p, 0, cursor), rateBps, asOf), AccrueTo(Balance(p, 0, Some(day)), rateBps, asOf))
  {
    match cursor
    case None =>
      AccrualReachesACent(p, rateBps, 1);
      asOf := day + DENOMINATOR;
    case Some(c) =>
      var a := AccrualChangesFrom(p, rateBps, Abs(c - day), 0);
      asOf := Max(c, day) + a;
  }

  // ------------------------------------------------------------------------- the condition

  /** In the state the history leaves at the cutover, accrual starts there or it makes no difference. */
  predicate StartsAtCutover(loan: Loan, past: seq<Row>, cutover: int) {
    || loan.rateBps <= 0
    || CursorAt(loan, past, cutover) == Some(cutover)
    || (loan.storedBalance <= 0 && Reached(CursorAt(loan, past, cutover), cutover))
  }

  /**
   What can be checked before the migration: the rate is zero; or the loan is disbursed by
   the cutover, and it gets an adjustment row, or has the disbursement or a replayed row on
   that very day, or has a stored balance of zero.
   */
  ghost predicate RestartCondition(loan: Loan, past: seq<Row>, cutover: int) {
    || loan.rateBps <= 0
    || (&& Reached(loan.disbursedOn, cutover)
        && (|| !Consistent(loan, past, cutover)
            || loan.disbursedOn == Some(cutover)
            || (exists r :: r in past && IsReplayed(r) && r.effective == cutover)
            || loan.storedBalance <= 0))
  }

  /** The cursor stands at the latest of the disbursement and the rows walked. */
  lemma {:induction false} CursorIsLatest(loan: Loan, rows: seq<Row>, cutover: int)
    requires DatedUpTo(rows, cutover)
    ensures
      var cursor := Replay(loan, rows, cutover).cursor;
      && (cursor.Some? <==> loan.disbursedOn.Some?)
      && (cursor.Some? ==>
            && loan.disbursedOn.value <= cursor.value
            && (forall r :: r in rows ==> r.effective <= cursor.value)
            && (cursor == loan.disbursedOn || exists r :: r in rows && r.effective == cursor.value))
  {
    if rows != [] {
      var init, last := rows[..|rows| - 1], rows[|rows| - 1];
      CursorIsLatest(loan, init, cutover);
      assert rows == init + [last];
      assert last in rows;
    }
  }

  lemma AdjustedLoanStartsAtCutover(loan: Loan, past: seq<Row>, cutover: int)
    requires DatedUpTo(past, cutover) && Reached(loan.disbursedOn, cutover) && !Consistent(loan, past, cutover)
    ensures CursorAt(loan, past, cutover) == Some(cutover)
  {
    OrderingKeepsDates(past, cutover);
    CursorIsLatest(loan, Ordered(past), cutover);
  }

  lemma ConditionMeansStart(loan: Loan, past: seq<Row>, cutover: int)
    requires DatedUpTo(past, cutover)
    ensures StartsAtCutover(loan, past, cutover) <==> RestartCondition(loan, past, cutover)
  {
    forall r | true ensures r in Ordered(past) <==> r in past && IsReplayed(r) {
      OrderedMembers(past, r);
    }
    OrderingKeepsDates(past, cutover);
    CursorIsLatest(loan, Ordered(past), cutover);
  }

  // ------------------------------------------------------------------------- main results

  /** With what is recorded after it, the reconciled ledger owes what the fresh loan owes. */
  ghost predicate GoesOnAsFresh(loan: Loan, rows: seq<Row>, later: seq<Row>, cutover: int, asOf: int) {
    SameOwed(MigrationBalance(loan, Reconciled(loan, rows, cutover) + later, asOf),
             MigrationBalance(Fresh(loan, cutover), Beyond(rows, cutover) + later, asOf))
  }

  /**
   Accrual restarts: at every date from the cutover on, for every ledger with this history
   up to the cutover and all rows that may follow.
   */
  ghost predicate Restarts(loan: Loan, past: seq<Row>, cutover: int) {
    forall rows, later, asOf ::
      cutover <= asOf && UpTo(rows, cutover) == past && MayFollow(loan, rows, later, cutover) ==>
        GoesOnAsFresh(loan, rows, later, cutover, asOf)
  }

  lemma BothContinue(loan: Loan, rows: seq<Row>, later: seq<Row>, cutover: int, asOf: int)
    requires MayFollow(loan, rows, later, cutover) && cutover <= asOf
    ensures
      var next := Ordered(Beyond(rows, cutover) + later);
      && DatedAfter(next, cutover - 1)
      && MigrationBalance(loan, Reconciled(loan, rows, cutover) + later, asOf)
         == BalanceFrom(Start(loan, CursorAt(loan, UpTo(rows, cutover), cutover)), loan.rateBps, next, asOf)
      && MigrationBalance(Fresh(loan, cutover), Beyond(rows, cutover) + later, asOf)
         == BalanceFrom(Start(loan, Some(cutover)), loan.rateBps, next, asOf)
  {
    ReconciledContinues(loan, rows, later, cutover, asOf);
    FreshContinues(loan, Beyond(rows, cutover) + later, cutover, asOf);
    PartsAreDated(rows, cutover);
    OrderingKeepsDates(Beyond(rows, cutover) + later, cutover - 1);
  }

  /**
   Under the condition, what is owed at any later date is owed by the fresh loan with the
   later rows alone: nothing of the history is left in it. Where accrual starts at the
   cutover itself the two balances agree in every part.
   */
  lemma ForwardIsPureActuals(loan: Loan, rows: seq<Row>, later: seq<Row>, cutover: int, asOf: int)
    requires MayFollow(loan, rows, later, cutover) && cutover <= asOf
    requires RestartCondition(loan, UpTo(rows, cutover), cutover)
    ensures GoesOnAsFresh(loan, rows, later, cutover, asOf)
    ensures Reached(loan.disbursedOn, cutover) && !Consistent(loan, rows, cutover) ==>
              MigrationBalance(loan, Reconciled(loan, rows, cutover) + later, asOf)
              == MigrationBalance(Fresh(loan, cutover), Beyond(rows, cutover) + later, asOf)
  {
    var past := UpTo(rows, cutover);
    PartsAreDated(rows, cutover);
    ConditionMeansStart(loan, past, cutover);
    BothContinue(loan, rows, later, cutover, asOf);
    AlikeForward(Start(loan, CursorAt(loan, past, cutover)), Start(loan, Some(cutover)), loan.rateBps, cutover,
                 Ordered(Beyond(rows, cutover) + later), asOf);
    if Reached(loan.disbursedOn, cutover) && !Consistent(loan, rows, cutover) {
      LedgerIsValid(loan, rows, later, cutover);
      FutureRowsDoNotCount(loan, rows, cutover);
      AdjustedLoanStartsAtCutover(loan, past, cutover);
    }
  }

  // With nothing recorded ahead of time, only the two starting states and the later rows matter.
  lemma WhatShows(loan: Loan, past: seq<Row>, later: seq<Row>, cutover: int, asOf: int)
    requires DatedUpTo(past, cutover) && MayFollow(loan, past, later, cutover) && cutover <= asOf
    ensures GoesOnAsFresh(loan, past, later, cutover, asOf)
       <==> SameOwed(BalanceFrom(Start(loan, CursorAt(loan, past, cutover)), loan.rateBps, Ordered(later), asOf),
                     BalanceFrom(Start(loan, Some(cutover)), loan.rateBps, Ordered(later), asOf))
  {
    BothContinue(loan, past, later, cutover, asOf);
    PartOfOneKind(past, cutover, false);
    assert [] + later == later;
  }

  // Owing something: wait for a day that shows the difference.
  lemma DebtShows(loan: Loan, past: seq<Row>, cutover: int) returns (asOf: int)
    requires ValidRows(past) && DatedUpTo(past, cutover)
    requires loan.rateBps > 0 && loan.storedBalance > 0 && CursorAt(loan, past, cutover) != Some(cutover)
    ensures cutover <= asOf && MayFollow(loan, past, [], cutover) && !GoesOnAsFresh(loan, past, [], cutover, asOf)
  {
    asOf := CursorShows(loan.storedBalance, loan.rateBps, CursorAt(loan, past, cutover), cutover);
    ReconciledIsValid(loan, past, cutover);
    assert Reconciled(loan, past, cutover) + [] == Reconciled(loan, past, cutover);
    WhatShows(loan, past, [], cutover, asOf);
    assert Ordered([]) == [];
  }

  // An adjustment of the cutover day, recorded after the reconciliation, that raises the balance by a cent.
  function RaisingRow(rows: seq<Row>, cutover: int): Row {
    Row(MaxNumber(rows) + 1, Adjustment, 1, -1, 0, 0, 0, cutover, None)
  }

  lemma OneRow(row: Row)
    requires IsReplayed(row)
    ensures Ordered([row]) == [row]
  {
    assert Select([row]) == [row];
    assert OrderRows([]) == [];
  }

  lemma RaisedByACent(cursor: Option<int>, rateBps: int, row: Row, asOf: int)
    requires row.principal == -1 && row.interest == 0 && row.effective <= asOf
    ensures ReplayFrom(Balance(0, 0, cursor), rateBps, [row], asOf)
         == Balance(1, 0, CursorThrough(cursor, row.effective))
  {
    assert [row][..0] == [];
  }

  lemma RaisingRowMayFollow(loan: Loan, past: seq<Row>, cutover: int)
    requires ValidRows(past)
    ensures MayFollow(loan, past, [RaisingRow(Reconciled(loan, past, cutover), cutover)], cutover)
  {
    ReconciledIsValid(loan, past, cutover);
    var after := Reconciled(loan, past, cutover);
    forall i | 0 <= i < |after| ensures after[i].number <= MaxNumber(after) {
      MaxNumberIsAbove(after, i);
    }
  }

  // Raised to a cent, the two starting states are told apart by waiting.
  lemma RaisedCentShows(a: Balance, b: Balance, rateBps: int, rows: seq<Row>, cutover: int) returns (asOf: int)
    requires rateBps > 0 && !Reached(a.cursor, cutover) && b.cursor == Some(cutover)
    requires a.outstanding == a.interestDue == b.outstanding == b.interestDue == 0
    requires |rows| == 1 && rows[0].principal == -1 && rows[0].interest == 0 && rows[0].effective == cutover
    ensures cutover <= asOf
    ensures !SameOwed(BalanceFrom(a, rateBps, rows, asOf), BalanceFrom(b, rateBps, rows, asOf))
  {
    assert rows == [rows[0]];
    asOf := CursorShows(1, rateBps, a.cursor, cutover);
    RaisedByACent(a.cursor, rateBps, rows[0], asOf);
    RaisedByACent(b.cursor, rateBps, rows[0], asOf);
  }

  lemma RaiseShows(loan: Loan, past: seq<Row>, later: seq<Row>, cutover: int) returns (asOf: int)
    requires DatedUpTo(past, cutover) && MayFollow(loan, past, later, cutover)
    requires loan.rateBps > 0 && loan.storedBalance <= 0 && !Reached(CursorAt(loan, past, cutover), cutover)
    requires |later| == 1 && Ordered(later) == later
    requires later[0].principal == -1 && later[0].interest == 0 && later[0].effective == cutover
    ensures cutover <= asOf && !GoesOnAsFresh(loan, past, later, cutover, asOf)
  {
    var cursor := CursorAt(loan, past, cutover);
    asOf := RaisedCentShows(Start(loan, cursor), Start(loan, Some(cutover)), loan.rateBps, later, cutover);
    WhatShows(loan, past, later, cutover, asOf);
  }

  /**
   Documented: interest accrual restarts at the cutover date. Coded: it does exactly under
   the condition. A consistent loan keeps accruing from its last row, a loan not yet
   disbursed from its disbursement or not at all, adjustment row or none.
   */
  lemma RestartsIff(loan: Loan, past: seq<Row>, cutover: int)
    requires ValidRows(past) && DatedUpTo(past, cutover)
    ensures Restarts(loan, past, cutover) <==> RestartCondition(loan, past, cutover)
  {
    if RestartCondition(loan, past, cutover) {
      forall rows, later, asOf |
        cutover <= asOf && UpTo(rows, cutover) == past && MayFollow(loan, rows, later, cutover)
        ensures GoesOnAsFresh(loan, rows, later, cutover, asOf)
      {
        ForwardIsPureActuals(loan, rows, later, cutover, asOf);
      }
    } else {
      ConditionMeansStart(loan, past, cutover);
      PartOfOneKind(past, cutover, false);
      var later: seq<Row>, asOf := [], 0;
      if loan.storedBalance > 0 {
        asOf := DebtShows(loan, past, cutover);
      } else {
        // Owing nothing, but with accrual not yet started.
        var row := RaisingRow(Reconciled(loan, past, cutover), cutover);
        RaisingRowMayFollow(loan, past, cutover);
        later := [row];
        OneRow(row);
        asOf := RaiseShows(loan, past, later, cutover);
      }
      assert !GoesOnAsFresh(loan, past, later, cutover, asOf);
    }
  }

  lemma HistoryIsCore(loan: Loan, rows: seq<Row>, cutover: int)
    requires forall r :: r in rows ==> Core(r)
    ensures forall i :: 0 <= i < |Reconciled(loan, rows, cutover)| ==> Core(Reconciled(loan, rows, cutover)[i])
    ensures forall i :: 0 <= i < |Beyond(rows, cutover)| ==> Core(Beyond(rows, cutover)[i])
  {
    forall r | r in Beyond(rows, cutover) ensures r in rows {
      PartMembers(rows, cutover, true, r);
    }
  }

  // Counting later fee rows as empty ones, a ledger with a core history is one of the migration's walk.
  lemma WalkedLedger(history: seq<Row>, later: seq<Row>)
    requires (forall i :: 0 <= i < |history| ==> Core(history[i])) && NoReversals(later)
    ensures WalkedRows(history + later) == history + WalkedRows(later) && NoReversals(history + later)
  {
    WalkedConcat(history, later);
    CoreRowsAreWalked(history);
  }

  lemma WalkedRowsMayFollow(loan: Loan, rows: seq<Row>, later: seq<Row>, cutover: int)
    requires MayFollow(loan, rows, later, cutover)
    requires WalkedRows(Reconciled(loan, rows, cutover) + later) == Reconciled(loan, rows, cutover) + WalkedRows(later)
    ensures MayFollow(loan, rows, WalkedRows(later), cutover)
  {
    WalkedRowsAreValid(Reconciled(loan, rows, cutover) + later);
  }

  /** The forward half as the application reports it, later fee rows included. */
  lemma EngineForwardIsPureActuals(loan: Loan, rows: seq<Row>, later: seq<Row>, cutover: int, asOf: int)
    requires MayFollow(loan, rows, later, cutover) && cutover <= asOf
    requires RestartCondition(loan, UpTo(rows, cutover), cutover)
    requires forall r :: r in rows ==> Core(r)
    requires NoReversals(later)
    ensures
      var whole := LoanBalances(loan, Reconciled(loan, rows, cutover) + later, asOf);
      var renewed := LoanBalances(Fresh(loan, cutover), Beyond(rows, cutover) + later, asOf);
      whole.outstanding == renewed.outstanding && whole.interestDue == renewed.interestDue
  {
    var whole, next := Reconciled(loan, rows, cutover) + later, Beyond(rows, cutover) + later;
    HistoryIsCore(loan, rows, cutover);
    WalkedLedger(Reconciled(loan, rows, cutover), later);
    WalkedLedger(Beyond(rows, cutover), later);
    WalkedRowsMayFollow(loan, rows, later, cutover);
    LaterRowsDivide(loan, rows, later, cutover);
    DividedPartsAreValid(whole, UpTo(rows, cutover) + Appended(loan, rows, cutover), next);
    EngineStopsAtFeeRows(loan, whole, asOf);
    EngineStopsAtFeeRows(Fresh(loan, cutover), next, asOf);
    ForwardIsPureActuals(loan, rows, WalkedRows(later), cutover, asOf);
  }

  // ------------------------------------------------------------------------ backdated rows

  ghost predicate Backdated(rows: seq<Row>, cutover: int) {
    forall i :: 0 <= i < |rows| ==> rows[i].effective < cutover
  }

  lemma BackdatedCounts(rows: seq<Row>, row: Row, back: seq<Row>, cutover: int, r: Row)
    ensures
      var past, future := UpTo(rows, cutover) + back, Beyond(rows, cutover);
      && multiset(past)[r] + multiset([row] + future)[r] == multiset(rows + [row] + back)[r]
      && multiset(past)[r] + multiset(future)[r] == multiset(rows + back)[r] <= multiset(rows + [row] + back)[r]
  {
    PartCounts(rows, cutover, false, r);
    PartCounts(rows, cutover, true, r);
  }

  lemma PastPrecedes(rows: seq<Row>, row: Row, back: seq<Row>, cutover: int, x: Row)
    requires Backdated(back, cutover) && row.effective == cutover && row.number > MaxNumber(rows)
    requires x in UpTo(rows, cutover) + back
    ensures x.effective <= cutover && Precedes(x, row)
  {
    if x !in back {
      PartMembers(rows, cutover, false, x);
      var i :| 0 <= i < |rows| && rows[i] == x;
      MaxNumberIsAbove(rows, i);
    }
  }

  lemma FutureComesAfter(rows: seq<Row>, cutover: int, y: Row)
    requires y in Beyond(rows, cutover)
    ensures forall x: Row :: x.effective <= cutover ==> Precedes(x, y)
  {
    PartMembers(rows, cutover, true, y);
  }

  // Backdated rows replay with the history, the adjustment after them all.
  lemma BackdatedDivide(rows: seq<Row>, row: Row, back: seq<Row>, cutover: int)
    requires ValidRows(rows + [row] + back) && Backdated(back, cutover)
    requires row.effective == cutover && row.number > MaxNumber(rows)
    ensures Divides(rows + [row] + back, UpTo(rows, cutover) + back, [row] + Beyond(rows, cutover))
  {
    var past, future := UpTo(rows, cutover) + back, Beyond(rows, cutover);
    forall r | true ensures multiset(past)[r] + multiset([row] + future)[r] == multiset(rows + [row] + back)[r] {
      BackdatedCounts(rows, row, back, cutover, r);
    }
    forall x, y | x in past && y in [row] + future ensures Precedes(x, y) {
      PastPrecedes(rows, row, back, cutover, x);
      if y in future {
        FutureComesAfter(rows, cutover, y);
      }
    }
  }

  lemma WithoutTheRowDivide(rows: seq<Row>, row: Row, back: seq<Row>, cutover: int)
    requires ValidRows(rows + [row] + back) && Backdated(back, cutover)
    requires row.effective == cutover && row.number > MaxNumber(rows)
    ensures Divides(rows + back, UpTo(rows, cutover) + back, Beyond(rows, cutover))
  {
    var past, future := UpTo(rows, cutover) + back, Beyond(rows, cutover);
    forall r | true
      ensures multiset(past)[r] + multiset(future)[r] == multiset(rows + back)[r] <= multiset(rows + [row] + back)[r]
    {
      BackdatedCounts(rows, row, back, cutover, r);
    }
    SomeRowsAreValid(rows + [row] + back, rows + back);
    forall x, y | x in past && y in future ensures Precedes(x, y) {
      PastPrecedes(rows, row, back, cutover, x);
      FutureComesAfter(rows, cutover, y);
    }
  }

  lemma RowAndFutureDivide(whole: seq<Row>, past: seq<Row>, rows: seq<Row>, row: Row, cutover: int)
    requires Divides(whole, past, [row] + Beyond(rows, cutover)) && row.effective == cutover
    ensures Divides([row] + Beyond(rows, cutover), [row], Beyond(rows, cutover))
  {
    DividedPartsAreValid(whole, past, [row] + Beyond(rows, cutover));
    forall y | y in Beyond(rows, cutover) ensures Precedes(row, y) {
      FutureComesAfter(rows, cutover, y);
    }
  }

  lemma {:induction false} ReplayFromInTwoParts(b: Balance, rateBps: int, first: seq<Row>, second: seq<Row>, asOf: int)
    ensures ReplayFrom(b, rateBps, first + second, asOf)
         == ReplayFrom(ReplayFrom(b, rateBps, first, asOf), rateBps, second, asOf)
  {
    if second == [] {
      assert first + second == first;
    } else {
      ReplayFromInTwoParts(b, rateBps, first, second[..|second| - 1], asOf);
      assert (first + second)[..|first + second| - 1] == first + second[..|second| - 1];
    }
  }

  // One row of the cutover date, and rows after it: on that date only the row counts.
  lemma RowThenFuture(b: Balance, rateBps: int, row: Row, future: seq<Row>, cutover: int)
    requires row.effective == cutover && DatedAfter(future, cutover)
    ensures BalanceFrom(b, rateBps, [row] + future, cutover)
         == Pay(AccrueTo(b, rateBps, cutover), row.principal, row.interest)
  {
    ReplayFromInTwoParts(b, rateBps, [row], future, cutover);
    FutureRowsAreSkipped(ReplayFrom(b, rateBps, [row], cutover), rateBps, future, cutover);
    assert [row][..0] == [];
    assert ReplayFrom(b, rateBps, [], cutover) == b;
  }

  lemma AdjustmentPaysAsRecorded(loan: Loan, rows: seq<Row>, row: Row, back: seq<Row>, cutover: int)
    requires ValidRows(rows + [row] + back) && Backdated(back, cutover)
    requires IsReplayed(row) && row.effective == cutover && row.number > MaxNumber(rows)
    ensures MigrationBalance(loan, rows + [row] + back, cutover)
         == Pay(MigrationBalance(loan, rows + back, cutover), row.principal, row.interest)
  {
    var past, future := UpTo(rows, cutover) + back, Beyond(rows, cutover);
    var b := Replay(loan, Ordered(past), cutover);
    BackdatedDivide(rows, row, back, cutover);
    WithoutTheRowDivide(rows, row, back, cutover);
    RowAndFutureDivide(rows + [row] + back, past, rows, row, cutover);
    PartsAreDated(rows, cutover);
    OrderingKeepsDates(future, cutover);
    BalanceContinues(loan, rows + [row] + back, past, [row] + future, cutover, cutover);
    OrderDivides([row] + future, [row], future);
    OneRow(row);
    RowThenFuture(b, loan.rateBps, row, Ordered(future), cutover);
    BalanceContinues(loan, rows + back, past, future, cutover, cutover);
    FutureRowsAreSkipped(b, loan.rateBps, Ordered(future), cutover);
  }

  /**
   Rows recorded after the pass and dated before the cutover move the balance of that date
   off the stored one: the adjustment keeps the two moves it was given, so the change of
   principal remains, less the interest the history no longer owes, and interest remains
   where it owes more than before.
   */
  lemma BackdatedRowsMoveTheBalance(loan: Loan, rows: seq<Row>, back: seq<Row>, cutover: int)
    requires ValidRows(Reconciled(loan, rows, cutover) + back) && Backdated(back, cutover)
    requires !Consistent(loan, rows, cutover)
    ensures
      var before, now := MigrationBalance(loan, rows, cutover), MigrationBalance(loan, rows + back, cutover);
      var b := MigrationBalance(loan, Reconciled(loan, rows, cutover) + back, cutover);
      && b.outstanding == Max0(loan.storedBalance + now.outstanding - before.outstanding
                               - Max0(before.interestDue - now.interestDue))
      && b.interestDue == Max0(now.interestDue - before.interestDue)
  {
    AdjustmentPaysAsRecorded(loan, rows, AdjustmentRow(loan, rows, cutover), back, cutover);
  }

  /** A consistent loan that does not restart: half a cent rounded away at the cutover is back the day after. */
  lemma ConsistentLoanDoesNotRestart(loan: Loan)
    requires loan == Loan(1_825_000, 1_825_000, 1, Some(0))
    ensures Reconciled(loan, [], 1) == []
    ensures MigrationBalance(loan, [], 2).interestDue == 1
    ensures MigrationBalance(Fresh(loan, 1), [], 2).interestDue == 0
  {
    assert AccrueCents(1_825_000, 1, 1) == 0 && AccrueCents(1_825_000, 1, 2) == 1;
    assert OrderRows(Select([])) == [];
    assert Replay(loan, [], 1) == Opening(loan);
  }
}
