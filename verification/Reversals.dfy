/**
 What reversal and fee rows do to the balances the application reports
 (app/services/loan_ledger.py). Ledgers are given in replay order.
 */
module Reversals {
  import opened Common
  import opened Accrual
  import opened LedgerRows
  import opened LedgerWalk
  import opened Cutover
  import opened LiveEngine

  /** The order in which rows were recorded has no influence: only the replay order has. */
  lemma OnlyReplayOrderMatters(loan: Loan, rows: seq<Row>, asOf: int)
    requires ValidRows(rows)
    ensures InOrder(OrderRows(rows)) && LoanBalances(loan, rows, asOf) == LoanBalances(loan, OrderRows(rows), asOf)
  {
    OrderRowsSorts(rows);
    OrderingSortedRowsIsIdentity(OrderRows(rows));
  }

  // ---------------------------------------------------------------- events and lookups

  /** The events of `rows`, their originals looked up in `book`. */
  function EventsIn(book: seq<Row>, rows: seq<Row>): seq<Event> {
    if rows == [] then []
    else EventsIn(book, rows[..|rows| - 1])
         + match EventForRow(book, rows[|rows| - 1]) case None => [] case Some(e) => [e]
  }

  lemma {:induction false} EventsOfPrefix(rows: seq<Row>, k: nat)
    requires k <= |rows|
    ensures EventsForRows(rows, k) == EventsIn(rows, rows[..k])
  {
    if k > 0 {
      EventsOfPrefix(rows, k - 1);
      assert rows[..k][..k - 1] == rows[..k - 1];
    }
  }

  lemma BalancesInOrder(loan: Loan, rows: seq<Row>, asOf: int)
    requires InOrder(rows)
    ensures LoanBalances(loan, rows, asOf) == EngineBalances(loan, EventsIn(rows, rows), asOf)
  {
    OrderingSortedRowsIsIdentity(rows);
    EventsOfPrefix(rows, |rows|);
    assert rows[..|rows|] == rows;
  }

  lemma {:induction false} EventsConcat(book: seq<Row>, a: seq<Row>, b: seq<Row>)
    ensures EventsIn(book, a + b) == EventsIn(book, a) + EventsIn(book, b)
  {
    if b == [] {
      assert a + b == a;
    } else {
      EventsConcat(book, a, b[..|b| - 1]);
      assert (a + b)[..|a + b| - 1] == a + b[..|b| - 1];
    }
  }

  lemma {:induction false} SameEvents(book: seq<Row>, other: seq<Row>, rows: seq<Row>)
    requires forall r :: r in rows ==> EventForRow(book, r) == EventForRow(other, r)
    ensures EventsIn(book, rows) == EventsIn(other, rows)
  {
    if rows != [] {
      var init, last := rows[..|rows| - 1], rows[|rows| - 1];
      assert rows == init + [last];
      assert last in rows;
      SameEvents(book, other, init);
    }
  }

  lemma {:induction false} FindInConcat(a: seq<Row>, b: seq<Row>, number: int)
    ensures FindRow(a + b, number) == if FindRow(b, number).Some? then FindRow(b, number) else FindRow(a, number)
  {
    if b == [] {
      assert a + b == a;
    } else {
      FindInConcat(a, b[..|b| - 1], number);
      assert (a + b)[..|a + b| - 1] == a + b[..|b| - 1];
    }
  }

  lemma {:induction false} FindFindsTheRow(rows: seq<Row>, number: int)
    ensures FindRow(rows, number).None? <==> forall r :: r in rows ==> r.number != number
    ensures FindRow(rows, number).Some? ==> FindRow(rows, number).value in rows
    ensures FindRow(rows, number).Some? ==> FindRow(rows, number).value.number == number
  {
    if rows != [] {
      var init, last := rows[..|rows| - 1], rows[|rows| - 1];
      FindFindsTheRow(init, number);
      assert rows == init + [last];
    }
  }

  lemma FindTheRow(rows: seq<Row>, r: Row)
    requires ValidRows(rows) && r in rows
    ensures FindRow(rows, r.number) == Some(r)
  {
    FindFindsTheRow(rows, r.number);
  }

  // ------------------------------------------------------------------- engine states

  lemma {:induction false} SameContinuation(loan: Loan, a: seq<Event>, b: seq<Event>, more: seq<Event>, asOf: int)
    requires EngineReplay(loan, a, asOf) == EngineReplay(loan, b, asOf)
    ensures EngineReplay(loan, a + more, asOf) == EngineReplay(loan, b + more, asOf)
  {
    if more == [] {
      assert a + more == a && b + more == b;
    } else {
      var init, e := more[..|more| - 1], more[|more| - 1];
      SameContinuation(loan, a, b, init, asOf);
      assert a + more == (a + init) + [e] && b + more == (b + init) + [e];
      EngineStep(loan, a + init, e, asOf);
      EngineStep(loan, b + init, e, asOf);
    }
  }

  predicate NonNegative(b: Buckets) {
    b.outstanding >= 0 && b.interestDue >= 0 && b.feesDue >= 0 && b.addOn >= 0
  }

  lemma AccruingKeepsNonNegative(b: Buckets, rateBps: int, day: int)
    requires NonNegative(b)
    ensures NonNegative(EngineAccrue(b, rateBps, day))
  {
    if b.cursor.Some? {
      AccrualNonNegative(b.outstanding, rateBps, day - b.cursor.value);
    }
  }

  lemma {:induction false} ReplayIsNonNegative(loan: Loan, events: seq<Event>, asOf: int)
    ensures NonNegative(EngineReplay(loan, events, asOf))
  {
    if events != [] {
      ReplayIsNonNegative(loan, events[..|events| - 1], asOf);
    }
  }

  // ------------------------------------------------------------- rows that move nothing

  /** A reversal of nothing, of an unknown row, of another reversal, or of a disbursement; or a disbursement. */
  ghost predicate Idle(rows: seq<Row>, row: Row) {
    || row.txn == Disbursement
    || (row.txn == Reversal
        && (row.reverses.None? || forall r :: r in rows && r.number == row.reverses.value ==>
              r.txn == Reversal || r.txn == Disbursement))
  }

  lemma IdleRowsHaveNoEvent(rows: seq<Row>, row: Row)
    requires Idle(rows, row)
    ensures EventForRow(rows, row).None?
  {
    if row.txn == Reversal && row.reverses.Some? {
      FindFindsTheRow(rows, row.reverses.value);
    }
  }

  // Without the idle row every other row means what it meant.
  lemma LookupsWithoutIdleRow(pre: seq<Row>, row: Row, post: seq<Row>, r: Row)
    requires ValidRows(pre + [row] + post) && (row.txn == Reversal || row.txn == Disbursement)
    ensures EventForRow(pre + [row] + post, r) == EventForRow(pre + post, r)
  {
    if r.txn == Reversal && r.reverses.Some? {
      var m := r.reverses.value;
      FindInConcat(pre + [row], post, m);
      FindInConcat(pre, [row], m);
      FindInConcat(pre, post, m);
      if m == row.number {
        assert row in pre + [row] + post;
        FindTheRow(pre + [row] + post, row);
        NumberedOnce(pre, row, post);
        FindFindsTheRow(pre + post, m);
      }
    }
  }

  lemma NumberedOnce(pre: seq<Row>, row: Row, post: seq<Row>)
    requires ValidRows(pre + [row] + post)
    ensures forall r :: r in pre + post ==> r.number != row.number
  {
    var all := pre + [row] + post;
    forall r | r in pre + post ensures r.number != row.number {
      if r in pre {
        var i :| 0 <= i < |pre| && pre[i] == r;
        assert all[i] == r && all[|pre|] == row;
      } else {
        var i :| 0 <= i < |post| && post[i] == r;
        assert all[|pre| + 1 + i] == r && all[|pre|] == row;
      }
    }
  }

  lemma StillInOrder(pre: seq<Row>, row: Row, post: seq<Row>)
    requires InOrder(pre + [row] + post)
    ensures InOrder(pre + post)
  {
    var all, rest := pre + [row] + post, pre + post;
    forall i, j | 0 <= i < j < |rest| ensures Precedes(rest[i], rest[j]) {
      var i', j' := if i < |pre| then i else i + 1, if j < |pre| then j else j + 1;
      assert rest[i] == all[i'] && rest[j] == all[j'];
    }
  }

  /** Dangling and chained reversals, and disbursements, can be struck from a ledger without any effect. */
  lemma IdleRowsMoveNothing(loan: Loan, pre: seq<Row>, row: Row, post: seq<Row>, asOf: int)
    requires ValidRows(pre + [row] + post) && InOrder(pre + [row] + post)
    requires Idle(pre + [row] + post, row)
    ensures LoanBalances(loan, pre + [row] + post, asOf) == LoanBalances(loan, pre + post, asOf)
  {
    var all, rest := pre + [row] + post, pre + post;
    StillInOrder(pre, row, post);
    BalancesInOrder(loan, all, asOf);
    BalancesInOrder(loan, rest, asOf);
    IdleRowsHaveNoEvent(all, row);
    EventsConcat(all, pre + [row], post);
    EventsConcat(all, pre, [row]);
    assert EventsIn(all, [row]) == [] by {
      assert [row][..0] == [];
    }
    EventsConcat(all, pre, post);
    assert EventsIn(all, pre + [row]) == EventsIn(all, pre) + [] == EventsIn(all, pre);
    assert EventsIn(all, all) == EventsIn(all, rest);
    forall r | r in rest ensures EventForRow(all, r) == EventForRow(rest, r) {
      LookupsWithoutIdleRow(pre, row, post, r);
    }
    SameEvents(all, rest, rest);
  }

  // ---------------------------------------------------------- a row and its reversal

  /** The row with nothing in it: its date and number remain. */
  function Emptied(row: Row): Row {
    row.(principal := 0, interest := 0, fees := 0, addOn := 0)
  }

  /** A ledger in which a row is followed at once by its reversal. */
  function Around(pre: seq<Row>, row: Row, reversal: Row, post: seq<Row>): seq<Row> {
    pre + [row] + [reversal] + post
  }

  predicate Reverses(reversal: Row, row: Row) {
    reversal.txn == Reversal && reversal.reverses == Some(row.number)
  }

  /** The rows before refer to themselves only, and no other row reverses this one. */
  ghost predicate Follows(pre: seq<Row>, row: Row, reversal: Row, post: seq<Row>) {
    && ValidRows(Around(pre, row, reversal, post)) && InOrder(Around(pre, row, reversal, post))
    && (forall r, x :: r in pre && x in [row] + [reversal] + post ==> !Reverses(r, x))
    && (forall r :: r in post ==> !Reverses(r, row))
  }

  /** At `asOf` the ledger reports what it would with an empty row in place of `row`. */
  ghost predicate AsIfEmpty(loan: Loan, pre: seq<Row>, row: Row, reversal: Row, post: seq<Row>, asOf: int) {
    LoanBalances(loan, Around(pre, row, reversal, post), asOf)
    == LoanBalances(loan, Around(pre, Emptied(row), reversal, post), asOf)
  }

  /** From the reversal on the row is as if it had been empty, whatever follows. */
  ghost predicate Undone(loan: Loan, pre: seq<Row>, row: Row, reversal: Row) {
    forall post, asOf ::
      Follows(pre, row, reversal, post) && reversal.effective <= asOf ==>
        AsIfEmpty(loan, pre, row, reversal, post, asOf)
  }

  // ------------------------------------------------------------- its events and lookups

  lemma EmptiedInOrder(pre: seq<Row>, row: Row, reversal: Row, post: seq<Row>)
    requires InOrder(Around(pre, row, reversal, post))
    ensures InOrder(Around(pre, Emptied(row), reversal, post))
  {
    var a, b := Around(pre, row, reversal, post), Around(pre, Emptied(row), reversal, post);
    forall i, j | 0 <= i < j < |b| ensures Precedes(b[i], b[j]) {
      assert i != |pre| ==> a[i] == b[i];
      assert j != |pre| ==> a[j] == b[j];
      assert Precedes(a[i], a[j]);
    }
  }

  lemma FindAround(pre: seq<Row>, row: Row, reversal: Row, post: seq<Row>, m: int)
    requires m != row.number
    ensures FindRow(Around(pre, row, reversal, post), m) == FindRow(Around(pre, Emptied(row), reversal, post), m)
  {
    forall x: Row | x == row || x == Emptied(row)
      ensures FindRow(Around(pre, x, reversal, post), m)
           == if FindRow(post, m).Some? then FindRow(post, m)
              else if reversal.number == m then Some(reversal)
              else FindRow(pre, m)
    {
      FindInConcat(pre + [x] + [reversal], post, m);
      FindInConcat(pre + [x], [reversal], m);
      FindInConcat(pre, [x], m);
    }
  }

  lemma LookupsAround(pre: seq<Row>, row: Row, reversal: Row, post: seq<Row>, r: Row)
    requires !Reverses(r, row)
    ensures EventForRow(Around(pre, row, reversal, post), r)
         == EventForRow(Around(pre, Emptied(row), reversal, post), r)
  {
    if r.txn == Reversal && r.reverses.Some? {
      FindAround(pre, row, reversal, post, r.reverses.value);
    }
  }

  // The rows before, read in the whole ledger, mean what they mean alone.
  lemma LookupsBefore(pre: seq<Row>, rest: seq<Row>, r: Row)
    requires forall x :: x in rest ==> !Reverses(r, x)
    ensures EventForRow(pre + rest, r) == EventForRow(pre, r)
  {
    if r.txn == Reversal && r.reverses.Some? {
      FindInConcat(pre, rest, r.reverses.value);
      FindFindsTheRow(rest, r.reverses.value);
    }
  }

  function Opposite(e: Event, day: int): Event {
    Event(day, e.principalCharged, e.interestCharged, e.feesCharged, e.addOnCharged,
          e.principalPaid, e.interestPaid, e.feesPaid, e.addOnPaid)
  }

  lemma PairEvents(pre: seq<Row>, row: Row, reversal: Row, post: seq<Row>)
    requires ValidRows(Around(pre, row, reversal, post)) && Reverses(reversal, row)
    requires row.txn == Payment || row.txn == Adjustment || row.txn == Fee
    ensures
      var all := Around(pre, row, reversal, post);
      && ForwardEvent(row).Some?
      && EventsIn(all, [row]) == [ForwardEvent(row).value]
      && EventsIn(all, [reversal]) == [Opposite(ForwardEvent(row).value, reversal.effective)]
  {
    var all := Around(pre, row, reversal, post);
    assert row in all;
    FindTheRow(all, row);
    assert [row][..0] == [] && [reversal][..0] == [];
  }

  lemma EventsAround(pre: seq<Row>, row: Row, reversal: Row, post: seq<Row>, book: seq<Row>)
    ensures EventsIn(book, Around(pre, row, reversal, post))
         == EventsIn(book, pre) + EventsIn(book, [row]) + EventsIn(book, [reversal]) + EventsIn(book, post)
  {
    EventsConcat(book, pre + [row] + [reversal], post);
    EventsConcat(book, pre + [row], [reversal]);
    EventsConcat(book, pre, [row]);
  }

  // Both ledgers: the same events before, the pair's own, the same events after.
  lemma LedgerEvents(pre: seq<Row>, row: Row, reversal: Row, post: seq<Row>)
    requires Follows(pre, row, reversal, post) && Reverses(reversal, row)
    requires row.txn == Payment || row.txn == Adjustment || row.txn == Fee
    ensures
      var all, empty := Around(pre, row, reversal, post), Around(pre, Emptied(row), reversal, post);
      var e, e0 := ForwardEvent(row), ForwardEvent(Emptied(row));
      && e.Some? && e0.Some?
      && EventsIn(all, all) == EventsIn(pre, pre) + [e.value] + [Opposite(e.value, reversal.effective)]
                               + EventsIn(all, post)
      && EventsIn(empty, empty) == EventsIn(pre, pre) + [e0.value] + [Opposite(e0.value, reversal.effective)]
                                   + EventsIn(all, post)
  {
    var all, empty := Around(pre, row, reversal, post), Around(pre, Emptied(row), reversal, post);
    EmptiedIsValid(pre, row, reversal, post);
    PairEvents(pre, row, reversal, post);
    PairEvents(pre, Emptied(row), reversal, post);
    EventsAround(pre, row, reversal, post, all);
    EventsAround(pre, Emptied(row), reversal, post, empty);
    assert all == pre + ([row] + [reversal] + post);
    forall r | r in pre ensures EventForRow(all, r) == EventForRow(pre, r) == EventForRow(empty, r) {
      LookupsBefore(pre, [row] + [reversal] + post, r);
      LookupsAround(pre, row, reversal, post, r);
    }
    SameEvents(all, pre, pre);
    SameEvents(empty, pre, pre);
    forall r | r in post ensures EventForRow(all, r) == EventForRow(empty, r) {
      LookupsAround(pre, row, reversal, post, r);
    }
    SameEvents(all, empty, post);
  }

  lemma EmptiedIsValid(pre: seq<Row>, row: Row, reversal: Row, post: seq<Row>)
    requires ValidRows(Around(pre, row, reversal, post))
    ensures ValidRows(Around(pre, Emptied(row), reversal, post))
  {
    var a, b := Around(pre, row, reversal, post), Around(pre, Emptied(row), reversal, post);
    forall i | 0 <= i < |b| ensures b[i].number == a[i].number && b[i].amount == a[i].amount {
      assert i != |pre| ==> a[i] == b[i];
    }
  }

  // -------------------------------------------------------------------- bucket arithmetic

  function AfterPair(b: Buckets, rateBps: int, e: Event, day: int): Buckets {
    EngineApply(EngineAccrue(EngineApply(EngineAccrue(b, rateBps, e.effective), e), rateBps, day), Opposite(e, day))
  }

  /** No clamp acts on the row: it pays no more than each bucket holds. */
  predicate Fits(b: Buckets, row: Row) {
    && row.principal <= b.outstanding && row.interest <= b.interestDue
    && row.fees <= b.feesDue && row.addOn <= b.addOn
  }

  lemma PaymentPair(b: Buckets, rateBps: int, row: Row)
    requires NonNegative(b) && (row.txn == Payment || row.txn == Adjustment)
    ensures
      var day := row.effective;
      AfterPair(b, rateBps, ForwardEvent(row).value, day)
      == AfterPair(b, rateBps, ForwardEvent(Emptied(row)).value, day)
      <==> Fits(EngineAccrue(b, rateBps, day), row)
  {
    AccruingKeepsNonNegative(b, rateBps, row.effective);
  }

  lemma FeePair(b: Buckets, rateBps: int, row: Row, day: int)
    requires NonNegative(b) && row.txn == Fee && row.effective <= day
    ensures
      AfterPair(b, rateBps, ForwardEvent(row).value, day)
      == AfterPair(b, rateBps, ForwardEvent(Emptied(row)).value, day)
      <==> 0 <= b.feesDue + row.fees && 0 <= b.addOn + row.addOn
  {
    AccruingKeepsNonNegative(b, rateBps, row.effective);
  }

  // -------------------------------------------------------------------- main results

  lemma {:induction false} EventsAreDated(book: seq<Row>, rows: seq<Row>, day: int)
    requires forall r :: r in rows ==> r.effective <= day
    ensures forall e :: e in EventsIn(book, rows) ==> e.effective <= day
  {
    if rows != [] {
      var init, last := rows[..|rows| - 1], rows[|rows| - 1];
      assert rows == init + [last];
      assert last in rows;
      EventsAreDated(book, init, day);
    }
  }

  lemma {:induction false} PastEventsReplayTheSame(loan: Loan, events: seq<Event>, day: int, asOf: int)
    requires day <= asOf && forall e :: e in events ==> e.effective <= day
    ensures EngineReplay(loan, events, asOf) == EngineReplay(loan, events, day)
  {
    if events != [] {
      var init, last := events[..|events| - 1], events[|events| - 1];
      assert events == init + [last];
      assert last in events;
      PastEventsReplayTheSame(loan, init, day, asOf);
    }
  }

  lemma ReplayOfPair(loan: Loan, events: seq<Event>, e: Event, day: int, asOf: int)
    requires (forall x :: x in events ==> x.effective <= e.effective) && e.effective <= day <= asOf
    ensures EngineReplay(loan, events + [e] + [Opposite(e, day)], asOf)
         == AfterPair(EngineReplay(loan, events, e.effective), loan.rateBps, e, day)
  {
    PastEventsReplayTheSame(loan, events, e.effective, asOf);
    EngineStep(loan, events, e, asOf);
    EngineStep(loan, events + [e], Opposite(e, day), asOf);
  }

  lemma DatesOfPair(pre: seq<Row>, row: Row, reversal: Row, post: seq<Row>)
    requires InOrder(Around(pre, row, reversal, post))
    ensures (forall r :: r in pre ==> r.effective <= row.effective) && row.effective <= reversal.effective
    ensures InOrder(pre)
  {
    var all := Around(pre, row, reversal, post);
    assert all[|pre|] == row && all[|pre| + 1] == reversal;
    forall i | 0 <= i < |pre| ensures pre[i] == all[i] && pre[i].effective <= row.effective {
      assert Precedes(all[i], all[|pre|]);
    }
  }

  // Everything up to and including the pair, in both ledgers.
  lemma PairStates(loan: Loan, pre: seq<Row>, row: Row, reversal: Row, asOf: int)
    requires InOrder(Around(pre, row, reversal, [])) && reversal.effective <= asOf
    requires row.txn == Payment || row.txn == Adjustment || row.txn == Fee
    ensures
      var b, day := EngineReplay(loan, EventsIn(pre, pre), row.effective), reversal.effective;
      var e, e0 := ForwardEvent(row).value, ForwardEvent(Emptied(row)).value;
      && EngineReplay(loan, EventsIn(pre, pre) + [e] + [Opposite(e, day)], asOf) == AfterPair(b, loan.rateBps, e, day)
      && EngineReplay(loan, EventsIn(pre, pre) + [e0] + [Opposite(e0, day)], asOf)
         == AfterPair(b, loan.rateBps, e0, day)
  {
    DatesOfPair(pre, row, reversal, []);
    EventsAreDated(pre, pre, row.effective);
    ReplayOfPair(loan, EventsIn(pre, pre), ForwardEvent(row).value, reversal.effective, asOf);
    ReplayOfPair(loan, EventsIn(pre, pre), ForwardEvent(Emptied(row)).value, reversal.effective, asOf);
  }

  ghost predicate PairLeavesNothing(loan: Loan, pre: seq<Row>, row: Row, reversal: Row)
    requires row.txn == Payment || row.txn == Adjustment || row.txn == Fee
  {
    var b, day := EngineReplay(loan, EventsIn(pre, pre), row.effective), reversal.effective;
    AfterPair(b, loan.rateBps, ForwardEvent(row).value, day)
    == AfterPair(b, loan.rateBps, ForwardEvent(Emptied(row)).value, day)
  }

  lemma PairDecides(loan: Loan, pre: seq<Row>, row: Row, reversal: Row, post: seq<Row>, asOf: int)
    requires Follows(pre, row, reversal, post) && Reverses(reversal, row) && reversal.effective <= asOf
    requires row.txn == Payment || row.txn == Adjustment || row.txn == Fee
    ensures PairLeavesNothing(loan, pre, row, reversal) ==> AsIfEmpty(loan, pre, row, reversal, post, asOf)
    ensures post == [] && asOf == reversal.effective && AsIfEmpty(loan, pre, row, reversal, post, asOf) ==>
              PairLeavesNothing(loan, pre, row, reversal)
  {
    var all, empty := Around(pre, row, reversal, post), Around(pre, Emptied(row), reversal, post);
    var day, e, e0 := reversal.effective, ForwardEvent(row).value, ForwardEvent(Emptied(row)).value;
    var more := EventsIn(all, post);
    var a, b := EventsIn(pre, pre) + [e] + [Opposite(e, day)], EventsIn(pre, pre) + [e0] + [Opposite(e0, day)];
    EmptiedInOrder(pre, row, reversal, post);
    BalancesInOrder(loan, all, asOf);
    BalancesInOrder(loan, empty, asOf);
    LedgerEvents(pre, row, reversal, post);
    PairInOrder(pre, row, reversal, post);
    PairStates(loan, pre, row, reversal, asOf);
    if PairLeavesNothing(loan, pre, row, reversal) {
      SameContinuation(loan, a, b, more, asOf);
    }
    if post == [] {
      assert more == [] && a + more == a && b + more == b;
    }
  }

  lemma PairInOrder(pre: seq<Row>, row: Row, reversal: Row, post: seq<Row>)
    requires InOrder(Around(pre, row, reversal, post))
    ensures InOrder(Around(pre, row, reversal, []))
  {
    var all, some := Around(pre, row, reversal, post), Around(pre, row, reversal, []);
    forall i, j | 0 <= i < j < |some| ensures Precedes(some[i], some[j]) {
      assert some[i] == all[i] && some[j] == all[j];
    }
  }

  lemma UndoneIffPairLeavesNothing(loan: Loan, pre: seq<Row>, row: Row, reversal: Row)
    requires Follows(pre, row, reversal, []) && Reverses(reversal, row)
    requires row.txn == Payment || row.txn == Adjustment || row.txn == Fee
    ensures Undone(loan, pre, row, reversal) <==> PairLeavesNothing(loan, pre, row, reversal)
  {
    if PairLeavesNothing(loan, pre, row, reversal) {
      forall post, asOf | Follows(pre, row, reversal, post) && reversal.effective <= asOf
        ensures AsIfEmpty(loan, pre, row, reversal, post, asOf)
      {
        PairDecides(loan, pre, row, reversal, post, asOf);
      }
    }
    if Undone(loan, pre, row, reversal) {
      assert AsIfEmpty(loan, pre, row, reversal, [], reversal.effective);
      PairDecides(loan, pre, row, reversal, [], reversal.effective);
    }
  }

  lemma BalancesBefore(loan: Loan, pre: seq<Row>, day: int)
    requires InOrder(pre)
    ensures LoanBalances(loan, pre, day)
         == EngineAccrue(EngineReplay(loan, EventsIn(pre, pre), day), loan.rateBps, day)
  {
    BalancesInOrder(loan, pre, day);
  }

  /**
   A payment or adjustment reversed on its own date is undone, in every balance and for
   whatever rows follow, exactly when no clamp acted on it: it paid no more than each of
   the four balances it met. Beyond that the reversal charges what the clamp had forgotten.
   */
  lemma PaymentReversalUndoesIff(loan: Loan, pre: seq<Row>, row: Row, reversal: Row)
    requires Follows(pre, row, reversal, []) && Reverses(reversal, row)
    requires (row.txn == Payment || row.txn == Adjustment) && reversal.effective == row.effective
    ensures Undone(loan, pre, row, reversal)
       <==> var b := LoanBalances(loan, pre, row.effective);
            && row.principal <= b.outstanding && row.interest <= b.interestDue
            && row.fees <= b.feesDue && row.addOn <= b.addOn
  {
    var b := EngineReplay(loan, EventsIn(pre, pre), row.effective);
    UndoneIffPairLeavesNothing(loan, pre, row, reversal);
    DatesOfPair(pre, row, reversal, []);
    BalancesBefore(loan, pre, row.effective);
    ReplayIsNonNegative(loan, EventsIn(pre, pre), row.effective);
    PaymentPair(b, loan.rateBps, row);
  }

  /**
   A fee followed by its reversal, on that date or a later one, is undone exactly when no
   clamp acted on it, and so always when its amounts are not negative.
   */
  lemma FeeReversalUndoesIff(loan: Loan, pre: seq<Row>, row: Row, reversal: Row)
    requires Follows(pre, row, reversal, []) && Reverses(reversal, row) && row.txn == Fee
    ensures Undone(loan, pre, row, reversal)
       <==> var b := LoanBalances(loan, pre, row.effective);
            0 <= b.feesDue + row.fees && 0 <= b.addOn + row.addOn
    ensures row.fees >= 0 && row.addOn >= 0 ==> Undone(loan, pre, row, reversal)
  {
    var b := EngineReplay(loan, EventsIn(pre, pre), row.effective);
    UndoneIffPairLeavesNothing(loan, pre, row, reversal);
    DatesOfPair(pre, row, reversal, []);
    BalancesBefore(loan, pre, row.effective);
    ReplayIsNonNegative(loan, EventsIn(pre, pre), row.effective);
    FeePair(b, loan.rateBps, row, reversal.effective);
  }

  // --------------------------------------------------- a reversal anywhere in the ledger

  /** An adjustment that takes back what `row` did, at the place of the reversal. */
  function OppositeRow(row: Row, reversal: Row): Row {
    if row.txn == Fee then
      Row(reversal.number, Adjustment, reversal.amount, 0, 0, row.fees, row.addOn, reversal.effective, None)
    else
      Row(reversal.number, Adjustment, reversal.amount,
          -row.principal, -row.interest, -row.fees, -row.addOn, reversal.effective, None)
  }

  lemma FindWithReplacement(a: seq<Row>, x: Row, y: Row, b: seq<Row>, m: int)
    requires m != x.number && x.number == y.number
    ensures FindRow(a + [x] + b, m) == FindRow(a + [y] + b, m)
  {
    forall z: Row | z == x || z == y
      ensures FindRow(a + [z] + b, m) == if FindRow(b, m).Some? then FindRow(b, m) else FindRow(a, m)
    {
      FindInConcat(a + [z], b, m);
      FindInConcat(a, [z], m);
    }
  }

  lemma ReplacedInOrder(a: seq<Row>, x: Row, y: Row, b: seq<Row>)
    requires InOrder(a + [x] + b) && x.number == y.number && x.effective == y.effective
    ensures InOrder(a + [y] + b)
  {
    var p, q := a + [x] + b, a + [y] + b;
    forall i, j | 0 <= i < j < |q| ensures Precedes(q[i], q[j]) {
      assert i != |a| ==> p[i] == q[i];
      assert j != |a| ==> p[j] == q[j];
      assert Precedes(p[i], p[j]);
    }
  }

  lemma OppositeAppliesTheSame(b: Buckets, row: Row, reversal: Row)
    requires row.txn == Payment || row.txn == Adjustment || row.txn == Fee
    ensures EngineApply(b, Opposite(ForwardEvent(row).value, reversal.effective))
         == EngineApply(b, PaymentEvent(OppositeRow(row, reversal)))
  {
  }

  // The other rows mean the same beside the reversal and beside the opposite row.
  lemma OtherEventsStay(a: seq<Row>, x: Row, y: Row, b: seq<Row>)
    requires x.number == y.number && forall r :: r in a + b ==> !Reverses(r, x)
    ensures EventsIn(a + [x] + b, a) == EventsIn(a + [y] + b, a)
    ensures EventsIn(a + [x] + b, b) == EventsIn(a + [y] + b, b)
  {
    forall r | r in a + b ensures EventForRow(a + [x] + b, r) == EventForRow(a + [y] + b, r) {
      if r.txn == Reversal && r.reverses.Some? {
        FindWithReplacement(a, x, y, b, r.reverses.value);
      }
    }
    SameEvents(a + [x] + b, a + [y] + b, a);
    SameEvents(a + [x] + b, a + [y] + b, b);
  }

  lemma OneEventReplaced(loan: Loan, before: seq<Event>, e: Event, f: Event, more: seq<Event>, asOf: int)
    requires e.effective == f.effective && forall b :: EngineApply(b, e) == EngineApply(b, f)
    ensures EngineReplay(loan, before + [e] + more, asOf) == EngineReplay(loan, before + [f] + more, asOf)
  {
    EngineStep(loan, before, e, asOf);
    EngineStep(loan, before, f, asOf);
    SameContinuation(loan, before + [e], before + [f], more, asOf);
  }

  lemma EventsWithOne(book: seq<Row>, a: seq<Row>, x: Row, b: seq<Row>, e: Event)
    requires EventForRow(book, x) == Some(e)
    ensures EventsIn(book, a + [x] + b) == EventsIn(book, a) + [e] + EventsIn(book, b)
  {
    EventsConcat(book, a + [x], b);
    EventsConcat(book, a, [x]);
    assert [x][..0] == [];
  }

  /** Wherever a reversal stands, it does to all four balances what the opposite adjustment would do on its date. */
  lemma ReversalIsTheOppositeRow(loan: Loan, a: seq<Row>, reversal: Row, b: seq<Row>, row: Row, asOf: int)
    requires ValidRows(a + [reversal] + b) && InOrder(a + [reversal] + b)
    requires row in a + b && Reverses(reversal, row) && forall r :: r in a + b ==> !Reverses(r, reversal)
    requires row.txn == Payment || row.txn == Adjustment || row.txn == Fee
    ensures LoanBalances(loan, a + [reversal] + b, asOf)
         == LoanBalances(loan, a + [OppositeRow(row, reversal)] + b, asOf)
  {
    var opposite := OppositeRow(row, reversal);
    var all, other := a + [reversal] + b, a + [opposite] + b;
    var e, f := Opposite(ForwardEvent(row).value, reversal.effective), PaymentEvent(opposite);
    ReplacedInOrder(a, reversal, opposite, b);
    BalancesInOrder(loan, all, asOf);
    BalancesInOrder(loan, other, asOf);
    assert row in all;
    FindTheRow(all, row);
    EventsWithOne(all, a, reversal, b, e);
    EventsWithOne(other, a, opposite, b, f);
    OtherEventsStay(a, reversal, opposite, b);
    forall x | true ensures EngineApply(x, e) == EngineApply(x, f) {
      OppositeAppliesTheSame(x, row, reversal);
    }
    OneEventReplaced(loan, EventsIn(all, a), e, f, EventsIn(all, b), asOf);
  }

  // ----------------------------------------------------------------- the fee balances

  datatype FeeKind = LoanFees | AddOns

  function Part(row: Row, kind: FeeKind): int {
    if kind == LoanFees then row.fees else row.addOn
  }

  function Owed(b: Buckets, kind: FeeKind): int {
    if kind == LoanFees then b.feesDue else b.addOn
  }

  /** Fees charged less fees paid by the rows up to a date. */
  function NetFees(rows: seq<Row>, kind: FeeKind, asOf: int): int {
    if rows == [] then 0
    else
      var last := rows[|rows| - 1];
      NetFees(rows[..|rows| - 1], kind, asOf)
      + if last.effective > asOf then 0
        else if last.txn == Fee then Part(last, kind)
        else if IsReplayed(last) then -Part(last, kind)
        else 0
  }

  /** What the engine reports for rows already in replay order. */
  function Reported(loan: Loan, rows: seq<Row>, asOf: int): Buckets {
    EngineBalances(loan, EventsIn(rows, rows), asOf)
  }

  /** What the zero clamp forgot of the payments beyond the fees owed. */
  ghost function FeesForgotten(loan: Loan, rows: seq<Row>, kind: FeeKind, asOf: int): nat {
    if rows == [] then 0
    else
      var init, last := rows[..|rows| - 1], rows[|rows| - 1];
      var owed := Owed(Reported(loan, init, asOf), kind);
      FeesForgotten(loan, init, kind, asOf)
      + if last.effective > asOf then 0
        else if last.txn == Fee then Max0(-(owed + Part(last, kind)))
        else if IsReplayed(last) then Max0(Part(last, kind) - owed)
        else 0
  }

  lemma OneMoreRowsEvents(init: seq<Row>, last: Row)
    requires last.txn != Reversal && forall r :: r in init ==> r.txn != Reversal
    ensures EventsIn(init + [last], init + [last])
         == EventsIn(init, init) + if last.txn == Disbursement then [] else [ForwardEvent(last).value]
  {
    var rows := init + [last];
    forall r | r in init ensures EventForRow(rows, r) == EventForRow(init, r) {
    }
    SameEvents(rows, init, init);
    EventsConcat(rows, init, [last]);
    assert [last][..0] == [];
  }

  lemma OneMoreEventsFees(loan: Loan, events: seq<Event>, e: Event, kind: FeeKind, asOf: int)
    ensures
      var before := Owed(EngineBalances(loan, events, asOf), kind);
      Owed(EngineBalances(loan, events + [e], asOf), kind)
      == if e.effective > asOf then before
         else if kind == LoanFees then Max0(before + (e.feesCharged - e.feesPaid))
         else Max0(before + (e.addOnCharged - e.addOnPaid))
  {
    EngineStep(loan, events, e, asOf);
  }

  lemma OneMoreRow(loan: Loan, init: seq<Row>, last: Row, kind: FeeKind, asOf: int)
    requires last.txn != Reversal && forall r :: r in init ==> r.txn != Reversal
    ensures
      var before := Owed(Reported(loan, init, asOf), kind);
      Owed(Reported(loan, init + [last], asOf), kind)
      == if last.effective > asOf || last.txn == Disbursement then before
         else if last.txn == Fee then Max0(before + Part(last, kind))
         else Max0(before - Part(last, kind))
  {
    var events := EventsIn(init, init);
    OneMoreRowsEvents(init, last);
    if last.txn == Disbursement {
      assert events + [] == events;
    } else {
      FeesOfEvent(last);
      OneMoreEventsFees(loan, events, ForwardEvent(last).value, kind, asOf);
    }
  }

  lemma FeesOfEvent(row: Row)
    requires row.txn == Payment || row.txn == Adjustment || row.txn == Fee
    ensures
      var e := ForwardEvent(row).value;
      && e.effective == row.effective
      && e.feesCharged - e.feesPaid == (if row.txn == Fee then row.fees else -row.fees)
      && e.addOnCharged - e.addOnPaid == (if row.txn == Fee then row.addOn else -row.addOn)
  {
  }

  lemma {:induction false} ReportedFees(loan: Loan, rows: seq<Row>, kind: FeeKind, asOf: int)
    requires NoReversals(rows)
    ensures Owed(Reported(loan, rows, asOf), kind) == NetFees(rows, kind, asOf) + FeesForgotten(loan, rows, kind, asOf)
  {
    if rows != [] {
      var init, last := rows[..|rows| - 1], rows[|rows| - 1];
      assert rows == init + [last];
      ReportedFees(loan, init, kind, asOf);
      OneMoreRow(loan, init, last, kind, asOf);
    }
  }

  /**
   Conservation of fees and of add-ons, each on its own: what is owed is what was charged
   less what was paid, plus what the clamp forgot.
   */
  lemma FeesAreConserved(loan: Loan, rows: seq<Row>, kind: FeeKind, asOf: int)
    requires InOrder(rows) && NoReversals(rows)
    ensures Owed(LoanBalances(loan, rows, asOf), kind)
         == NetFees(rows, kind, asOf) + FeesForgotten(loan, rows, kind, asOf)
  {
    BalancesInOrder(loan, rows, asOf);
    ReportedFees(loan, rows, kind, asOf);
  }
}
