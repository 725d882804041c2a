/**
 The payment waterfall of the ledger backfill (alembic/versions/049_loan_ledger.py):
 every payment tops up the installments oldest first, principal before interest
 within an installment, against one fill state shared by all payments.

 The closed form says what the loop amounts to: the state depends on nothing but
 the cumulative cash, and every single cent has a fixed destination.
 */
module Waterfall {
  import opened Common

  datatype Installment = Installment(number: int, principal: int, interest: int, total: int)

  datatype Allocation = Allocation(principal: int, interest: int)

  /** Installment numbers are unique within a loan (a unique index enforces it). */
  ghost predicate DistinctNumbers(schedule: seq<Installment>) {
    forall i, j :: 0 <= i < j < |schedule| ==> schedule[i].number != schedule[j].number
  }

  // ------------------------------------------------------------------ closed form

  /** Cash that must arrive before installment `i` receives its first cent. */
  function Before(schedule: seq<Installment>, i: nat): nat
    requires i <= |schedule|
  {
    if i == 0 then 0 else Before(schedule, i - 1) + Max0(schedule[i - 1].total)
  }

  /** What installment `i` holds once `cash` cents arrived: cash minus the earlier totals, clamped. */
  function Fill(schedule: seq<Installment>, cash: nat, i: nat): nat
    requires i < |schedule|
  {
    Min(Max0(cash - Before(schedule, i)), Max0(schedule[i].total))
  }

  function PrincipalWithin(schedule: seq<Installment>, cash: nat, i: nat): nat
    requires i <= |schedule|
  {
    if i == 0 then 0
    else PrincipalWithin(schedule, cash, i - 1)
         + Min(Fill(schedule, cash, i - 1), Max0(schedule[i - 1].principal))
  }

  /** Principal repaid by `cash` cents in all, counting cash beyond the schedule as principal. */
  function CumulativePrincipal(schedule: seq<Installment>, cash: nat): nat {
    PrincipalWithin(schedule, cash, |schedule|) + Max0(cash - Before(schedule, |schedule|))
  }

  /** The share of the cents `from .. from + amount` of the cash stream. */
  function Share(schedule: seq<Installment>, from: nat, amount: nat): Allocation {
    var principal := CumulativePrincipal(schedule, from + amount) - CumulativePrincipal(schedule, from);
    Allocation(principal, amount - principal)
  }

  /** Cash received by the first `k` payments; a negative amount moves no cash. */
  function Cash(payments: seq<int>, k: nat): nat
    requires k <= |payments|
  {
    if k == 0 then 0 else Cash(payments, k - 1) + Max0(payments[k - 1])
  }

  ghost predicate FillState(schedule: seq<Installment>, cash: nat, paid: map<int, int>) {
    forall i {:trigger Fill(schedule, cash, i)} :: 0 <= i < |schedule| ==>
      schedule[i].number in paid && paid[schedule[i].number] == Fill(schedule, cash, i)
  }

  // -------------------------------------------------------------------- the loops

  lemma {:induction false} BeforeIsMonotone(schedule: seq<Installment>, i: nat, j: nat)
    requires i <= j <= |schedule|
    ensures Before(schedule, i) <= Before(schedule, j)
  {
    if i < j {
      BeforeIsMonotone(schedule, i, j - 1);
    }
  }

  // Once the cash is used up by the installments before `i`, nothing later moves.
  lemma {:induction false} NothingLeft(schedule: seq<Installment>, cash: nat, more: nat, i: nat, j: nat)
    requires i <= j <= |schedule| && cash <= more
    requires more == cash || more <= Before(schedule, i)
    ensures PrincipalWithin(schedule, more, j) - PrincipalWithin(schedule, cash, j)
         == PrincipalWithin(schedule, more, i) - PrincipalWithin(schedule, cash, i)
    ensures more == cash || more <= Before(schedule, j)
    ensures j < |schedule| ==> Fill(schedule, more, j) == Fill(schedule, cash, j)
  {
    if i < j {
      NothingLeft(schedule, cash, more, i, j - 1);
    }
  }

  /** What one installment takes from the unspent cash: the cents applied and the principal among them. */
  function TopUp(item: Installment, paid: int, remaining: int): (int, int) {
    var outstanding := item.total - paid;
    if outstanding <= 0 then (0, 0)
    else
      var applied := Min(remaining, outstanding);
      var principalOutstanding := Max0(item.principal - paid);
      (applied, Min(applied, principalOutstanding))
  }

  // Cash of the payment still unspent when the loop reaches installment `i`.
  ghost function Unspent(schedule: seq<Installment>, cash: nat, more: nat, i: nat): int
    requires i <= |schedule|
  {
    more - cash - (Min(more, Before(schedule, i)) - Min(cash, Before(schedule, i)))
  }

  // What the loop body computes for installment `i` is the difference of the closed forms.
  lemma InstallmentStep(schedule: seq<Installment>, cash: nat, more: nat, i: nat)
    requires i < |schedule| && cash <= more
    requires Unspent(schedule, cash, more, i) > 0
    ensures
      var fill := Fill(schedule, cash, i);
      var applied := TopUp(schedule[i], fill, Unspent(schedule, cash, more, i)).0;
      && Fill(schedule, more, i) == fill + applied
      && Unspent(schedule, cash, more, i + 1) == Unspent(schedule, cash, more, i) - applied
      && PrincipalWithin(schedule, more, i + 1) - PrincipalWithin(schedule, cash, i + 1)
         == PrincipalWithin(schedule, more, i) - PrincipalWithin(schedule, cash, i)
            + TopUp(schedule[i], fill, Unspent(schedule, cash, more, i)).1
  {
  }

  ghost function Level(schedule: seq<Installment>, cash: nat, more: nat, i: nat, j: nat): nat
    requires j < |schedule|
  {
    Fill(schedule, if j < i then more else cash, j)
  }

  /** The fill state in mid-payment: installments before `i` are up to date, the rest are not yet. */
  ghost predicate Updated(schedule: seq<Installment>, cash: nat, more: nat, i: nat, paid: map<int, int>) {
    forall j {:trigger Level(schedule, cash, more, i, j)} :: 0 <= j < |schedule| ==>
      && schedule[j].number in paid
      && paid[schedule[j].number] == Level(schedule, cash, more, i, j)
  }

  lemma LoopStart(schedule: seq<Installment>, cash: nat, more: nat, paid: map<int, int>)
    requires FillState(schedule, cash, paid)
    ensures Updated(schedule, cash, more, 0, paid)
  {
    forall j | 0 <= j < |schedule|
      ensures schedule[j].number in paid && paid[schedule[j].number] == Level(schedule, cash, more, 0, j)
    {
      assert Fill(schedule, cash, j) >= 0;
    }
  }

  lemma UpdateOne(schedule: seq<Installment>, cash: nat, more: nat, i: nat, paid: map<int, int>, paid': map<int, int>)
    requires i < |schedule| && DistinctNumbers(schedule)
    requires Updated(schedule, cash, more, i, paid)
    requires paid' == paid[schedule[i].number := Fill(schedule, more, i)]
    ensures Updated(schedule, cash, more, i + 1, paid')
  {
    forall j | 0 <= j < |schedule|
      ensures schedule[j].number in paid'
      ensures paid'[schedule[j].number] == Level(schedule, cash, more, i + 1, j)
    {
      assert Level(schedule, cash, more, i, j) >= 0;
      if j != i {
        assert schedule[j].number != schedule[i].number;
      }
    }
  }

  /** The loop state at installment `i`: what is unspent, what was allocated, how far the fills are. */
  ghost predicate LoopState(schedule: seq<Installment>, cash: nat, more: nat, i: nat,
                            paid: map<int, int>, unspent: int, principal: int, interest: int) {
    && i <= |schedule| && cash <= more
    && unspent == Unspent(schedule, cash, more, i)
    && principal == PrincipalWithin(schedule, more, i) - PrincipalWithin(schedule, cash, i)
    && principal + interest == more - cash - unspent
    && Updated(schedule, cash, more, i, paid)
  }

  // When the loop stops the whole fill state is up to date ...
  lemma FillsAtLoopEnd(schedule: seq<Installment>, cash: nat, more: nat, i: nat, paid: map<int, int>)
    requires i <= |schedule| && cash <= more && Updated(schedule, cash, more, i, paid)
    requires i == |schedule| || Unspent(schedule, cash, more, i) == 0
    ensures FillState(schedule, more, paid)
  {
    forall j | 0 <= j < |schedule|
      ensures schedule[j].number in paid && paid[schedule[j].number] == Fill(schedule, more, j)
    {
      assert Level(schedule, cash, more, i, j) >= 0;
      if i <= j {
        NothingLeft(schedule, cash, more, i, j);
      }
    }
  }

  // ... and what is unspent is the overflow, so the allocation is the payment's share.
  lemma ShareAtLoopEnd(schedule: seq<Installment>, cash: nat, more: nat, i: nat)
    requires i <= |schedule| && cash <= more
    requires i == |schedule| || Unspent(schedule, cash, more, i) == 0
    ensures Share(schedule, cash, more - cash).principal
         == PrincipalWithin(schedule, more, i) - PrincipalWithin(schedule, cash, i) + Unspent(schedule, cash, more, i)
  {
    if i < |schedule| {
      NothingLeft(schedule, cash, more, i, |schedule|);
    }
  }

  lemma LoopEnd(schedule: seq<Installment>, cash: nat, more: nat, i: nat,
                paid: map<int, int>, unspent: int, principal: int, interest: int)
    requires LoopState(schedule, cash, more, i, paid, unspent, principal, interest)
    requires i == |schedule| || unspent == 0
    ensures FillState(schedule, more, paid)
    ensures Allocation(principal + unspent, interest) == Share(schedule, cash, more - cash)
  {
    FillsAtLoopEnd(schedule, cash, more, i, paid);
    ShareAtLoopEnd(schedule, cash, more, i);
  }

  lemma LoopStep(schedule: seq<Installment>, cash: nat, more: nat, i: nat,
                 paid: map<int, int>, unspent: int, principal: int, interest: int)
    requires DistinctNumbers(schedule) && i < |schedule| && unspent > 0
    requires LoopState(schedule, cash, more, i, paid, unspent, principal, interest)
    ensures schedule[i].number in paid
    ensures
      var n := schedule[i].number;
      var (applied, p) := TopUp(schedule[i], paid[n], unspent);
      LoopState(schedule, cash, more, i + 1, paid[n := paid[n] + applied],
                unspent - applied, principal + p, interest + (applied - p))
  {
    assert Level(schedule, cash, more, i, i) >= 0;
    InstallmentStep(schedule, cash, more, i);
    UpdateOne(schedule, cash, more, i, paid, paid[schedule[i].number := Fill(schedule, more, i)]);
  }

  /** One pass of the installment loop: allocate one payment and advance the fill state. */
  method AllocatePayment(schedule: seq<Installment>, paid: map<int, int>, amount: int, ghost cash: nat)
    returns (paid': map<int, int>, allocation: Allocation)
    requires DistinctNumbers(schedule) && FillState(schedule, cash, paid)
    ensures FillState(schedule, cash + Max0(amount), paid')
    ensures allocation == Share(schedule, cash, Max0(amount))
  {
    paid' := paid;
    var remaining := amount;
    var principalAlloc, interestAlloc := 0, 0;
    ghost var more := cash + Max0(amount);
    LoopStart(schedule, cash, more, paid);
    var i := 0;
    while i < |schedule| && remaining > 0
      invariant 0 <= i
      invariant LoopState(schedule, cash, more, i, paid', Max0(remaining), principalAlloc, interestAlloc)
    {
      LoopStep(schedule, cash, more, i, paid', remaining, principalAlloc, interestAlloc);
      var item := schedule[i];
      var (applied, principalApplied) := TopUp(item, paid'[item.number], remaining);
      principalAlloc := principalAlloc + principalApplied;
      interestAlloc := interestAlloc + (applied - principalApplied);
      paid' := paid'[item.number := paid'[item.number] + applied];
      remaining := remaining - applied;
      i := i + 1;
    }
    LoopEnd(schedule, cash, more, i, paid', Max0(remaining), principalAlloc, interestAlloc);
    // Cash beyond the schedule stays on the row as principal.
    principalAlloc := principalAlloc + Max0(remaining);
    allocation := Allocation(principalAlloc, interestAlloc);
  }

  /** Row `k` carries the cents that payment `k` added to the cash stream. */
  ghost predicate Allocates(schedule: seq<Installment>, payments: seq<int>, allocations: seq<Allocation>) {
    && |allocations| <= |payments|
    && forall k {:trigger allocations[k]} :: 0 <= k < |allocations| ==>
         allocations[k] == Share(schedule, Cash(payments, k), Max0(payments[k]))
  }

  lemma EmptyFill(schedule: seq<Installment>, i: nat)
    requires i < |schedule|
    ensures Fill(schedule, 0, i) == 0
  {
  }
}
