/**
 What the waterfall promises: each cent has one destination fixed by its place in
 the cash stream, so neither the number nor the sizes of the payments matter.
 */
module WaterfallTheorems {
  import opened Common
  import opened Waterfall

  // ----------------------------------------------------- the destination of a cent

  /** The cent numbered `cent` (from zero) is spent on installment `i`. */
  ghost predicate GoesTo(schedule: seq<Installment>, cent: nat, i: nat)
    requires i < |schedule|
  {
    Before(schedule, i) <= cent < Before(schedule, i + 1)
  }

  /** Oldest installment first, principal before interest within it, overflow to principal. */
  ghost predicate IsPrincipalCent(schedule: seq<Installment>, cent: nat) {
    || cent >= Before(schedule, |schedule|)
    || PaysPrincipalWithin(schedule, cent, |schedule|)
  }

  ghost predicate PaysPrincipalWithin(schedule: seq<Installment>, cent: nat, n: nat)
    requires n <= |schedule|
  {
    exists i: nat :: i < n && GoesTo(schedule, cent, i)
                     && cent - Before(schedule, i) < Max0(schedule[i].principal)
  }

  lemma AtMostOneInstallment(schedule: seq<Installment>, cent: nat, i: nat, j: nat)
    requires i < |schedule| && j < |schedule|
    requires GoesTo(schedule, cent, i) && GoesTo(schedule, cent, j)
    ensures i == j
  {
    if i < j {
      BeforeIsMonotone(schedule, i + 1, j);
    } else if j < i {
      BeforeIsMonotone(schedule, j + 1, i);
    }
  }

  lemma {:induction false} CentWithin(schedule: seq<Installment>, cent: nat, n: nat)
    requires n <= |schedule|
    ensures PrincipalWithin(schedule, cent + 1, n) - PrincipalWithin(schedule, cent, n)
         == if PaysPrincipalWithin(schedule, cent, n) then 1 else 0
  {
    if n > 0 {
      CentWithin(schedule, cent, n - 1);
      if GoesTo(schedule, cent, n - 1) {
        forall i: nat | i < n && GoesTo(schedule, cent, i) ensures i == n - 1 {
          AtMostOneInstallment(schedule, cent, i, n - 1);
        }
      }
    }
  }

  /** The closed form counts principal cents: the `cent`-th one adds exactly its own destination. */
  lemma EachCentHasItsDestination(schedule: seq<Installment>, cent: nat)
    ensures CumulativePrincipal(schedule, cent + 1) - CumulativePrincipal(schedule, cent)
         == if IsPrincipalCent(schedule, cent) then 1 else 0
  {
    CentWithin(schedule, cent, |schedule|);
    if PaysPrincipalWithin(schedule, cent, |schedule|) {
      var i: nat :| i < |schedule| && GoesTo(schedule, cent, i);
      BeforeIsMonotone(schedule, i + 1, |schedule|);
    }
  }

  /** A row's two parts are non-negative and add up to its amount. */
  lemma {:induction false} RowSplitsItsAmount(schedule: seq<Installment>, from: nat, amount: nat)
    ensures 0 <= Share(schedule, from, amount).principal <= amount
    ensures 0 <= Share(schedule, from, amount).interest <= amount
    ensures Share(schedule, from, amount).principal + Share(schedule, from, amount).interest == amount
  {
    if amount > 0 {
      RowSplitsItsAmount(schedule, from, amount - 1);
      EachCentHasItsDestination(schedule, from + amount - 1);
    }
  }

  lemma {:induction false} FillsWithin(schedule: seq<Installment>, cash: nat, n: nat)
    requires n <= |schedule|
    ensures Sum(seq(n, i requires 0 <= i < |schedule| => Fill(schedule, cash, i)))
         == Min(cash, Before(schedule, n))
  {
    if n > 0 {
      FillsWithin(schedule, cash, n - 1);
      var fills := seq(n, i requires 0 <= i < |schedule| => Fill(schedule, cash, i));
      assert fills[..n - 1] == seq(n - 1, i requires 0 <= i < |schedule| => Fill(schedule, cash, i));
    }
  }

  /** Conservation: the installments hold all the cash, up to the scheduled total. */
  lemma FillsConserveCash(schedule: seq<Installment>, cash: nat)
    ensures Sum(seq(|schedule|, i requires 0 <= i < |schedule| => Fill(schedule, cash, i)))
         == Min(cash, Before(schedule, |schedule|))
  {
    FillsWithin(schedule, cash, |schedule|);
  }

  // ------------------------------------------------------------- path independence

  function Principals(allocations: seq<Allocation>): int {
    if allocations == [] then 0
    else Principals(allocations[..|allocations| - 1]) + allocations[|allocations| - 1].principal
  }

  function Interests(allocations: seq<Allocation>): int {
    if allocations == [] then 0
    else Interests(allocations[..|allocations| - 1]) + allocations[|allocations| - 1].interest
  }

  lemma NoCashNoPrincipal(schedule: seq<Installment>, n: nat)
    requires n <= |schedule|
    ensures PrincipalWithin(schedule, 0, n) == 0
  {
  }

  /** The rows of a replay add up to the closed form at the total cash received. */
  lemma {:induction false} RowsTelescope(schedule: seq<Installment>, payments: seq<int>, allocations: seq<Allocation>)
    requires Allocates(schedule, payments, allocations)
    ensures Principals(allocations) == CumulativePrincipal(schedule, Cash(payments, |allocations|))
    ensures Principals(allocations) + Interests(allocations) == Cash(payments, |allocations|)
  {
    if allocations == [] {
      NoCashNoPrincipal(schedule, |schedule|);
    } else {
      var k := |allocations| - 1;
      assert allocations[k] == Share(schedule, Cash(payments, k), Max0(payments[k]));
      RowsTelescope(schedule, payments, allocations[..k]);
    }
  }

  /**
   Two payment histories that bring in the same cash, in whatever pieces, leave the
   same amount on every installment and repay the same principal and interest.
   */
  lemma PathIndependence(schedule: seq<Installment>,
                         p: seq<int>, rowsP: seq<Allocation>, paidP: map<int, int>,
                         q: seq<int>, rowsQ: seq<Allocation>, paidQ: map<int, int>)
    requires |rowsP| == |p| && Allocates(schedule, p, rowsP) && FillState(schedule, Cash(p, |p|), paidP)
    requires |rowsQ| == |q| && Allocates(schedule, q, rowsQ) && FillState(schedule, Cash(q, |q|), paidQ)
    requires Cash(p, |p|) == Cash(q, |q|)
    ensures Principals(rowsP) == Principals(rowsQ)
    ensures Interests(rowsP) == Interests(rowsQ)
    ensures forall i :: 0 <= i < |schedule| ==>
      && schedule[i].number in paidP && schedule[i].number in paidQ
      && paidP[schedule[i].number] == paidQ[schedule[i].number]
  {
    RowsTelescope(schedule, p, rowsP);
    RowsTelescope(schedule, q, rowsQ);
    forall i | 0 <= i < |schedule|
      ensures schedule[i].number in paidP && schedule[i].number in paidQ
      ensures paidP[schedule[i].number] == paidQ[schedule[i].number]
    {
      assert Fill(schedule, Cash(p, |p|), i) >= 0;
    }
  }

  function Merged(payments: seq<int>, k: nat): seq<int>
    requires k + 1 < |payments|
  {
    payments[..k] + [Max0(payments[k]) + Max0(payments[k + 1])] + payments[k + 2..]
  }

  lemma {:induction false} CashOfMerged(payments: seq<int>, k: nat, j: nat)
    requires k + 1 < |payments| && j < |payments|
    ensures Cash(Merged(payments, k), j) == if j <= k then Cash(payments, j) else Cash(payments, j + 1)
  {
    if j > 0 {
      CashOfMerged(payments, k, j - 1);
      assert j - 1 > k ==> Merged(payments, k)[j - 1] == payments[j];
    }
  }

  function Together(a: Allocation, b: Allocation): Allocation {
    Allocation(a.principal + b.principal, a.interest + b.interest)
  }

  lemma SharesAddUp(schedule: seq<Installment>, from: nat, a: nat, b: nat)
    ensures Share(schedule, from, a + b) == Together(Share(schedule, from, a), Share(schedule, from + a, b))
  {
  }

  ghost predicate Rows(schedule: seq<Installment>, payments: seq<int>, rows: seq<Allocation>) {
    |rows| == |payments| && Allocates(schedule, payments, rows)
  }

  lemma RowAt(schedule: seq<Installment>, payments: seq<int>, rows: seq<Allocation>, k: nat, cash: nat, amount: nat)
    requires Rows(schedule, payments, rows) && k < |payments|
    requires cash == Cash(payments, k) && amount == Max0(payments[k])
    ensures rows[k] == Share(schedule, cash, amount)
  {
  }

  lemma PairInCashStream(payments: seq<int>, k: nat)
    requires k + 1 < |payments|
    ensures Cash(payments, k + 1) == Cash(payments, k) + Max0(payments[k])
    ensures Cash(Merged(payments, k), k) == Cash(payments, k)
    ensures Max0(Merged(payments, k)[k]) == Max0(payments[k]) + Max0(payments[k + 1])
  {
    CashOfMerged(payments, k, k);
  }

  // The merged payment gets both shares.
  lemma MergedPair(schedule: seq<Installment>, payments: seq<int>, k: nat,
                   rows: seq<Allocation>, merged: seq<Allocation>)
    requires k + 1 < |payments|
    requires Rows(schedule, payments, rows) && Rows(schedule, Merged(payments, k), merged)
    ensures merged[k] == Together(rows[k], rows[k + 1])
  {
    var cash, a, b := Cash(payments, k), Max0(payments[k]), Max0(payments[k + 1]);
    PairInCashStream(payments, k);
    assert rows[k] == Share(schedule, cash, a) by {
      RowAt(schedule, payments, rows, k, cash, a);
    }
    assert rows[k + 1] == Share(schedule, cash + a, b) by {
      RowAt(schedule, payments, rows, k + 1, cash + a, b);
    }
    assert merged[k] == Share(schedule, cash, a + b) by {
      RowAt(schedule, Merged(payments, k), merged, k, cash, a + b);
    }
    SharesAddUp(schedule, cash, a, b);
  }

  // Every other payment keeps its place in the cash stream.
  lemma OtherRow(schedule: seq<Installment>, payments: seq<int>, k: nat, rows: seq<Allocation>, merged: seq<Allocation>,
                 j: nat)
    requires k + 1 < |payments| && j < |payments| - 1 && j != k
    requires Rows(schedule, payments, rows) && Rows(schedule, Merged(payments, k), merged)
    ensures merged[j] == if j < k then rows[j] else rows[j + 1]
  {
    var i := if j < k then j else j + 1;
    CashOfMerged(payments, k, j);
    RowAt(schedule, payments, rows, i, Cash(payments, i), Max0(payments[i]));
    RowAt(schedule, Merged(payments, k), merged, j, Cash(payments, i), Max0(payments[i]));
  }

  /** Merging two consecutive payments adds up their two rows and leaves every other row alone. */
  lemma MergingPayments(schedule: seq<Installment>, payments: seq<int>, k: nat,
                        rows: seq<Allocation>, merged: seq<Allocation>)
    requires k + 1 < |payments|
    requires Rows(schedule, payments, rows) && Rows(schedule, Merged(payments, k), merged)
    ensures merged == rows[..k] + [Together(rows[k], rows[k + 1])] + rows[k + 2..]
  {
    var expected := rows[..k] + [Together(rows[k], rows[k + 1])] + rows[k + 2..];
    forall j | 0 <= j < |merged| ensures merged[j] == expected[j] {
      if j == k {
        MergedPair(schedule, payments, k, rows, merged);
      } else {
        OtherRow(schedule, payments, k, rows, merged, j);
      }
    }
  }
}
