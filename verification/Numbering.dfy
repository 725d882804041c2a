/**
 Application numbers and the loan numbers inherited from them
 (alembic/versions/081_application_number_loan_number.py). Numbers are integers here,
 not their decimal text.
 */
module Numbering {
  import opened Common

  const SEQUENCE_START := 100_000

  type AppId = int
  type LoanId = int

  /** Creation time of every application. */
  type Applications = map<AppId, int>

  /** ORDER BY created_at, id */
  predicate Before(apps: Applications, a: AppId, b: AppId)
    requires a in apps && b in apps
  {
    apps[a] < apps[b] || (apps[a] == apps[b] && a < b)
  }

  function UpTo(apps: Applications, a: AppId): set<AppId>
    requires a in apps
  {
    set b | b in apps && (b == a || Before(apps, b, a))
  }

  /** row_number() over that order. */
  function RowNumber(apps: Applications, a: AppId): nat
    requires a in apps
  {
    |UpTo(apps, a)|
  }

  function Backfilled(apps: Applications): map<AppId, int> {
    map a | a in apps :: SEQUENCE_START + RowNumber(apps, a)
  }

  // ----------------------------------------------------------------- row numbers

  lemma SubsetSize<T>(a: set<T>, b: set<T>)
    requires a <= b
    ensures |a| <= |b| && (a != b ==> |a| < |b|)
  {
    assert b == a + (b - a);
    assert |b| == |a| + |b - a|;
    if |b - a| == 0 {
      assert b - a == {};
    }
  }

  lemma RowNumbersFollowTheOrder(apps: Applications, a: AppId, b: AppId)
    requires a in apps && b in apps && Before(apps, a, b)
    ensures RowNumber(apps, a) < RowNumber(apps, b)
  {
    assert b in UpTo(apps, b) && b !in UpTo(apps, a);
    SubsetSize(UpTo(apps, a), UpTo(apps, b));
  }

  lemma RowNumberInRange(apps: Applications, a: AppId)
    requires a in apps
    ensures 1 <= RowNumber(apps, a) <= |apps|
  {
    assert UpTo(apps, a) <= apps.Keys;
    SubsetSize(UpTo(apps, a), apps.Keys);
    SubsetSize({a}, UpTo(apps, a));
  }

  // The newest of a non-empty set of applications.
  lemma {:induction false} Newest(apps: Applications, some: set<AppId>) returns (a: AppId)
    requires some != {} && some <= apps.Keys
    ensures a in some && forall b :: b in some && b != a ==> Before(apps, b, a)
    decreases |some|
  {
    EmptyOrInhabited(some);
    var first :| first in some;
    a := first;
    var rest := some - {first};
    if rest != {} {
      assert |rest| < |some|;
      var b := Newest(apps, rest);
      a := if Before(apps, first, b) then b else first;
      forall c | c in some && c != a ensures Before(apps, c, a) {
        assert c == first || c in rest;
      }
    } else {
      forall c | c in some ensures c == first {
        assert c == first || c in rest;
      }
    }
  }

  // Going down from the newest application, every smaller row number is taken.
  lemma {:induction false} RowNumberTaken(apps: Applications, some: set<AppId>, k: nat) returns (a: AppId)
    requires some <= apps.Keys && 1 <= k <= |some|
    requires forall x, y :: x in some && y in apps && Before(apps, y, x) ==> y in some
    ensures a in some && RowNumber(apps, a) == k
    decreases |some|
  {
    a := Newest(apps, some);
    assert UpTo(apps, a) == some;
    if k < |some| {
      var rest := some - {a};
      assert |rest| == |some| - 1;
      a := RowNumberTaken(apps, rest, k);
    }
  }

  /** The numbers issued are exactly SEQUENCE_START + 1, +2, ... up to the count, without gap. */
  lemma BackfillHasNoGaps(apps: Applications)
    ensures forall n :: n in Backfilled(apps).Values <==> 100_000 < n <= 100_000 + |apps|
  {
    forall n ensures n in Backfilled(apps).Values <==> SEQUENCE_START < n <= SEQUENCE_START + |apps| {
      if n in Backfilled(apps).Values {
        var a :| a in apps && Backfilled(apps)[a] == n;
        RowNumberInRange(apps, a);
      }
      if SEQUENCE_START < n <= SEQUENCE_START + |apps| {
        assert |apps| == |apps.Keys|;
        var a := RowNumberTaken(apps, apps.Keys, n - SEQUENCE_START);
        assert a in Backfilled(apps) && Backfilled(apps)[a] == n;
      }
    }
  }

  /** ... each to one application, oldest first with the id breaking ties. */
  lemma BackfillFollowsTheOrder(apps: Applications, a: AppId, b: AppId)
    requires a in apps && b in apps
    ensures Before(apps, a, b) <==> Backfilled(apps)[a] < Backfilled(apps)[b]
    ensures Backfilled(apps)[a] < Backfilled(apps)[b] <==> apps[a] < apps[b] || (apps[a] == apps[b] && a < b)
    ensures a == b <==> Backfilled(apps)[a] == Backfilled(apps)[b]
  {
    if a != b {
      if Before(apps, a, b) {
        RowNumbersFollowTheOrder(apps, a, b);
      } else {
        RowNumbersFollowTheOrder(apps, b, a);
      }
    }
  }

  // ------------------------------------------------------------------- the tables

  ghost predicate Injective<K>(numbers: map<K, int>) {
    forall a, b :: a in numbers && b in numbers && a != b ==> numbers[a] != numbers[b]
  }

  ghost predicate OneLoanPerApplication(loans: map<LoanId, Option<AppId>>) {
    forall l, m :: l in loans && m in loans && l != m && loans[l].Some? ==> loans[l] != loans[m]
  }

  class Tables {
    var apps: Applications
    var numbers: map<AppId, int>
    var nextValue: int

    /** Every application is numbered, no number is used twice, and the sequence is past them all. */
    ghost predicate Valid()
      reads this
    {
      && numbers.Keys == apps.Keys
      && Injective(numbers)
      && nextValue > SEQUENCE_START
      && forall a :: a in numbers ==> SEQUENCE_START < numbers[a] < nextValue
    }

    constructor (apps: Applications)
      ensures this.apps == apps
    {
      this.apps := apps;
    }

    /** Backfill and setval: the next number is one past the last issued. */
    method Upgrade()
      modifies this
      ensures Valid() && apps == old(apps)
      ensures numbers == Backfilled(apps) && nextValue == SEQUENCE_START + |apps| + 1
    {
      numbers := Backfilled(apps);
      BackfillHasNoGaps(apps);
      forall a, b | a in numbers && b in numbers && a != b ensures numbers[a] != numbers[b] {
        BackfillFollowsTheOrder(apps, a, b);
      }
      var highest := MaxNumber(numbers);
      nextValue := Max(SEQUENCE_START, highest) + 1;
      assert |apps| > 0 ==> SEQUENCE_START + |apps| in numbers.Values;
      assert |apps| == 0 ==> apps.Keys == {};
      forall a | a in numbers ensures SEQUENCE_START < numbers[a] <= SEQUENCE_START + |apps| {
        assert numbers[a] in numbers.Values;
      }
    }

    /** An insert that leaves the number to the column default. */
    method Insert(id: AppId, createdAt: int) returns (number: int)
      requires Valid() && id !in apps
      modifies this
      ensures Valid() && apps == old(apps)[id := createdAt]
      ensures numbers == old(numbers)[id := number]
      ensures number == old(nextValue) && nextValue == number + 1
      ensures forall a :: a in old(numbers) ==> old(numbers)[a] < number
    {
      number := nextValue;
      nextValue := nextValue + 1;
      apps := apps[id := createdAt];
      numbers := numbers[id := number];
      assert numbers.Keys == apps.Keys;
    }

    /** An insert that is rolled back: the number it drew is gone, the table is as before. */
    method RolledBackInsert()
      requires Valid()
      modifies this`nextValue
      ensures Valid() && nextValue == old(nextValue) + 1
    {
      nextValue := nextValue + 1;
    }

    /** Any series of default inserts, rolled-back ones between them, gets strictly increasing fresh numbers. */
    method InsertAll(ids: seq<AppId>, createdAt: seq<int>, lostBefore: seq<nat>) returns (issued: seq<int>)
      requires Valid() && |createdAt| == |ids| == |lostBefore|
      requires forall i :: 0 <= i < |ids| ==> ids[i] !in apps
      requires forall i, j :: 0 <= i < j < |ids| ==> ids[i] != ids[j]
      modifies this
      ensures Valid() && |issued| == |ids|
      ensures forall i :: 0 <= i < |ids| ==> ids[i] in numbers && numbers[ids[i]] == issued[i]
      ensures forall a :: a in old(numbers) ==> a in numbers && numbers[a] == old(numbers)[a]
      ensures forall i, a :: 0 <= i < |issued| && a in old(numbers) ==> old(numbers)[a] < issued[i]
      ensures forall i, j :: 0 <= i < j < |issued| ==> issued[i] < issued[j]
    {
      issued := [];
      ghost var start := numbers;
      for k := 0 to |ids|
        invariant Valid() && |issued| == k
        invariant apps.Keys == start.Keys + (set i | 0 <= i < k :: ids[i])
        invariant forall i :: 0 <= i < k ==> ids[i] in numbers && numbers[ids[i]] == issued[i]
        invariant forall a :: a in start ==> a in numbers && numbers[a] == start[a]
        invariant forall i, a :: 0 <= i < k && a in start ==> start[a] < issued[i]
        invariant forall i, j :: 0 <= i < j < k ==> issued[i] < issued[j]
        invariant forall i :: 0 <= i < k ==> issued[i] < nextValue
      {
        ghost var numbered, known := numbers, apps;
        for lost := 0 to lostBefore[k]
          invariant Valid() && numbers == numbered && apps == known
          invariant forall i :: 0 <= i < k ==> issued[i] < nextValue
        {
          RolledBackInsert();
        }
        var number := Insert(ids[k], createdAt[k]);
        issued := issued + [number];
      }
    }

    /** UPDATE ... FROM: a loan takes the number of its application, a migrated loan stays without. */
    method InheritNumbers(loans: map<LoanId, Option<AppId>>) returns (loanNumbers: map<LoanId, int>)
      requires Valid() && OneLoanPerApplication(loans)
      ensures Injective(loanNumbers)
      ensures forall l :: l in loanNumbers <==> l in loans && loans[l].Some? && loans[l].value in apps
      ensures forall l :: l in loanNumbers ==> loanNumbers[l] == numbers[loans[l].value]
    {
      loanNumbers := map l | l in loans && loans[l].Some? && loans[l].value in numbers :: numbers[loans[l].value];
    }
  }

  method MaxNumber(numbers: map<AppId, int>) returns (highest: int)
    ensures numbers == map[] ==> highest == 0
    ensures numbers != map[] ==> exists a :: a in numbers && numbers[a] == highest
    ensures forall a :: a in numbers ==> numbers[a] <= highest
  {
    highest := 0;
    var left := numbers.Keys;
    var first := true;
    while left != {}
      invariant left <= numbers.Keys
      invariant first ==> left == numbers.Keys && highest == 0
      invariant !first ==> exists a :: a in numbers && numbers[a] == highest
      invariant !first ==> forall a :: a in numbers.Keys - left ==> numbers[a] <= highest
      decreases left
    {
      EmptyOrInhabited(left);
      var a :| a in left;
      if first || numbers[a] > highest {
        highest := numbers[a];
      }
      first := false;
      left := left - {a};
    }
  }
}
