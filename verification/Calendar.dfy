/**
 Gregorian dates and the start of the required history window
 (app/core/application_history.py). Years are unbounded here.
 */
module Calendar {
  import opened Common

  datatype Date = Date(year: int, month: int, day: int)

  predicate Leap(year: int) {
    year % 4 == 0 && (year % 100 != 0 || year % 400 == 0)
  }

  function DaysIn(year: int, month: int): int {
    if month == 2 then if Leap(year) then 29 else 28
    else if month == 4 || month == 6 || month == 9 || month == 11 then 30
    else 31
  }

  predicate Valid(d: Date) {
    1 <= d.month <= 12 && 1 <= d.day <= DaysIn(d.year, d.month)
  }

  /** Date comparison. */
  predicate Earlier(a: Date, b: Date) {
    a.year < b.year || (a.year == b.year && (a.month < b.month || (a.month == b.month && a.day < b.day)))
  }

  predicate NotLater(a: Date, b: Date) {
    a == b || Earlier(a, b)
  }

  function LaterOf(a: Date, b: Date): Date {
    if Earlier(a, b) then b else a
  }

  function EarlierOf(a: Date, b: Date): Date {
    if Earlier(b, a) then b else a
  }

  // --------------------------------------------------------------------- ordinals

  function DaysBeforeYear(year: int): int {
    var y := year - 1;
    365 * y + y / 4 - y / 100 + y / 400
  }

  function DaysBeforeMonth(year: int, month: int): int
    requires 1 <= month <= 13
    decreases month
  {
    if month == 1 then 0 else DaysBeforeMonth(year, month - 1) + DaysIn(year, month - 1)
  }

  /** The proleptic day number the code's date arithmetic works on. */
  function Ordinal(d: Date): int
    requires Valid(d)
  {
    DaysBeforeYear(d.year) + DaysBeforeMonth(d.year, d.month) + d.day
  }

  lemma QuotientSteps(n: int)
    ensures n / 4 - (n - 1) / 4 == if n % 4 == 0 then 1 else 0
  {
  }

  lemma CenturySteps(n: int)
    ensures n / 100 - (n - 1) / 100 == if n % 100 == 0 then 1 else 0
  {
  }

  lemma CycleSteps(n: int)
    ensures n / 400 - (n - 1) / 400 == if n % 400 == 0 then 1 else 0
    ensures n % 400 == 0 ==> n % 100 == 0
    ensures n % 100 == 0 ==> n % 4 == 0
  {
  }

  lemma YearLength(year: int)
    ensures DaysBeforeYear(year + 1) - DaysBeforeYear(year) == if Leap(year) then 366 else 365
  {
    QuotientSteps(year);
    CenturySteps(year);
    CycleSteps(year);
  }

  lemma MonthsFillTheYear(year: int)
    ensures DaysBeforeMonth(year, 13) == if Leap(year) then 366 else 365
  {
  }

  lemma {:induction false} MonthsAdvance(year: int, m: int, n: int)
    requires 1 <= m <= n <= 13
    ensures DaysBeforeMonth(year, m) <= DaysBeforeMonth(year, n)
    ensures m < n ==> DaysBeforeMonth(year, m) + DaysIn(year, m) <= DaysBeforeMonth(year, n)
    decreases n
  {
    if m < n {
      MonthsAdvance(year, m, n - 1);
    }
  }

  lemma YearsAdvance(a: int, b: int)
    requires a <= b
    ensures DaysBeforeYear(a) <= DaysBeforeYear(b)
    decreases b - a
  {
  }

  lemma EarlierHasSmallerOrdinal(a: Date, b: Date)
    requires Valid(a) && Valid(b) && Earlier(a, b)
    ensures Ordinal(a) < Ordinal(b)
  {
    if a.year < b.year {
      YearLength(a.year);
      MonthsFillTheYear(a.year);
      MonthsAdvance(a.year, a.month, 13);
      YearsAdvance(a.year + 1, b.year);
      MonthsAdvance(b.year, 1, b.month);
    } else if a.month < b.month {
      MonthsAdvance(a.year, a.month, b.month);
    }
  }

  /** Comparing dates and comparing day numbers is the same thing. */
  lemma OrdinalOrdersDates(a: Date, b: Date)
    requires Valid(a) && Valid(b)
    ensures Earlier(a, b) <==> Ordinal(a) < Ordinal(b)
  {
    if Earlier(a, b) {
      EarlierHasSmallerOrdinal(a, b);
    } else if a != b {
      EarlierHasSmallerOrdinal(b, a);
    }
  }

  // ------------------------------------------------------------------ counting days

  /** The calendar itself: the next day of the month, the first of the next month, or New Year's Day. */
  function NextDay(d: Date): Date {
    if d.day < DaysIn(d.year, d.month) then Date(d.year, d.month, d.day + 1)
    else if d.month < 12 then Date(d.year, d.month + 1, 1)
    else Date(d.year + 1, 1, 1)
  }

  /** Consecutive days have consecutive numbers. */
  lemma OrdinalOfNextDay(d: Date)
    requires Valid(d)
    ensures Valid(NextDay(d)) && Ordinal(NextDay(d)) == Ordinal(d) + 1
  {
    if d.day == DaysIn(d.year, d.month) && d.month == 12 {
      YearLength(d.year);
      MonthsFillTheYear(d.year);
    }
  }

  /** The date `n` days on, counted one by one. */
  function DaysOn(d: Date, n: nat): Date {
    if n == 0 then d else NextDay(DaysOn(d, n - 1))
  }

  lemma {:induction false} OrdinalOfDaysOn(d: Date, n: nat)
    requires Valid(d)
    ensures Valid(DaysOn(d, n)) && Ordinal(DaysOn(d, n)) == Ordinal(d) + n
  {
    if n > 0 {
      OrdinalOfDaysOn(d, n - 1);
      OrdinalOfNextDay(DaysOn(d, n - 1));
    }
  }

  /** The difference of two day numbers is the number of days from one date to the other. */
  lemma OrdinalsCountDays(a: Date, b: Date, n: nat)
    requires Valid(a) && Valid(b)
    ensures Ordinal(b) - Ordinal(a) == n <==> DaysOn(a, n) == b
  {
    OrdinalOfDaysOn(a, n);
    OrdinalOrdersDates(DaysOn(a, n), b);
    OrdinalOrdersDates(b, DaysOn(a, n));
  }

  /** Months other than February alternate between 31 and 30 days, starting over in August. */
  lemma MonthLengths(year: int, month: int)
    requires 1 <= month <= 12
    ensures month != 2 ==> DaysIn(year, month) == 30 + (month + month / 8) % 2
    ensures month == 2 ==> DaysIn(year, month) == 28 + (DaysBeforeYear(year + 1) - DaysBeforeYear(year)) - 365
  {
    YearLength(year);
  }

  lemma FourHundredYearsOn(n: int)
    ensures (n + 400) / 4 == n / 4 + 100 && (n + 400) % 4 == n % 4
    ensures (n + 400) / 100 == n / 100 + 4 && (n + 400) % 100 == n % 100
    ensures (n + 400) / 400 == n / 400 + 1 && (n + 400) % 400 == n % 400
  {
  }

  /** The calendar repeats after 400 years of 146,097 days; day 1 is January 1 of year 1. */
  lemma GregorianCycle(year: int)
    ensures DaysBeforeYear(year + 400) == DaysBeforeYear(year) + 146_097
    ensures Leap(year + 400) == Leap(year)
    ensures Ordinal(Date(1, 1, 1)) == 1
  {
    FourHundredYearsOn(year - 1);
    FourHundredYearsOn(year);
    assert (year + 400) - 1 == (year - 1) + 400;
  }

  // ----------------------------------------------------------------- adding years

  // replace(year=...) fails for Feb 29 in a common year; the handler then takes day 28.
  function AddYears(d: Date, years: int): Date {
    var moved := Date(d.year + years, d.month, d.day);
    if Valid(moved) then moved else Date(d.year + years, d.month, 28)
  }

  lemma AddYearsIsValid(d: Date, years: int)
    requires Valid(d)
    ensures Valid(AddYears(d, years))
    ensures AddYears(d, years)
         == if d.month == 2 && d.day == 29 && !Leap(d.year + years) then Date(d.year + years, 2, 28)
            else Date(d.year + years, d.month, d.day)
  {
  }

  /** Later dates never move to earlier ones, and two dates meet only when Feb 28 and Feb 29 land in a common year. */
  lemma AddYearsIsMonotone(a: Date, b: Date, years: int)
    requires Valid(a) && Valid(b) && Earlier(a, b)
    ensures NotLater(AddYears(a, years), AddYears(b, years))
    ensures AddYears(a, years) == AddYears(b, years)
       <==> a.year == b.year && a.month == b.month == 2 && a.day == 28 && b.day == 29 && !Leap(b.year + years)
  {
  }

  // ------------------------------------------------------------------ window start

  function RequiredWindowStart(today: Date, birth: Option<Date>, yearsRequired: int, ageOfMajority: int): Date {
    var start := AddYears(today, -yearsRequired);
    if birth.None? then start
    else
      var majority := AddYears(birth.value, ageOfMajority);
      if Earlier(start, majority) then EarlierOf(majority, today) else start
  }

  /** With a non-negative number of years the window opens today or before. */
  lemma WindowStartIsNotInTheFuture(today: Date, birth: Option<Date>, yearsRequired: int, ageOfMajority: int)
    requires Valid(today) && (birth.Some? ==> Valid(birth.value))
    ensures NotLater(RequiredWindowStart(today, birth, yearsRequired, ageOfMajority), today)
       <==> yearsRequired >= 0
            || (birth.Some? && Earlier(AddYears(today, -yearsRequired), AddYears(birth.value, ageOfMajority)))
  {
  }

  /**
   The branches compute max(today - years, min(majority, today)), exactly when the plain
   start is not in the future or majority does not replace it.
   */
  lemma WindowStartFormula(today: Date, birth: Date, yearsRequired: int, ageOfMajority: int)
    requires Valid(today) && Valid(birth)
    ensures
      var start := AddYears(today, -yearsRequired);
      var majority := AddYears(birth, ageOfMajority);
      RequiredWindowStart(today, Some(birth), yearsRequired, ageOfMajority)
        == LaterOf(start, EarlierOf(majority, today))
      <==> yearsRequired >= 0 || NotLater(majority, start)
  {
  }

  /** Without a birth date, or for one already of age, the window is the plain number of years. */
  lemma PlainWindowStart(today: Date, birth: Option<Date>, yearsRequired: int, ageOfMajority: int)
    requires Valid(today) && (birth.Some? ==> Valid(birth.value))
    requires birth.Some? ==> NotLater(AddYears(birth.value, ageOfMajority), AddYears(today, -yearsRequired))
    ensures RequiredWindowStart(today, birth, yearsRequired, ageOfMajority) == AddYears(today, -yearsRequired)
  {
  }

  /** As days go by the window never reopens: its start only moves forward. */
  lemma WindowStartMovesForward(today: Date, later: Date, birth: Option<Date>, yearsRequired: int, ageOfMajority: int)
    requires Valid(today) && Valid(later) && NotLater(today, later)
    requires birth.Some? ==> Valid(birth.value)
    ensures NotLater(RequiredWindowStart(today, birth, yearsRequired, ageOfMajority),
                     RequiredWindowStart(later, birth, yearsRequired, ageOfMajority))
  {
    if Earlier(today, later) {
      AddYearsIsMonotone(today, later, -yearsRequired);
    }
  }

  lemma WindowStartIsValid(today: Date, birth: Option<Date>, yearsRequired: int, ageOfMajority: int)
    requires Valid(today) && (birth.Some? ==> Valid(birth.value))
    ensures Valid(RequiredWindowStart(today, birth, yearsRequired, ageOfMajority))
  {
  }
}
