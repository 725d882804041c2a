/**
 Validation of a submitted address or employment history (app/core/application_history.py):
 parse the entries into intervals, sort them, sweep them with a gap tolerance. Dates are
 the day numbers of module Calendar.
 */
module HistoryCoverage {
  import opened Common
  import Calendar

  datatype Entry = Entry(from: Option<int>, to: Option<int>, isCurrent: bool)

  datatype Interval = Interval(start: int, end: int)

  datatype HistoryError =
    | NoEntries
    | FromDateRequired(index: nat)
    | FromDateInFuture(index: nat)
    | EndsBeforeStart(index: nat)
    | NoCurrentEntry
    | DoesNotReachBack
    | LeavesGap(coveredTo: int)

  // ---------------------------------------------------------------- reading entries

  function EntryError(e: Entry, index: nat, today: int): Option<HistoryError> {
    if e.from.None? then Some(FromDateRequired(index))
    else if e.from.value > today then Some(FromDateInFuture(index))
    else if e.to.Some? && e.to.value < e.from.value then Some(EndsBeforeStart(index))
    else None
  }

  predicate WellFormed(e: Entry, today: int) {
    EntryError(e, 0, today).None?
  }

  /** A current or open-ended entry reaches today; an end in the future is cut at today. */
  function IntervalOf(e: Entry, today: int): Interval
    requires WellFormed(e, today)
  {
    Interval(e.from.value, if e.isCurrent || e.to.None? then today else Min(e.to.value, today))
  }

  function EntryErrors(entries: seq<Entry>, today: int): seq<HistoryError> {
    if entries == [] then []
    else
      var n := |entries| - 1;
      EntryErrors(entries[..n], today)
      + match EntryError(entries[n], n, today) case None => [] case Some(error) => [error]
  }

  function Intervals(entries: seq<Entry>, today: int): seq<Interval> {
    if entries == [] then []
    else
      var n := |entries| - 1;
      Intervals(entries[..n], today)
      + if WellFormed(entries[n], today) then [IntervalOf(entries[n], today)] else []
  }

  // ------------------------------------------------------------------------ sorting

  function InsertByStart(sorted: seq<Interval>, iv: Interval): seq<Interval> {
    if sorted == [] || sorted[|sorted| - 1].start <= iv.start then sorted + [iv]
    else InsertByStart(sorted[..|sorted| - 1], iv) + [sorted[|sorted| - 1]]
  }

  /** The stable sort by start date. */
  function SortByStart(intervals: seq<Interval>): seq<Interval> {
    if intervals == [] then []
    else InsertByStart(SortByStart(intervals[..|intervals| - 1]), intervals[|intervals| - 1])
  }

  ghost predicate Sorted(intervals: seq<Interval>) {
    forall i, j :: 0 <= i < j < |intervals| ==> intervals[i].start <= intervals[j].start
  }

  lemma {:induction false} InsertPermutes(sorted: seq<Interval>, iv: Interval)
    ensures multiset(InsertByStart(sorted, iv)) == multiset(sorted) + multiset{iv}
  {
    if sorted != [] && sorted[|sorted| - 1].start > iv.start {
      InsertPermutes(sorted[..|sorted| - 1], iv);
      assert sorted == sorted[..|sorted| - 1] + [sorted[|sorted| - 1]];
    }
  }

  lemma {:induction false} InsertKeepsSorted(sorted: seq<Interval>, iv: Interval)
    requires Sorted(sorted)
    ensures Sorted(InsertByStart(sorted, iv))
  {
    if sorted != [] && sorted[|sorted| - 1].start > iv.start {
      var init, last := sorted[..|sorted| - 1], sorted[|sorted| - 1];
      InsertKeepsSorted(init, iv);
      InsertPermutes(init, iv);
      var head := InsertByStart(init, iv);
      forall i | 0 <= i < |head| ensures head[i].start <= last.start {
        assert head[i] in multiset(init) + multiset{iv};
      }
    }
  }

  lemma {:induction false} SortPermutes(intervals: seq<Interval>)
    ensures multiset(SortByStart(intervals)) == multiset(intervals)
  {
    if intervals != [] {
      var init, last := intervals[..|intervals| - 1], intervals[|intervals| - 1];
      SortPermutes(init);
      InsertPermutes(SortByStart(init), last);
      assert intervals == init + [last];
    }
  }

  lemma {:induction false} SortSorts(intervals: seq<Interval>)
    ensures Sorted(SortByStart(intervals)) && multiset(SortByStart(intervals)) == multiset(intervals)
  {
    SortPermutes(intervals);
    if intervals != [] {
      var init, last := intervals[..|intervals| - 1], intervals[|intervals| - 1];
      SortSorts(init);
      InsertKeepsSorted(SortByStart(init), last);
    }
  }

  // ------------------------------------------------------------------------ sweeping

  function SweepFrom(intervals: seq<Interval>, coveredTo: int, tolerance: int): int {
    if intervals == [] || intervals[0].start > coveredTo + tolerance then coveredTo
    else SweepFrom(intervals[1..], Max(coveredTo, intervals[0].end), tolerance)
  }

  function CoverageErrors(sorted: seq<Interval>, windowStart: int, today: int, tolerance: int): seq<HistoryError> {
    if sorted == [] || sorted[0].start > windowStart + tolerance then [DoesNotReachBack]
    else
      var coveredTo := SweepFrom(sorted[1..], sorted[0].end, tolerance);
      if coveredTo + tolerance < today then [LeavesGap(coveredTo)] else []
  }

  /** The sweep loop over the sorted intervals, and the verdict drawn from it. */
  method Sweep(sorted: seq<Interval>, windowStart: int, today: int, tolerance: int) returns (errors: seq<HistoryError>)
    ensures errors == CoverageErrors(sorted, windowStart, today, tolerance)
  {
    errors := [];
    var coveredTo: Option<int> := None;
    var i := 0;
    while i < |sorted|
      invariant 0 <= i <= |sorted|
      invariant coveredTo.None? <==> i == 0
      invariant i > 0 ==> sorted[0].start <= windowStart + tolerance
      invariant i > 0 ==>
        SweepFrom(sorted[i..], coveredTo.value, tolerance) == SweepFrom(sorted[1..], sorted[0].end, tolerance)
    {
      var Interval(start, end) := sorted[i];
      assert sorted[i..][1..] == sorted[i + 1..];
      if coveredTo.None? {
        if start > windowStart + tolerance {
          break;
        }
        coveredTo := Some(end);
      } else {
        if start > coveredTo.value + tolerance {
          break;
        }
        if end > coveredTo.value {
          coveredTo := Some(end);
        }
      }
      i := i + 1;
    }
    if coveredTo.None? || sorted[0].start > windowStart + tolerance {
      errors := errors + [DoesNotReachBack];
    } else if coveredTo.value + tolerance < today {
      errors := errors + [LeavesGap(coveredTo.value)];
    }
  }

  ghost predicate HasCurrent(entries: seq<Entry>) {
    exists e :: e in entries && e.isCurrent
  }

  /** Errors that are reported before coverage is looked at. */
  ghost function EarlyErrors(entries: seq<Entry>, today: int): seq<HistoryError> {
    if entries == [] then [NoEntries]
    else EntryErrors(entries, today) + if HasCurrent(entries) then [] else [NoCurrentEntry]
  }

  /** The verdict of the sweep on intervals in submission order. */
  ghost predicate SweepAccepts(intervals: seq<Interval>, windowStart: int, today: int, tolerance: int) {
    CoverageErrors(SortByStart(intervals), windowStart, today, tolerance) == []
  }

  /** No error is reported. */
  ghost predicate Accepted(entries: seq<Entry>, windowStart: int, today: int, tolerance: int) {
    && EarlyErrors(entries, today) == []
    && SweepAccepts(Intervals(entries, today), windowStart, today, tolerance)
  }

  method ValidateHistoryEntries(entries: seq<Entry>, windowStart: int, today: int, tolerance: int)
    returns (errors: seq<HistoryError>)
    ensures
      var early := EarlyErrors(entries, today);
      var sorted := SortByStart(Intervals(entries, today));
      && (early != [] ==> errors == early)
      && (early == [] ==> errors == CoverageErrors(sorted, windowStart, today, tolerance))
    ensures errors == [] <==> Accepted(entries, windowStart, today, tolerance)
  {
    errors := [];
    if entries == [] {
      errors := errors + [NoEntries];
      return;
    }
    var intervals: seq<Interval> := [];
    var currentCount := 0;
    for i := 0 to |entries|
      invariant errors == EntryErrors(entries[..i], today)
      invariant intervals == Intervals(entries[..i], today)
      invariant currentCount >= 0 && (currentCount > 0 <==> HasCurrent(entries[..i]))
    {
      var e := entries[i];
      assert entries[..i + 1][..i] == entries[..i];
      assert entries[..i + 1] == entries[..i] + [e];
      if e.isCurrent {
        currentCount := currentCount + 1;
      }
      if e.from.None? {
        errors := errors + [FromDateRequired(i)];
        continue;
      }
      if e.from.value > today {
        errors := errors + [FromDateInFuture(i)];
        continue;
      }
      if e.to.Some? && e.to.value < e.from.value {
        errors := errors + [EndsBeforeStart(i)];
        continue;
      }
      var effectiveEnd := if e.isCurrent || e.to.None? then today else Min(e.to.value, today);
      intervals := intervals + [Interval(e.from.value, effectiveEnd)];
    }
    assert entries[..|entries|] == entries;
    if currentCount == 0 {
      errors := errors + [NoCurrentEntry];
    }
    if errors != [] {
      return;
    }
    var sorted := SortByStart(intervals);
    errors := Sweep(sorted, windowStart, today, tolerance);
  }

  /** An entry as submitted, with calendar dates. */
  datatype DatedEntry = DatedEntry(from: Option<Calendar.Date>, to: Option<Calendar.Date>, isCurrent: bool)

  predicate ValidDates(e: DatedEntry) {
    (e.from.Some? ==> Calendar.Valid(e.from.value)) && (e.to.Some? ==> Calendar.Valid(e.to.value))
  }

  function DayNumber(date: Option<Calendar.Date>): Option<int>
    requires date.Some? ==> Calendar.Valid(date.value)
  {
    match date
    case None => None
    case Some(d) => Some(Calendar.Ordinal(d))
  }

  function NumberedEntry(e: DatedEntry): Entry
    requires ValidDates(e)
  {
    Entry(DayNumber(e.from), DayNumber(e.to), e.isCurrent)
  }

  function Numbered(entries: seq<DatedEntry>): seq<Entry>
    requires forall i :: 0 <= i < |entries| ==> ValidDates(entries[i])
  {
    seq(|entries|, i requires 0 <= i < |entries| && ValidDates(entries[i]) => NumberedEntry(entries[i]))
  }

  /** The call as made: the window start comes from the calendar, then dates become day numbers. */
  method ValidateAgainstWindow(entries: seq<DatedEntry>, today: Calendar.Date, birth: Option<Calendar.Date>,
                               yearsRequired: int, ageOfMajority: int, tolerance: int)
    returns (errors: seq<HistoryError>)
    requires forall i :: 0 <= i < |entries| ==> ValidDates(entries[i])
    requires Calendar.Valid(today) && (birth.Some? ==> Calendar.Valid(birth.value))
    ensures
      var start := Calendar.RequiredWindowStart(today, birth, yearsRequired, ageOfMajority);
      && Calendar.Valid(start)
      && (errors == [] <==> Accepted(Numbered(entries), Calendar.Ordinal(start), Calendar.Ordinal(today), tolerance))
  {
    var start := Calendar.RequiredWindowStart(today, birth, yearsRequired, ageOfMajority);
    Calendar.WindowStartIsValid(today, birth, yearsRequired, ageOfMajority);
    errors := ValidateHistoryEntries(Numbered(entries), Calendar.Ordinal(start), Calendar.Ordinal(today), tolerance);
  }
}
