/**
 What the history sweep decides, in terms of days: soundness, an exact
 characterisation, and where the code and its documentation part ways.
 */
module CoverageTheorems {
  import opened Common
  import opened HistoryCoverage
  import Calendar

  /** Some interval leads past day `day` and starts before the tolerance after it runs out. */
  ghost predicate Bridged(intervals: seq<Interval>, day: int, tolerance: int) {
    exists iv :: iv in intervals && iv.start <= day + tolerance && iv.end > day
  }

  ghost predicate StartedBy(intervals: seq<Interval>, day: int) {
    exists iv :: iv in intervals && iv.start <= day
  }

  /** The meaning of acceptance: the history reaches back, and once started it is bridged up to today. */
  ghost predicate Continuous(intervals: seq<Interval>, windowStart: int, today: int, tolerance: int) {
    && StartedBy(intervals, windowStart + tolerance)
    && forall day :: StartedBy(intervals, day) && day + tolerance < today ==> Bridged(intervals, day, tolerance)
  }

  ghost predicate Proper(intervals: seq<Interval>) {
    forall iv :: iv in intervals ==> iv.start <= iv.end
  }

  // ---------------------------------------------------------------- the sweep itself

  // Where the sweep stops, everything within the tolerance has already ended.
  lemma {:induction false} SweepStops(intervals: seq<Interval>, coveredTo: int, tolerance: int)
    requires Sorted(intervals)
    ensures
      var c := SweepFrom(intervals, coveredTo, tolerance);
      && coveredTo <= c
      && forall iv :: iv in intervals && iv.start <= c + tolerance ==> iv.end <= c
    decreases intervals
  {
    if intervals == [] {
    } else if intervals[0].start > coveredTo + tolerance {
      forall iv | iv in intervals ensures iv.start > coveredTo + tolerance {
        var i :| 0 <= i < |intervals| && intervals[i] == iv;
      }
    } else {
      SweepStops(intervals[1..], Max(coveredTo, intervals[0].end), tolerance);
      assert intervals == [intervals[0]] + intervals[1..];
    }
  }

  // A day nothing bridges cannot be passed.
  lemma {:induction false} SweepCannotPass(intervals: seq<Interval>, coveredTo: int, tolerance: int, day: int)
    requires coveredTo <= day && !Bridged(intervals, day, tolerance)
    ensures SweepFrom(intervals, coveredTo, tolerance) <= day
    decreases intervals
  {
    if intervals != [] && intervals[0].start <= coveredTo + tolerance {
      assert intervals[0] in intervals;
      forall iv | iv in intervals[1..] ensures !(iv.start <= day + tolerance && iv.end > day) {
        assert iv in intervals;
      }
      SweepCannotPass(intervals[1..], Max(coveredTo, intervals[0].end), tolerance, day);
    }
  }

  lemma FirstStartsEarliest(sorted: seq<Interval>)
    requires sorted != [] && Sorted(sorted)
    ensures sorted[0] in sorted && forall iv :: iv in sorted ==> sorted[0].start <= iv.start
  {
  }

  lemma ContinuousIsAccepted(sorted: seq<Interval>, windowStart: int, today: int, tolerance: int)
    requires sorted != [] && Sorted(sorted) && Proper(sorted) && tolerance >= 0
    requires Continuous(sorted, windowStart, today, tolerance)
    ensures CoverageErrors(sorted, windowStart, today, tolerance) == []
  {
    FirstStartsEarliest(sorted);
    var first := sorted[0];
    var c := SweepFrom(sorted[1..], first.end, tolerance);
    SweepStops(sorted[1..], first.end, tolerance);
    assert sorted == [first] + sorted[1..];
    if c + tolerance < today {
      assert StartedBy(sorted, c);
    }
  }

  lemma AcceptedIsContinuous(sorted: seq<Interval>, windowStart: int, today: int, tolerance: int)
    requires sorted != [] && Sorted(sorted) && Proper(sorted) && tolerance >= 0
    requires CoverageErrors(sorted, windowStart, today, tolerance) == []
    ensures Continuous(sorted, windowStart, today, tolerance)
  {
    FirstStartsEarliest(sorted);
    var first := sorted[0];
    forall day | StartedBy(sorted, day) && day + tolerance < today ensures Bridged(sorted, day, tolerance) {
      if !Bridged(sorted, day, tolerance) {
        assert first.end <= day;
        forall iv | iv in sorted[1..] ensures !(iv.start <= day + tolerance && iv.end > day) {
          assert iv in sorted;
        }
        SweepCannotPass(sorted[1..], first.end, tolerance, day);
      }
    }
  }

  lemma SortedSweepMeaning(sorted: seq<Interval>, windowStart: int, today: int, tolerance: int)
    requires sorted != [] && Sorted(sorted) && Proper(sorted) && tolerance >= 0
    ensures CoverageErrors(sorted, windowStart, today, tolerance) == []
       <==> Continuous(sorted, windowStart, today, tolerance)
  {
    if Continuous(sorted, windowStart, today, tolerance) {
      ContinuousIsAccepted(sorted, windowStart, today, tolerance);
    }
    if CoverageErrors(sorted, windowStart, today, tolerance) == [] {
      AcceptedIsContinuous(sorted, windowStart, today, tolerance);
    }
  }

  lemma SameMembers(a: seq<Interval>, b: seq<Interval>)
    requires multiset(a) == multiset(b)
    ensures forall iv :: iv in a <==> iv in b
  {
    forall iv ensures iv in a <==> iv in b {
      assert iv in a <==> iv in multiset(a);
      assert iv in b <==> iv in multiset(b);
    }
  }

  lemma ContinuousIgnoresOrder(a: seq<Interval>, b: seq<Interval>, windowStart: int, today: int, tolerance: int)
    requires forall iv :: iv in a <==> iv in b
    ensures Continuous(a, windowStart, today, tolerance) <==> Continuous(b, windowStart, today, tolerance)
  {
    forall day ensures StartedBy(a, day) <==> StartedBy(b, day) {
    }
    forall day ensures Bridged(a, day, tolerance) <==> Bridged(b, day, tolerance) {
    }
  }

  /** The sweep accepts exactly the continuous histories, in whatever order the entries come. */
  lemma SweepMeaning(intervals: seq<Interval>, windowStart: int, today: int, tolerance: int)
    requires intervals != [] && Proper(intervals) && tolerance >= 0
    ensures SweepAccepts(intervals, windowStart, today, tolerance)
       <==> Continuous(intervals, windowStart, today, tolerance)
  {
    var sorted := SortByStart(intervals);
    SortSorts(intervals);
    SameMembers(sorted, intervals);
    assert |sorted| == |multiset(sorted)| == |multiset(intervals)|;
    SortedSweepMeaning(sorted, windowStart, today, tolerance);
    ContinuousIgnoresOrder(sorted, intervals, windowStart, today, tolerance);
  }

  // --------------------------------------------------------------- the whole verdict

  lemma {:induction false} EntryErrorsEmpty(entries: seq<Entry>, today: int)
    ensures EntryErrors(entries, today) == [] <==> forall e :: e in entries ==> WellFormed(e, today)
  {
    if entries != [] {
      var n := |entries| - 1;
      EntryErrorsEmpty(entries[..n], today);
      assert entries == entries[..n] + [entries[n]];
      assert EntryError(entries[n], n, today).None? <==> WellFormed(entries[n], today);
    }
  }

  lemma {:induction false} ReportedErrors(entries: seq<Entry>, today: int, error: HistoryError)
    ensures error in EntryErrors(entries, today)
       <==> exists i :: 0 <= i < |entries| && EntryError(entries[i], i, today) == Some(error)
  {
    if entries != [] {
      var n := |entries| - 1;
      ReportedErrors(entries[..n], today, error);
      assert forall i :: 0 <= i < n ==> entries[..n][i] == entries[i];
    }
  }

  /** What is wrong with entry `i`, if anything: the first of the three rules it breaks. */
  ghost predicate IsWrong(entries: seq<Entry>, today: int, error: HistoryError) {
    match error
    case FromDateRequired(i) => i < |entries| && entries[i].from == None
    case FromDateInFuture(i) => i < |entries| && entries[i].from.Some? && entries[i].from.value > today
    case EndsBeforeStart(i) =>
      && i < |entries| && entries[i].from.Some? && entries[i].from.value <= today
      && entries[i].to.Some? && entries[i].to.value < entries[i].from.value
    case _ => false
  }

  /** Every malformed entry is reported, at its own index, and nothing else is. */
  lemma EntryErrorsAreComplete(entries: seq<Entry>, today: int, error: HistoryError)
    ensures error in EntryErrors(entries, today) <==> IsWrong(entries, today, error)
  {
    ReportedErrors(entries, today, error);
    if IsWrong(entries, today, error) {
      assert EntryError(entries[error.index], error.index, today) == Some(error);
    }
  }

  /** The same for all errors reported before coverage is looked at. */
  lemma EarlyErrorsAreComplete(entries: seq<Entry>, today: int, error: HistoryError)
    ensures error in EarlyErrors(entries, today)
       <==> if entries == [] then error == NoEntries
            else IsWrong(entries, today, error)
                 || (error == NoCurrentEntry && forall e :: e in entries ==> !e.isCurrent)
  {
    EntryErrorsAreComplete(entries, today, error);
  }

  /** The days an entry accounts for: from its start to its end, or to today if current, open or ending later. */
  ghost predicate AccountsFor(e: Entry, day: int, today: int) {
    && e.from.Some? && e.from.value <= day <= today
    && (e.isCurrent || e.to.None? || day <= e.to.value)
  }

  /** The interval of a well-formed entry is exactly the days it accounts for. */
  lemma IntervalIsTheEntry(e: Entry, day: int, today: int)
    requires WellFormed(e, today)
    ensures IntervalOf(e, today).start <= day <= IntervalOf(e, today).end <==> AccountsFor(e, day, today)
    ensures e.from.Some? && e.from.value <= today && (e.to.Some? ==> e.from.value <= e.to.value)
  {
  }

  /** The same in calendar dates, as the entry was submitted. */
  lemma DatedEntryAccountsFor(e: DatedEntry, day: Calendar.Date, today: Calendar.Date)
    requires ValidDates(e) && Calendar.Valid(day) && Calendar.Valid(today)
    ensures AccountsFor(NumberedEntry(e), Calendar.Ordinal(day), Calendar.Ordinal(today))
       <==> && e.from.Some? && Calendar.NotLater(e.from.value, day) && Calendar.NotLater(day, today)
            && (e.isCurrent || e.to.None? || Calendar.NotLater(day, e.to.value))
    ensures NumberedEntry(e).isCurrent == e.isCurrent
  {
    Calendar.OrdinalOrdersDates(day, today);
    Calendar.OrdinalOrdersDates(today, day);
    if e.from.Some? {
      Calendar.OrdinalOrdersDates(e.from.value, day);
      Calendar.OrdinalOrdersDates(day, e.from.value);
    }
    if e.to.Some? {
      Calendar.OrdinalOrdersDates(day, e.to.value);
      Calendar.OrdinalOrdersDates(e.to.value, day);
    }
  }

  lemma {:induction false} IntervalMembers(entries: seq<Entry>, today: int, iv: Interval)
    ensures iv in Intervals(entries, today)
       <==> exists e :: e in entries && WellFormed(e, today) && IntervalOf(e, today) == iv
  {
    if entries != [] {
      var n := |entries| - 1;
      IntervalMembers(entries[..n], today, iv);
      assert entries == entries[..n] + [entries[n]];
      assert entries[n] in entries;
    }
  }

  /** Well-formed entries, a current one among them, and a continuous history. */
  ghost predicate GoodHistory(entries: seq<Entry>, windowStart: int, today: int, tolerance: int) {
    && HasCurrent(entries)
    && (forall e :: e in entries ==> WellFormed(e, today))
    && Continuous(Intervals(entries, today), windowStart, today, tolerance)
  }

  lemma {:induction false} IntervalsAreProper(entries: seq<Entry>, today: int)
    ensures Proper(Intervals(entries, today))
    ensures forall iv :: iv in Intervals(entries, today) ==> iv.end <= today
  {
    forall iv | iv in Intervals(entries, today) ensures iv.start <= iv.end <= today {
      IntervalMembers(entries, today, iv);
    }
  }

  lemma {:induction false} SweepStaysBelow(intervals: seq<Interval>, coveredTo: int, tolerance: int, bound: int)
    requires coveredTo <= bound && forall iv :: iv in intervals ==> iv.end <= bound
    ensures SweepFrom(intervals, coveredTo, tolerance) <= bound
    decreases intervals
  {
    if intervals != [] {
      assert intervals[0] in intervals;
      SweepStaysBelow(intervals[1..], Max(coveredTo, intervals[0].end), tolerance, bound);
    }
  }

  /** A negative tolerance refuses every history: nothing reaches past today. */
  lemma NegativeToleranceAcceptsNothing(entries: seq<Entry>, windowStart: int, today: int, tolerance: int)
    requires tolerance < 0
    ensures !Accepted(entries, windowStart, today, tolerance)
  {
    var ivs := Intervals(entries, today);
    if ivs != [] {
      IntervalsAreProper(entries, today);
      var sorted := SortByStart(ivs);
      SortSorts(ivs);
      SameMembers(sorted, ivs);
      assert |sorted| == |multiset(sorted)| == |multiset(ivs)|;
      assert sorted[0] in sorted;
      SweepStaysBelow(sorted[1..], sorted[0].end, tolerance, today);
    }
  }

  /** The verdict on the submitted entries is the meaning above, for every tolerance. */
  lemma VerdictMeaning(entries: seq<Entry>, windowStart: int, today: int, tolerance: int)
    ensures Accepted(entries, windowStart, today, tolerance)
       <==> tolerance >= 0 && GoodHistory(entries, windowStart, today, tolerance)
  {
    if tolerance < 0 {
      NegativeToleranceAcceptsNothing(entries, windowStart, today, tolerance);
    } else {
      EntryErrorsEmpty(entries, today);
      IntervalsAreProper(entries, today);
      if GoodHistory(entries, windowStart, today, tolerance) {
        var e :| e in entries && e.isCurrent;
        IntervalMembers(entries, today, IntervalOf(e, today));
      }
      if Intervals(entries, today) != [] {
        SweepMeaning(Intervals(entries, today), windowStart, today, tolerance);
      }
    }
  }

  /** Permuting the entries never changes the verdict. */
  lemma VerdictIgnoresOrder(a: seq<Entry>, b: seq<Entry>, windowStart: int, today: int, tolerance: int)
    requires multiset(a) == multiset(b)
    ensures Accepted(a, windowStart, today, tolerance) <==> Accepted(b, windowStart, today, tolerance)
  {
    forall e ensures e in a <==> e in b {
      assert e in a <==> e in multiset(a);
      assert e in b <==> e in multiset(b);
    }
    forall iv ensures iv in Intervals(a, today) <==> iv in Intervals(b, today) {
      IntervalMembers(a, today, iv);
      IntervalMembers(b, today, iv);
    }
    VerdictMeaning(a, windowStart, today, tolerance);
    VerdictMeaning(b, windowStart, today, tolerance);
    ContinuousIgnoresOrder(Intervals(a, today), Intervals(b, today), windowStart, today, tolerance);
  }

  // ------------------------------------------------------------------ days covered

  ghost predicate Covered(intervals: seq<Interval>, day: int) {
    exists iv :: iv in intervals && iv.start <= day <= iv.end
  }

  /** One of the `n` days from `day` on is covered. */
  ghost predicate SomeCovered(intervals: seq<Interval>, day: int, n: int) {
    exists d :: day <= d < day + n && Covered(intervals, d)
  }

  // A bridge over `day` covers one of the next `tolerance` days, and conversely.
  lemma BridgeCovers(intervals: seq<Interval>, day: int, tolerance: int)
    requires Proper(intervals) && tolerance >= 1
    ensures Bridged(intervals, day, tolerance) <==> SomeCovered(intervals, day + 1, tolerance)
  {
    if Bridged(intervals, day, tolerance) {
      var iv :| iv in intervals && iv.start <= day + tolerance && iv.end > day;
      assert Covered(intervals, Max(iv.start, day + 1));
    }
    if SomeCovered(intervals, day + 1, tolerance) {
      var d :| day + 1 <= d < day + 1 + tolerance && Covered(intervals, d);
      var iv :| iv in intervals && iv.start <= d <= iv.end;
    }
  }

  /** Soundness: an accepted history leaves no run of more than `tolerance` uncovered days in the window. */
  lemma AcceptedHistoryCoversTheWindow(entries: seq<Entry>, windowStart: int, today: int, tolerance: int, day: int)
    requires Accepted(entries, windowStart, today, tolerance)
    requires windowStart <= day && day + tolerance <= today
    ensures SomeCovered(Intervals(entries, today), day, tolerance + 1)
  {
    VerdictMeaning(entries, windowStart, today, tolerance);
    IntervalsAreProper(entries, today);
    var ivs := Intervals(entries, today);
    if StartedBy(ivs, day - 1) {
      assert Bridged(ivs, day - 1, tolerance);
      var iv :| iv in ivs && iv.start <= day - 1 + tolerance && iv.end > day - 1;
      assert Covered(ivs, Max(iv.start, day));
    } else {
      var iv :| iv in ivs && iv.start <= windowStart + tolerance;
      assert Covered(ivs, iv.start);
    }
  }

  /**
   One of the `tolerance` days from `day` on is covered; with a zero tolerance, `day` and
   the day before it lie in one interval.
   */
  ghost predicate Crossed(intervals: seq<Interval>, day: int, tolerance: int) {
    if tolerance == 0 then exists iv :: iv in intervals && iv.start < day <= iv.end
    else SomeCovered(intervals, day, tolerance)
  }

  lemma BridgeCrosses(intervals: seq<Interval>, day: int, tolerance: int)
    requires Proper(intervals) && tolerance >= 0
    ensures Bridged(intervals, day, tolerance) <==> Crossed(intervals, day + 1, tolerance)
  {
    if tolerance >= 1 {
      BridgeCovers(intervals, day, tolerance);
    } else if Bridged(intervals, day, 0) {
      var iv :| iv in intervals && iv.start <= day && iv.end > day;
      assert iv.start < day + 1 <= iv.end;
    }
  }

  /**
   The documented requirement, about days of the window alone: its first tolerance + 1 days
   hold a covered one, and no later run of `tolerance` days is uncovered.
   */
  ghost predicate WindowCovered(intervals: seq<Interval>, windowStart: int, today: int, tolerance: int) {
    && (windowStart + tolerance <= today ==> SomeCovered(intervals, windowStart, tolerance + 1))
    && forall day :: windowStart < day && day + tolerance <= today ==> Crossed(intervals, day, tolerance)
  }

  /** What the sweep asks beyond that: an interval that ended before the window is followed up all the same. */
  ghost predicate NoStaleEnd(intervals: seq<Interval>, windowStart: int, today: int, tolerance: int) {
    forall iv :: iv in intervals && iv.end < windowStart && iv.end + tolerance < today ==>
      Bridged(intervals, iv.end, tolerance)
  }

  // The latest-ending interval among those started by `day`.
  lemma {:induction false} LatestStartedBy(intervals: seq<Interval>, day: int) returns (latest: Interval)
    requires StartedBy(intervals, day)
    ensures latest in intervals && latest.start <= day
    ensures forall iv :: iv in intervals && iv.start <= day ==> iv.end <= latest.end
  {
    var init, last := intervals[..|intervals| - 1], intervals[|intervals| - 1];
    assert intervals == init + [last];
    latest := last;
    if StartedBy(init, day) {
      var before := LatestStartedBy(init, day);
      latest := if last.start <= day && last.end > before.end then last else before;
    }
  }

  // Before the window only the ends of intervals can leave a day unbridged.
  lemma DayBeforeWindowIsBridged(intervals: seq<Interval>, windowStart: int, today: int, tolerance: int, day: int)
    requires Proper(intervals) && tolerance >= 0
    requires NoStaleEnd(intervals, windowStart, today, tolerance)
    requires StartedBy(intervals, day) && day < windowStart && day + tolerance < today
    ensures Bridged(intervals, day, tolerance)
  {
    var latest := LatestStartedBy(intervals, day);
    if latest.end <= day {
      var next :| next in intervals && next.start <= latest.end + tolerance && next.end > latest.end;
      assert next.start > day;
    }
  }

  lemma ContinuousCoversTheWindow(intervals: seq<Interval>, windowStart: int, today: int, tolerance: int)
    requires Proper(intervals) && tolerance >= 0
    requires Continuous(intervals, windowStart, today, tolerance)
    ensures WindowCovered(intervals, windowStart, today, tolerance)
    ensures NoStaleEnd(intervals, windowStart, today, tolerance)
  {
    if windowStart + tolerance <= today {
      var iv :| iv in intervals && iv.start <= windowStart + tolerance;
      if iv.end < windowStart {
        assert StartedBy(intervals, windowStart - 1);
        iv :| iv in intervals && iv.start <= windowStart - 1 + tolerance && iv.end > windowStart - 1;
      }
      assert Covered(intervals, Max(iv.start, windowStart));
    }
    forall day | windowStart < day && day + tolerance <= today ensures Crossed(intervals, day, tolerance) {
      EarlyDayIsBridged(intervals, windowStart, day - 1, tolerance);
      assert Bridged(intervals, day - 1, tolerance);
      BridgeCrosses(intervals, day - 1, tolerance);
    }
    forall iv | iv in intervals && iv.end < windowStart && iv.end + tolerance < today
      ensures Bridged(intervals, iv.end, tolerance)
    {
      assert StartedBy(intervals, iv.end);
    }
  }

  lemma CoveredWindowIsContinuous(intervals: seq<Interval>, windowStart: int, today: int, tolerance: int)
    requires Proper(intervals) && tolerance >= 0 && StartedBy(intervals, windowStart + tolerance)
    requires WindowCovered(intervals, windowStart, today, tolerance)
    requires NoStaleEnd(intervals, windowStart, today, tolerance)
    ensures Continuous(intervals, windowStart, today, tolerance)
  {
    forall day | StartedBy(intervals, day) && day + tolerance < today ensures Bridged(intervals, day, tolerance) {
      if day < windowStart {
        DayBeforeWindowIsBridged(intervals, windowStart, today, tolerance, day);
      } else {
        assert Crossed(intervals, day + 1, tolerance);
        BridgeCrosses(intervals, day, tolerance);
      }
    }
  }

  /**
   Exactness, for any intervals, window and tolerance: the sweep accepts when some interval
   starts in time, the window is covered, and nothing that ended before it was left hanging.
   */
  lemma CoverageIsExact(intervals: seq<Interval>, windowStart: int, today: int, tolerance: int)
    requires intervals != [] && Proper(intervals) && tolerance >= 0
    ensures SweepAccepts(intervals, windowStart, today, tolerance)
       <==> && StartedBy(intervals, windowStart + tolerance)
            && WindowCovered(intervals, windowStart, today, tolerance)
            && NoStaleEnd(intervals, windowStart, today, tolerance)
  {
    SweepMeaning(intervals, windowStart, today, tolerance);
    if Continuous(intervals, windowStart, today, tolerance) {
      ContinuousCoversTheWindow(intervals, windowStart, today, tolerance);
    } else if StartedBy(intervals, windowStart + tolerance)
              && WindowCovered(intervals, windowStart, today, tolerance)
              && NoStaleEnd(intervals, windowStart, today, tolerance) {
      CoveredWindowIsContinuous(intervals, windowStart, today, tolerance);
    }
  }

  // A day of the window before the first entry is bridged by that entry.
  lemma EarlyDayIsBridged(intervals: seq<Interval>, windowStart: int, day: int, tolerance: int)
    requires Proper(intervals) && windowStart <= day && tolerance >= 0
    requires StartedBy(intervals, windowStart + tolerance)
    ensures StartedBy(intervals, day) || Bridged(intervals, day, tolerance)
  {
  }

  // ------------------------------------------------- where the documentation differs

  // Nothing starts in the future, so a covered window is always reached in time.
  lemma CoveredWindowIsReached(entries: seq<Entry>, windowStart: int, today: int, tolerance: int)
    requires entries != [] && tolerance >= 0 && forall e :: e in entries ==> WellFormed(e, today)
    requires WindowCovered(Intervals(entries, today), windowStart, today, tolerance)
    ensures StartedBy(Intervals(entries, today), windowStart + tolerance)
  {
    var ivs := Intervals(entries, today);
    if windowStart + tolerance <= today {
      var day :| windowStart <= day < windowStart + tolerance + 1 && Covered(ivs, day);
      var iv :| iv in ivs && iv.start <= day <= iv.end;
    } else {
      var iv := IntervalOf(entries[0], today);
      assert entries[0] in entries;
      IntervalMembers(entries, today, iv);
    }
  }

  /**
   Documented: well-formed entries, one of them current, that cover the window are accepted.
   Coded: they are accepted exactly when, besides, every entry that ended before the window
   is followed within the tolerance by one that ends later.
   */
  lemma AcceptedIffCoveredAndNothingStale(entries: seq<Entry>, windowStart: int, today: int, tolerance: int)
    ensures Accepted(entries, windowStart, today, tolerance)
       <==> && tolerance >= 0 && HasCurrent(entries) && (forall e :: e in entries ==> WellFormed(e, today))
            && WindowCovered(Intervals(entries, today), windowStart, today, tolerance)
            && NoStaleEnd(Intervals(entries, today), windowStart, today, tolerance)
  {
    VerdictMeaning(entries, windowStart, today, tolerance);
    if tolerance >= 0 && HasCurrent(entries) && forall e :: e in entries ==> WellFormed(e, today) {
      var ivs := Intervals(entries, today);
      IntervalsAreProper(entries, today);
      var e :| e in entries && e.isCurrent;
      IntervalMembers(entries, today, IntervalOf(e, today));
      SweepMeaning(ivs, windowStart, today, tolerance);
      CoverageIsExact(ivs, windowStart, today, tolerance);
      if WindowCovered(ivs, windowStart, today, tolerance) {
        CoveredWindowIsReached(entries, windowStart, today, tolerance);
      }
    }
  }

  lemma OneInterval(e: Entry, today: int)
    requires WellFormed(e, today)
    ensures Intervals([e], today) == [IntervalOf(e, today)]
  {
  }

  lemma TwoIntervals(e: Entry, f: Entry, today: int)
    requires WellFormed(e, today) && WellFormed(f, today)
    ensures Intervals([e, f], today) == [IntervalOf(e, today), IntervalOf(f, today)]
  {
    OneInterval(e, today);
    assert [e, f][..1] == [e];
  }

  lemma CurrentEntryIsAccepted(current: Entry, windowStart: int, today: int, tolerance: nat)
    requires current == Entry(Some(windowStart), None, true) && windowStart <= today
    ensures Accepted([current], windowStart, today, tolerance)
  {
    OneInterval(current, today);
    assert Interval(windowStart, today) in [Interval(windowStart, today)];
    assert [current][0].isCurrent;
    VerdictMeaning([current], windowStart, today, tolerance);
  }

  /** Adding a long-finished entry to an accepted history, current throughout the window, makes it refused. */
  lemma StaleEntryExample(current: Entry, past: Entry)
    requires current == Entry(Some(3_000), None, true) && past == Entry(Some(0), Some(100), false)
    ensures Accepted([current], 3_000, 4_000, 31)
    ensures !Accepted([past, current], 3_000, 4_000, 31)
  {
    CurrentEntryIsAccepted(current, 3_000, 4_000, 31);
    TwoIntervals(past, current, 4_000);
    AcceptedIffCoveredAndNothingStale([past, current], 3_000, 4_000, 31);
    var stale := Interval(0, 100);
    assert stale in [stale, Interval(3_000, 4_000)];
    assert !Bridged([stale, Interval(3_000, 4_000)], stale.end, 31);
  }

  /**
   Documented: gaps up to the tolerance are allowed. Coded: two pieces with `gap` uncovered
   days between them pass only when the gap is strictly smaller, so a gap of exactly the
   tolerance (zero days included, when the tolerance is zero) is refused.
   */
  lemma GapMustBeBelowTheTolerance(windowStart: int, end: int, gap: nat, today: int, tolerance: nat)
    requires windowStart <= end && end + 1 + gap <= today && end + tolerance < today
    ensures SweepAccepts([Interval(windowStart, end), Interval(end + 1 + gap, today)], windowStart, today, tolerance)
       <==> gap < tolerance
  {
    var a, b := Interval(windowStart, end), Interval(end + 1 + gap, today);
    var ivs := [a, b];
    assert a in ivs && b in ivs;
    SweepMeaning(ivs, windowStart, today, tolerance);
    assert StartedBy(ivs, end);
    if gap < tolerance {
      forall day | StartedBy(ivs, day) && day + tolerance < today ensures Bridged(ivs, day, tolerance) {
        assert if day < end then a.end > day else b.start <= day + tolerance;
      }
    } else {
      assert !Bridged(ivs, end, tolerance);
    }
  }

  // --------------------------------------------------------------- the reported gap

  lemma {:induction false} SweepEndsAtAnEnd(intervals: seq<Interval>, coveredTo: int, tolerance: int)
    ensures
      var c := SweepFrom(intervals, coveredTo, tolerance);
      c == coveredTo || exists iv :: iv in intervals && iv.end == c
    decreases intervals
  {
    if intervals != [] && intervals[0].start <= coveredTo + tolerance {
      SweepEndsAtAnEnd(intervals[1..], Max(coveredTo, intervals[0].end), tolerance);
      assert intervals[0] in intervals;
    }
  }

  lemma GapIsUnbridged(sorted: seq<Interval>, tolerance: int, c: int)
    requires sorted != [] && Sorted(sorted) && Proper(sorted) && tolerance >= 0
    requires c == SweepFrom(sorted[1..], sorted[0].end, tolerance)
    ensures exists iv :: iv in sorted && iv.end == c
    ensures StartedBy(sorted, c) && !Bridged(sorted, c, tolerance)
  {
    var first, rest := sorted[0], sorted[1..];
    assert sorted == [first] + rest;
    SweepEndsAtAnEnd(rest, first.end, tolerance);
    SweepStops(rest, first.end, tolerance);
    assert first in sorted;
  }

  lemma DaysBeforeTheGapAreBridged(sorted: seq<Interval>, tolerance: int, c: int, day: int)
    requires sorted != [] && Sorted(sorted) && Proper(sorted) && tolerance >= 0
    requires c == SweepFrom(sorted[1..], sorted[0].end, tolerance)
    requires StartedBy(sorted, day) && day < c
    ensures Bridged(sorted, day, tolerance)
  {
    FirstStartsEarliest(sorted);
    var first, rest := sorted[0], sorted[1..];
    if !Bridged(sorted, day, tolerance) {
      assert first.start <= day && first.end <= day;
      forall iv | iv in rest ensures !(iv.start <= day + tolerance && iv.end > day) {
        assert iv in sorted;
      }
      SweepCannotPass(rest, first.end, tolerance, day);
    }
  }

  lemma SortedGapIsTheFirst(sorted: seq<Interval>, windowStart: int, today: int, tolerance: int, c: int)
    requires sorted != [] && Sorted(sorted) && Proper(sorted) && tolerance >= 0
    ensures
      var errors := CoverageErrors(sorted, windowStart, today, tolerance);
      && (errors == [DoesNotReachBack] <==> !StartedBy(sorted, windowStart + tolerance))
      && (errors == [LeavesGap(c)] ==> FirstGap(sorted, today, tolerance, c))
  {
    FirstStartsEarliest(sorted);
    if CoverageErrors(sorted, windowStart, today, tolerance) == [LeavesGap(c)] {
      GapIsUnbridged(sorted, tolerance, c);
      forall day | StartedBy(sorted, day) && day < c ensures Bridged(sorted, day, tolerance) {
        DaysBeforeTheGapAreBridged(sorted, tolerance, c, day);
      }
    }
  }

  /** The end of an entry, too long before today, and the first started day nothing leads past. */
  ghost predicate FirstGap(intervals: seq<Interval>, today: int, tolerance: int, c: int) {
    && (exists iv :: iv in intervals && iv.end == c)
    && c + tolerance < today && StartedBy(intervals, c) && !Bridged(intervals, c, tolerance)
    && forall day :: StartedBy(intervals, day) && day < c ==> Bridged(intervals, day, tolerance)
  }

  /** The error names the gap: too late a start is reported as such, and otherwise the first gap by its day. */
  lemma ReportedGapIsTheFirst(intervals: seq<Interval>, windowStart: int, today: int, tolerance: int, c: int)
    requires intervals != [] && Proper(intervals) && tolerance >= 0
    ensures
      var errors := CoverageErrors(SortByStart(intervals), windowStart, today, tolerance);
      && (errors == [DoesNotReachBack] <==> !StartedBy(intervals, windowStart + tolerance))
      && (errors == [LeavesGap(c)] ==> FirstGap(intervals, today, tolerance, c))
  {
    var sorted := SortByStart(intervals);
    SortSorts(intervals);
    SameMembers(sorted, intervals);
    assert |sorted| == |multiset(sorted)| == |multiset(intervals)|;
    SortedGapIsTheFirst(sorted, windowStart, today, tolerance, c);
    forall day | true
      ensures StartedBy(sorted, day) <==> StartedBy(intervals, day)
      ensures Bridged(sorted, day, tolerance) <==> Bridged(intervals, day, tolerance)
    {
    }
  }
}
