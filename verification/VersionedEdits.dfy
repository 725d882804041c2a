/**
 "Version, don't overwrite" (app/core/application_history.py): an edit of the current
 address or employment first copies the prior values into a history row.
 */
module VersionedEdits {
  import opened Common

  datatype Value = Null | Text(text: string) | Number(number: int)

  /** Column values of the application row; an absent column reads as null. */
  type Columns = map<string, Value>

  /** Application column to history column, and the column that makes an entry meaningful. */
  datatype Scheme = Scheme(fields: map<string, string>, anchor: string)

  const ADDRESS := Scheme(map[
    "residence_street" := "street",
    "residence_unit" := "unit",
    "residence_city" := "city",
    "residence_province" := "province",
    "residence_postal_code" := "postal_code",
    "residential_status" := "residential_status",
    "monthly_housing_payment_cents" := "monthly_housing_payment_cents"], "residence_street")

  const EMPLOYMENT := Scheme(map[
    "employer_name" := "employer_name",
    "job_title" := "job_title",
    "income_type" := "income_type",
    "net_monthly_income_cents" := "net_monthly_income_cents",
    "pay_frequency" := "pay_frequency",
    "hire_date" := "from_date"], "employer_name")

  datatype HistoryRow = HistoryRow(columns: Columns, isCurrent: bool, entrySource: string, toDate: int)

  datatype Edit = Edit(provided: Columns, today: int)

  function Get(columns: Columns, name: string): Value {
    if name in columns then columns[name] else Null
  }

  predicate Truthy(v: Value) {
    match v
    case Null => false
    case Text(text) => text != ""
    case Number(number) => number != 0
  }

  predicate Changed(scheme: Scheme, prior: Columns, provided: Columns) {
    exists name :: name in scheme.fields && name in provided && provided[name] != Get(prior, name)
  }

  function HistoryColumns(scheme: Scheme, prior: Columns): Columns
    requires Distinct(scheme)
  {
    var row := map name | name in scheme.fields :: scheme.fields[name] := Get(prior, name);
    if "from_date" in row then row else row["from_date" := Null]
  }

  function Snapshot(scheme: Scheme, prior: Columns, provided: Columns, today: int): Option<HistoryRow>
    requires Distinct(scheme)
  {
    if !Changed(scheme, prior, provided) then None
    else if !Truthy(Get(prior, scheme.anchor)) then None
    else Some(HistoryRow(HistoryColumns(scheme, prior), false, "versioned_edit", today))
  }

  /** No two application columns share a history column. */
  predicate Distinct(scheme: Scheme) {
    forall a, b :: a in scheme.fields && b in scheme.fields && a != b ==> scheme.fields[a] != scheme.fields[b]
  }

  lemma AddressIsDistinct()
    ensures Distinct(ADDRESS) && ADDRESS.anchor in ADDRESS.fields
  {
  }

  lemma EmploymentIsDistinct()
    ensures Distinct(EMPLOYMENT) && EMPLOYMENT.anchor in EMPLOYMENT.fields
  {
  }

  /** History columns of an address are named as the application's, without its "residence_" prefix. */
  lemma AddressColumns(name: string)
    requires name in ADDRESS.fields
    ensures name == ADDRESS.fields[name] || name == "residence_" + ADDRESS.fields[name]
  {
    assert "residence_" + "street" == "residence_street";
    assert "residence_" + "unit" == "residence_unit";
    assert "residence_" + "city" == "residence_city";
    assert "residence_" + "province" == "residence_province";
    assert "residence_" + "postal_code" == "residence_postal_code";
  }

  /** Those of an employment too, but that the hire date is the entry's start. */
  lemma EmploymentColumns(name: string)
    requires name in EMPLOYMENT.fields
    ensures EMPLOYMENT.fields[name] == if name == "hire_date" then "from_date" else name
  {
  }

  /** One application row under edit: the snapshot is taken before the columns are overwritten. */
  class Application {
    const scheme: Scheme
    var current: Columns
    var history: seq<HistoryRow>

    constructor (scheme: Scheme, current: Columns)
      ensures this.scheme == scheme && this.current == current && history == []
    {
      this.scheme, this.current, this.history := scheme, current, [];
    }

    method Apply(edit: Edit)
      requires Distinct(scheme)
      modifies this
      ensures current == old(current) + edit.provided
      ensures history == old(history) + Versioned(scheme, old(current), edit)
    {
      var prior := current;
      current := current + edit.provided;
      var snapshot := Snapshot(scheme, prior, edit.provided, edit.today);
      if snapshot.Some? {
        history := history + [snapshot.value];
      }
    }

    method ApplyAll(edits: seq<Edit>)
      requires Distinct(scheme)
      modifies this
      ensures current == CurrentAfter(old(current), edits)
      ensures history == old(history) + HistoryAfter(scheme, old(current), edits)
    {
      ghost var start := current;
      for i := 0 to |edits|
        invariant current == CurrentAfter(start, edits[..i])
        invariant history == old(history) + HistoryAfter(scheme, start, edits[..i])
      {
        assert edits[..i + 1][..i] == edits[..i];
        Apply(edits[i]);
      }
      assert edits[..|edits|] == edits;
    }
  }

  function Versioned(scheme: Scheme, prior: Columns, edit: Edit): seq<HistoryRow>
    requires Distinct(scheme)
  {
    match Snapshot(scheme, prior, edit.provided, edit.today)
    case None => []
    case Some(row) => [row]
  }

  function CurrentAfter(start: Columns, edits: seq<Edit>): Columns {
    if edits == [] then start else CurrentAfter(start, edits[..|edits| - 1]) + edits[|edits| - 1].provided
  }

  function HistoryAfter(scheme: Scheme, start: Columns, edits: seq<Edit>): seq<HistoryRow>
    requires Distinct(scheme)
  {
    if edits == [] then []
    else
      var n := |edits| - 1;
      HistoryAfter(scheme, start, edits[..n]) + Versioned(scheme, CurrentAfter(start, edits[..n]), edits[n])
  }

  // -------------------------------------------------------------- what history means

  /** The part of the application the scheme versions. */
  function View(scheme: Scheme, columns: Columns): Columns {
    map name | name in scheme.fields :: Get(columns, name)
  }

  /** Reading a history row back in application columns. */
  function Restored(scheme: Scheme, row: HistoryRow): Columns {
    map name | name in scheme.fields :: Get(row.columns, scheme.fields[name])
  }

  function RestoredAll(scheme: Scheme, rows: seq<HistoryRow>): seq<Columns> {
    if rows == [] then []
    else RestoredAll(scheme, rows[..|rows| - 1]) + [Restored(scheme, rows[|rows| - 1])]
  }

  /** The views the application went through, one before each edit and one at the end. */
  function Views(scheme: Scheme, start: Columns, edits: seq<Edit>): seq<Columns> {
    if edits == [] then [View(scheme, start)]
    else Views(scheme, start, edits[..|edits| - 1]) + [View(scheme, CurrentAfter(start, edits))]
  }

  /** The visits so far, after moving on to `v`. */
  function Visit<T(==)>(seen: seq<T>, v: T): seq<T> {
    if seen != [] && seen[|seen| - 1] == v then seen else seen + [v]
  }

  /** Consecutive repetitions collapsed. */
  function Collapse<T(==)>(views: seq<T>): (seen: seq<T>)
    ensures views != [] ==> seen != [] && seen[|seen| - 1] == views[|views| - 1]
  {
    if views == [] then [] else Visit(Collapse(views[..|views| - 1]), views[|views| - 1])
  }

  function Anchored(scheme: Scheme, views: seq<Columns>): seq<Columns> {
    if views == [] then []
    else
      var n := |views| - 1;
      Anchored(scheme, views[..n]) + if Truthy(Get(views[n], scheme.anchor)) then [views[n]] else []
  }

  // A snapshot is due exactly when the edit changes the view.
  lemma ChangedIsVisible(scheme: Scheme, prior: Columns, provided: Columns)
    ensures Changed(scheme, prior, provided) <==> View(scheme, prior) != View(scheme, prior + provided)
  {
    if Changed(scheme, prior, provided) {
      var name :| name in scheme.fields && name in provided && provided[name] != Get(prior, name);
      assert View(scheme, prior)[name] != View(scheme, prior + provided)[name];
    } else {
      forall name | name in scheme.fields
        ensures View(scheme, prior)[name] == View(scheme, prior + provided)[name]
      {
      }
    }
  }

  /** A snapshot is taken exactly when the view changes and the anchor holds neither null, nor "", nor 0. */
  lemma SnapshotIff(scheme: Scheme, prior: Columns, edit: Edit)
    requires Distinct(scheme)
    ensures Snapshot(scheme, prior, edit.provided, edit.today).Some?
       <==> && View(scheme, prior) != View(scheme, prior + edit.provided)
            && scheme.anchor in prior && prior[scheme.anchor] !in [Null, Text(""), Number(0)]
  {
    ChangedIsVisible(scheme, prior, edit.provided);
  }

  /**
   A snapshot loses no mapped field: reading it back gives the prior view. It ends today,
   and starts on an unknown date unless the scheme maps a column to from_date.
   */
  lemma SnapshotRestores(scheme: Scheme, prior: Columns, edit: Edit)
    requires Distinct(scheme)
    ensures
      var snapshot := Snapshot(scheme, prior, edit.provided, edit.today);
      snapshot.Some? ==>
        var row := snapshot.value;
        && Restored(scheme, row) == View(scheme, prior)
        && !row.isCurrent && row.entrySource == "versioned_edit" && row.toDate == edit.today
        && ("from_date" !in scheme.fields.Values ==> Get(row.columns, "from_date") == Null)
  {
  }

  lemma {:induction false} ViewsEnd(scheme: Scheme, start: Columns, edits: seq<Edit>)
    ensures |Views(scheme, start, edits)| == |edits| + 1
    ensures Views(scheme, start, edits)[|edits|] == View(scheme, CurrentAfter(start, edits))
  {
    if edits != [] {
      ViewsEnd(scheme, start, edits[..|edits| - 1]);
    }
  }

  // One edit: the history grows by the view it leaves, if that view is anchored.
  lemma EditListsPriorView(scheme: Scheme, rows: seq<HistoryRow>, seen: seq<Columns>, prior: Columns, edit: Edit)
    requires Distinct(scheme) && scheme.anchor in scheme.fields
    requires seen != [] && seen[|seen| - 1] == View(scheme, prior)
    requires RestoredAll(scheme, rows) == Anchored(scheme, seen[..|seen| - 1])
    ensures
      var next := Visit(seen, View(scheme, prior + edit.provided));
      RestoredAll(scheme, rows + Versioned(scheme, prior, edit)) == Anchored(scheme, next[..|next| - 1])
  {
    ChangedIsVisible(scheme, prior, edit.provided);
    SnapshotRestores(scheme, prior, edit);
    var added := Versioned(scheme, prior, edit);
    if added == [] {
      assert rows + added == rows;
    } else {
      assert (rows + added)[..|rows|] == rows;
    }
    if Changed(scheme, prior, edit.provided) {
      var next := Visit(seen, View(scheme, prior + edit.provided));
      assert next[..|next| - 1] == seen;
      assert View(scheme, prior)[scheme.anchor] == Get(prior, scheme.anchor);
    }
  }

  lemma OneMoreView(scheme: Scheme, start: Columns, edits: seq<Edit>)
    requires edits != []
    ensures
      var n := |edits| - 1;
      Collapse(Views(scheme, start, edits))
        == Visit(Collapse(Views(scheme, start, edits[..n])),
                 View(scheme, CurrentAfter(start, edits[..n]) + edits[n].provided))
  {
  }

  /**
   Over any sequence of edits the history rows, read back, are exactly the distinct
   anchored views the application left behind, each once per visit and in order.
   */
  lemma {:induction false} HistoryListsPriorViews(scheme: Scheme, start: Columns, edits: seq<Edit>, seen: seq<Columns>)
    requires Distinct(scheme) && scheme.anchor in scheme.fields
    requires seen == Collapse(Views(scheme, start, edits))
    ensures seen != [] && seen[|seen| - 1] == View(scheme, CurrentAfter(start, edits))
    ensures RestoredAll(scheme, HistoryAfter(scheme, start, edits)) == Anchored(scheme, seen[..|seen| - 1])
  {
    ViewsEnd(scheme, start, edits);
    if edits == [] {
      assert seen[..|seen| - 1] == [];
    } else {
      var init, last := edits[..|edits| - 1], edits[|edits| - 1];
      var before := Collapse(Views(scheme, start, init));
      HistoryListsPriorViews(scheme, start, init, before);
      OneMoreView(scheme, start, edits);
      EditListsPriorView(scheme, HistoryAfter(scheme, start, init), before, CurrentAfter(start, init), last);
    }
  }

  lemma {:induction false} AnchoredMember(scheme: Scheme, views: seq<Columns>, v: Columns)
    ensures v in Anchored(scheme, views) <==> v in views && Truthy(Get(v, scheme.anchor))
  {
    if views != [] {
      AnchoredMember(scheme, views[..|views| - 1], v);
      assert views == views[..|views| - 1] + [views[|views| - 1]];
    }
  }

  lemma {:induction false} CollapseMember<T>(views: seq<T>, v: T)
    ensures v in Collapse(views) <==> v in views
  {
    if views != [] {
      var n := |views| - 1;
      CollapseMember(views[..n], v);
      assert views == views[..n] + [views[n]];
    }
  }

  /** Nothing meaningful is lost: every anchored view is current or can be read back from the history. */
  lemma NoAnchoredViewIsLost(scheme: Scheme, start: Columns, edits: seq<Edit>, v: Columns)
    requires Distinct(scheme) && scheme.anchor in scheme.fields
    requires v in Views(scheme, start, edits) && Truthy(Get(v, scheme.anchor))
    ensures v == View(scheme, CurrentAfter(start, edits))
         || v in RestoredAll(scheme, HistoryAfter(scheme, start, edits))
  {
    var seen := Collapse(Views(scheme, start, edits));
    HistoryListsPriorViews(scheme, start, edits, seen);
    CollapseMember(Views(scheme, start, edits), v);
    AnchoredMember(scheme, seen[..|seen| - 1], v);
    assert seen == seen[..|seen| - 1] + [seen[|seen| - 1]];
  }
}
