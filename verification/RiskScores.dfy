/**
 The append-only table of risk scores (alembic/versions/073_risk_score_model.py): two
 unique indexes and a trigger that lets an update through only when it retires the
 current row and leaves the compared columns alone.
 */
module RiskScores {
  import opened Common

  type RowId = int

  datatype Cell = Null | Value(value: int)

  /** The columns the trigger compares. */
  datatype Compared = Compared(
    rawScore: Cell, scaledScore: Cell, riskBand: Cell, riskSegment: Cell,
    systemDecision: Cell, underwriterDecision: Cell, checks: Cell, ruleEvaluations: Cell, scoredAt: Cell)

  /** A row; `rest` stands for the columns the trigger does not mention. */
  datatype Score = Score(application: int, sequence: int, isCurrent: bool, compared: Compared, rest: seq<Cell>)

  type Table = map<RowId, Score>

  datatype Op =
    | Insert(id: RowId, row: Score)
    | Update(id: RowId, newId: RowId, row: Score)
    | Delete(id: RowId)

  // ------------------------------------------------------------------- constraints

  ghost predicate SequenceTaken(t: Table, row: Score) {
    exists id :: id in t && t[id].application == row.application && t[id].sequence == row.sequence
  }

  ghost predicate CurrentTaken(t: Table, row: Score) {
    row.isCurrent && exists id :: id in t && t[id].application == row.application && t[id].isCurrent
  }

  /** prevent_risk_score_modification on an update of `was` to `row`. */
  predicate TriggerAllows(was: Score, row: Score, sameId: bool) {
    && was.isCurrent && !row.isCurrent && sameId
    && row.application == was.application && row.sequence == was.sequence
    && row.compared == was.compared
  }

  ghost predicate Accepts(t: Table, op: Op) {
    match op
    case Insert(id, row) => id !in t && !SequenceTaken(t, row) && !CurrentTaken(t, row)
    case Update(id, newId, row) => id in t && TriggerAllows(t[id], row, newId == id)
    case Delete(id) => false
  }

  /** A rejected statement raises and changes nothing. */
  ghost function Execute(t: Table, op: Op): Table {
    if !Accepts(t, op) then t else t[op.id := op.row]
  }

  ghost function Run(t: Table, ops: seq<Op>): Table {
    if ops == [] then t else Execute(Run(t, ops[..|ops| - 1]), ops[|ops| - 1])
  }

  /** Accepted updates of a row during a run. */
  ghost function Updates(t: Table, ops: seq<Op>, id: RowId): nat {
    if ops == [] then 0
    else
      var init, op := ops[..|ops| - 1], ops[|ops| - 1];
      Updates(t, init, id) + if op.Update? && op.id == id && Accepts(Run(t, init), op) then 1 else 0
  }

  class RiskScoreTable {
    var rows: Table

    constructor ()
      ensures rows == map[]
    {
      rows := map[];
    }

    method InsertRow(id: RowId, row: Score) returns (ok: bool)
      modifies this
      ensures ok == Accepts(old(rows), Insert(id, row))
      ensures rows == Execute(old(rows), Insert(id, row))
    {
      ok := id !in rows
            && !(exists i :: i in rows && rows[i].application == row.application && rows[i].sequence == row.sequence)
            && !(row.isCurrent && exists i :: i in rows && rows[i].application == row.application && rows[i].isCurrent);
      if ok {
        rows := rows[id := row];
      }
    }

    method UpdateRow(id: RowId, newId: RowId, row: Score) returns (ok: bool)
      modifies this
      ensures ok == Accepts(old(rows), Update(id, newId, row))
      ensures rows == Execute(old(rows), Update(id, newId, row))
    {
      ok := id in rows && TriggerAllows(rows[id], row, newId == id);
      if ok {
        rows := rows[id := row];
      }
    }

    method DeleteRow(id: RowId) returns (ok: bool)
      ensures !ok && rows == Execute(rows, Delete(id))
    {
      ok := false;
    }
  }

  // ------------------------------------------------------------------- main results

  /** An accepted update keeps the row's key, and takes it from current to retired. */
  lemma AcceptedUpdateRetires(t: Table, id: RowId, newId: RowId, row: Score)
    requires Accepts(t, Update(id, newId, row))
    ensures newId == id && id in t && t[id].isCurrent && !row.isCurrent
    ensures Preserved(t[id], row)
  {
  }

  /** A new row is refused only for a taken id or sequence number, or a second current row. */
  lemma InsertAcceptedIff(t: Table, id: RowId, row: Score)
    ensures id in Execute(t, Insert(id, row)) && Execute(t, Insert(id, row))[id] == row
    <==> || (id in t && t[id] == row)
         || (&& id !in t
             && (forall i :: i in t && t[i].application == row.application ==> t[i].sequence != row.sequence)
             && (row.isCurrent ==> forall i :: i in t && t[i].application == row.application ==> !t[i].isCurrent))
  {
  }


  /** How a row may look later: facts unchanged, retired at most, and frozen once retired. */
  ghost predicate Preserved(was: Score, row: Score) {
    && row.application == was.application && row.sequence == was.sequence && row.compared == was.compared
    && (was.isCurrent || row == was)
    && (row.isCurrent ==> row == was)
  }

  /**
   Over every run of inserts, updates and deletes no row disappears, the compared columns
   never change, and a row that changed at all was current and has been retired.
   */
  lemma {:induction false} HistoryIsKept(t: Table, ops: seq<Op>, id: RowId)
    requires id in t
    ensures id in Run(t, ops) && Preserved(t[id], Run(t, ops)[id])
  {
    if ops != [] {
      HistoryIsKept(t, ops[..|ops| - 1], id);
    }
  }

  /** Each row is updated at most once: never if it was retired, and then it is retired for good. */
  lemma {:induction false} UpdatedAtMostOnce(t: Table, ops: seq<Op>, id: RowId)
    ensures id in t && !t[id].isCurrent ==> Updates(t, ops, id) == 0
    ensures Updates(t, ops, id) <= 1
    ensures Updates(t, ops, id) == 1 ==> id in Run(t, ops) && !Run(t, ops)[id].isCurrent
    ensures id in t && Updates(t, ops, id) == 0 ==> id in Run(t, ops) && Run(t, ops)[id] == t[id]
  {
    if ops != [] {
      UpdatedAtMostOnce(t, ops[..|ops| - 1], id);
    }
  }

  ghost predicate Consistent(t: Table) {
    && (forall a, b :: a in t && b in t && a != b && t[a].application == t[b].application ==>
          t[a].sequence != t[b].sequence)
    && (forall a, b :: a in t && b in t && a != b && t[a].application == t[b].application ==>
          !(t[a].isCurrent && t[b].isCurrent))
  }

  /** Each application has at most one current row and distinct sequence numbers, in every reachable table. */
  lemma {:induction false} OneCurrentRow(t: Table, ops: seq<Op>)
    requires Consistent(t)
    ensures Consistent(Run(t, ops))
  {
    if ops != [] {
      OneCurrentRow(t, ops[..|ops| - 1]);
      ExecuteKeepsConsistent(Run(t, ops[..|ops| - 1]), ops[|ops| - 1]);
    }
  }

  lemma ExecuteKeepsConsistent(t: Table, op: Op)
    requires Consistent(t)
    ensures Consistent(Execute(t, op))
  {
  }

  /**
   The module says an accepted update differs in the flag only. The trigger guarantees
   that exactly when the columns it does not compare were left alone.
   */
  lemma OnlyTheFlagDiffersIff(t: Table, id: RowId, row: Score)
    requires Accepts(t, Update(id, id, row))
    ensures row == t[id].(isCurrent := false) <==> row.rest == t[id].rest
  {
  }

  /** Such a column can be rewritten in the one retiring update, and never again. */
  lemma {:induction false} RestChangesOnceAtMost(t: Table, id: RowId, row: Score, ops: seq<Op>)
    requires id in t && t[id].isCurrent && row == t[id].(isCurrent := false, rest := row.rest)
    ensures Accepts(t, Update(id, id, row))
    ensures
      var t' := Execute(t, Update(id, id, row));
      id in Run(t', ops) && Run(t', ops)[id] == row
  {
    HistoryIsKept(Execute(t, Update(id, id, row)), ops, id);
  }
}
