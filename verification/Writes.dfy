/// First-class writes: the local copy-on-write data set, and the memory engine's in-place
/// tables with restore (`crates/dol-core/src/data/write.rs`, `engines/memory/src/write.rs`).

module RowWrites {
  import opened Results
  import opened Semantics
  import opened Models
  import opened Expressions
  import opened Plans
  import opened Uniqueness

  datatype Assignment = Assignment(field: nat, expression: Prepared)

  datatype LogicalWrite =
    | Insert(model: ModelDef, row: Row)
    | InsertMany(model: ModelDef, rows: seq<Row>)
    | Update(model: ModelDef, assignments: seq<Assignment>, condition: Option<Prepared>)
    | Delete(model: ModelDef, condition: Option<Prepared>)

  predicate UsableCondition(condition: Option<Prepared>) {
    condition.Some? ==> WellFormed(condition.value)
  }

  predicate UsableAssignments(assignments: seq<Assignment>) {
    forall i | 0 <= i < |assignments| :: WellFormed(assignments[i].expression)
  }

  predicate UsableWrite(write: LogicalWrite) {
    match write
    case Update(_, assignments, condition) => UsableAssignments(assignments) && UsableCondition(condition)
    case Delete(_, condition) => UsableCondition(condition)
    case _ => true
  }

  /** How rows are evaluated: `strict` refuses pipeline dependencies before evaluating. */
  datatype Evaluator = Evaluator(host: Host, parameters: Parameters, strict: bool, maxAffected: Option<nat>)

  // ----- one row -----

  function EvaluateOn(ev: Evaluator, e: Prepared, row: Row): Result<Datum>
    requires WellFormed(e)
  {
    EvaluateDatum(e, Runtime(ev.host, EvalContext([row], [false], ev.parameters), NoResolver))
  }

  function Selected(ev: Evaluator, condition: Option<Prepared>, row: Row): Result<bool>
    requires UsableCondition(condition)
  {
    if condition.None? then Success(true)
    else if ev.strict && (!NoExists(condition.value) || condition.value.outerScopes != 0)
      then Failure("MEMORY-WRITE-003")
    else
      var datum :- EvaluateOn(ev, condition.value, row);
      Keeps(datum)
  }

  function AssignedValues(ev: Evaluator, assignments: seq<Assignment>, row: Row): (r: Result<seq<Datum>>)
    requires UsableAssignments(assignments)
    ensures r.Success? ==> |r.value| == |assignments|
  {
    if assignments == [] then Success([])
    else
      var first :- EvaluateOn(ev, assignments[0].expression, row);
      var rest :- AssignedValues(ev, assignments[1..], row);
      Success([first] + rest)
  }

  /** A field takes only a datum of its type and presence. */
  function SetField(row: Row, field: nat, datum: Datum): Result<Row> {
    if field >= |row.model.fields| then Failure("RUNTIME-008")
    else if !ValidDatum(row.model.fields[field].ty, row.model.fields[field].presence, datum) then Failure("RUNTIME")
    else if field >= |row.values| then Failure("RUNTIME-008")
    else Success(row.(values := row.values[field := datum]))
  }

  function SetFields(row: Row, assignments: seq<Assignment>, values: seq<Datum>): Result<Row>
    requires |assignments| == |values|
    decreases |values|
  {
    if values == [] then Success(row)
    else
      var next :- SetField(row, assignments[0].field, values[0]);
      SetFields(next, assignments[1..], values[1..])
  }

  /** The row after the update, every assigned value computed from the row before it. */
  function UpdateRow(ev: Evaluator, assignments: seq<Assignment>, row: Row): Result<Row>
    requires UsableAssignments(assignments)
  {
    var values :- AssignedValues(ev, assignments, row);
    SetFields(row, assignments, values)
  }

  predicate Exceeds(limit: Option<nat>, affected: nat) { limit.Some? && affected > limit.value }

  // ----- all rows -----

  /** The first `n` rows after an update, and how many of them changed. */
  function Updated(ev: Evaluator, assignments: seq<Assignment>, condition: Option<Prepared>, rows: seq<Row>, n: nat)
    : (r: Result<(seq<Row>, nat)>)
    requires UsableAssignments(assignments) && UsableCondition(condition) && n <= |rows|
    ensures r.Success? ==> |r.value.0| == n && r.value.1 <= n
  {
    if n == 0 then Success(([], 0))
    else
      var (before, affected) :- Updated(ev, assignments, condition, rows, n - 1);
      var selected :- Selected(ev, condition, rows[n - 1]);
      if !selected then Success((before + [rows[n - 1]], affected))
      else if Exceeds(ev.maxAffected, affected + 1) then Failure("ENGINE-LIMIT-004")
      else
        var row :- UpdateRow(ev, assignments, rows[n - 1]);
        Success((before + [row], affected + 1))
  }

  lemma {:induction false} UpdatedFails(ev: Evaluator, assignments: seq<Assignment>, condition: Option<Prepared>,
      rows: seq<Row>, k: nat, n: nat)
    requires UsableAssignments(assignments) && UsableCondition(condition) && k <= n <= |rows|
    requires Updated(ev, assignments, condition, rows, k).Failure?
    ensures Updated(ev, assignments, condition, rows, n).Failure?
    decreases n
  {
    hide UpdateRow, Selected;
    if k < n {
      UpdatedFails(ev, assignments, condition, rows, k, n - 1);
    }
  }

  /** Which of the first `n` rows a delete selects. */
  function Marked(ev: Evaluator, condition: Option<Prepared>, rows: seq<Row>, n: nat): (r: Result<seq<bool>>)
    requires UsableCondition(condition) && n <= |rows|
    ensures r.Success? ==> |r.value| == n
  {
    if n == 0 then Success([])
    else
      var before :- Marked(ev, condition, rows, n - 1);
      var selected :- Selected(ev, condition, rows[n - 1]);
      Success(before + [selected])
  }

  lemma {:induction false} MarkedFails(ev: Evaluator, condition: Option<Prepared>, rows: seq<Row>, k: nat, n: nat)
    requires UsableCondition(condition) && k <= n <= |rows|
    requires Marked(ev, condition, rows, k).Failure?
    ensures Marked(ev, condition, rows, n).Failure?
    decreases n
  {
    hide Selected;
    if k < n {
      MarkedFails(ev, condition, rows, k, n - 1);
    }
  }

  function CountTrue(flags: seq<bool>): nat {
    if flags == [] then 0 else (if flags[0] then 1 else 0) + CountTrue(flags[1..])
  }

  method MarkRows(ev: Evaluator, condition: Option<Prepared>, rows: seq<Row>) returns (r: Result<seq<bool>>)
    requires UsableCondition(condition)
    ensures SameOutcome(r, Marked(ev, condition, rows, |rows|))
    ensures r.Success? ==> |r.value| == |rows|
  {
    hide Selected;
    var flags: seq<bool> := [];
    for i := 0 to |rows|
      invariant Marked(ev, condition, rows, i) == Success(flags)
    {
      var selected := Selected(ev, condition, rows[i]);
      if selected.Failure? {
        assert Marked(ev, condition, rows, i + 1).Failure?;
        MarkedFails(ev, condition, rows, i + 1, |rows|);
        return Failure(selected.code);
      }
      flags := flags + [selected.value];
    }
    return Success(flags);
  }

  // ----- what a write does to the rows -----

  /** The write limit allows this many rows to change. */
  predicate Affordable(ev: Evaluator, affected: nat) {
    ev.maxAffected.None? || affected <= ev.maxAffected.value
  }

  /** The condition can be decided for the row. */
  predicate Decides(ev: Evaluator, condition: Option<Prepared>, row: Row)
    requires UsableCondition(condition)
  {
    condition.Some? ==>
      && (ev.strict ==> condition.value.outerScopes == 0
                        && forall i | 0 <= i < |condition.value.nodes| :: !condition.value.nodes[i].kind.ExistsK?)
      && EvaluateOn(ev, condition.value, row).Success?
      && EvaluateOn(ev, condition.value, row).value.Val?
      && EvaluateOn(ev, condition.value, row).value.value.TruthV?
  }

  /** There is no condition, or it is True of the row. */
  predicate Picks(ev: Evaluator, condition: Option<Prepared>, row: Row)
    requires UsableCondition(condition)
  {
    condition.None? || EvaluateOn(ev, condition.value, row) == Success(Val(TruthV(True)))
  }

  ghost function Picked(ev: Evaluator, condition: Option<Prepared>, rows: seq<Row>): set<nat>
    requires UsableCondition(condition)
  {
    set k: nat | k < |rows| && Picks(ev, condition, rows[k])
  }

  /** The rows not picked are left, in order, and the others are counted. */
  ghost predicate RowsDeleted(ev: Evaluator, condition: Option<Prepared>, before: seq<Row>, after: seq<Row>,
      affected: nat)
    requires UsableCondition(condition)
  {
    && (forall k | 0 <= k < |before| :: Decides(ev, condition, before[k]))
    && |after| + affected == |before| && affected == |Picked(ev, condition, before)|
    && exists at :: Embeds(after, before, at)
                    && forall k | 0 <= k < |before| :: k in at <==> !Picks(ev, condition, before[k])
  }

  predicate LastTo(assignments: seq<Assignment>, i: nat)
    requires i < |assignments|
  {
    forall j | i < j < |assignments| :: assignments[j].field != assignments[i].field
  }

  /** Every assigned expression has a datum over the row that its field takes. */
  predicate Assignable(ev: Evaluator, assignments: seq<Assignment>, row: Row)
    requires UsableAssignments(assignments)
  {
    forall i | 0 <= i < |assignments| :: Fits(ev, assignments[i], row)
  }

  predicate Fits(ev: Evaluator, assignment: Assignment, row: Row)
    requires WellFormed(assignment.expression)
  {
    var datum, f := EvaluateOn(ev, assignment.expression, row), assignment.field;
    && datum.Success? && f < |row.model.fields| && f < |row.values|
    && ValidDatum(row.model.fields[f].ty, row.model.fields[f].presence, datum.value)
  }

  /** Every field holds the datum of the last assignment to it, over the row before, or what it held. */
  ghost predicate Assigned(ev: Evaluator, assignments: seq<Assignment>, before: Row, after: Row)
    requires UsableAssignments(assignments)
  {
    && Assignable(ev, assignments, before)
    && after.model == before.model && |after.values| == |before.values|
    && (forall i | 0 <= i < |assignments| && LastTo(assignments, i) ::
          EvaluateOn(ev, assignments[i].expression, before) == Success(after.values[assignments[i].field]))
    && (forall f | 0 <= f < |before.values| && (forall i | 0 <= i < |assignments| :: assignments[i].field != f) ::
          after.values[f] == before.values[f])
  }

  /** The picked rows are assigned and counted, the others stay. */
  ghost predicate RowsUpdated(ev: Evaluator, assignments: seq<Assignment>, condition: Option<Prepared>,
      before: seq<Row>, after: seq<Row>, affected: nat)
    requires UsableAssignments(assignments) && UsableCondition(condition)
  {
    && |after| == |before| && affected == |Picked(ev, condition, before)|
    && (forall k | 0 <= k < |before| :: Decides(ev, condition, before[k]))
    && (forall k | 0 <= k < |before| ::
          if Picks(ev, condition, before[k]) then Assigned(ev, assignments, before[k], after[k])
          else after[k] == before[k])
  }

  /** What a successful write leaves and counts. */
  ghost predicate Written(ev: Evaluator, write: LogicalWrite, before: seq<Row>, after: seq<Row>, affected: nat)
    requires UsableWrite(write)
  {
    match write
    case Insert(_, row) => after == before + [row] && affected == 1
    case InsertMany(_, rows) => after == before + rows && affected == |rows|
    case Update(_, assignments, condition) => RowsUpdated(ev, assignments, condition, before, after, affected)
    case Delete(_, condition) => RowsDeleted(ev, condition, before, after, affected)
  }

  lemma SelectedIs(ev: Evaluator, condition: Option<Prepared>, row: Row)
    requires UsableCondition(condition)
    ensures Selected(ev, condition, row).Success? <==> Decides(ev, condition, row)
    ensures Selected(ev, condition, row).Success? ==>
              (Selected(ev, condition, row).value <==> Picks(ev, condition, row))
  {
    hide EvaluateDatum;
  }

  lemma {:induction false} MarkedIs(ev: Evaluator, condition: Option<Prepared>, rows: seq<Row>, n: nat)
    requires UsableCondition(condition) && n <= |rows|
    ensures Marked(ev, condition, rows, n).Success? <==> forall k | 0 <= k < n :: Decides(ev, condition, rows[k])
    ensures Marked(ev, condition, rows, n).Success? ==>
              forall k | 0 <= k < n :: Marked(ev, condition, rows, n).value[k] == Picks(ev, condition, rows[k])
    decreases n
  {
    hide Selected, Decides, Picks;
    if n > 0 {
      MarkedIs(ev, condition, rows, n - 1);
      SelectedIs(ev, condition, rows[n - 1]);
    }
  }

  lemma {:induction false} CountIs(flags: seq<bool>, places: set<nat>)
    requires forall k: nat :: k in places <==> k < |flags| && flags[k]
    ensures CountTrue(flags) == |places|
    decreases |flags|
  {
    if flags == [] {
      assert places == {};
    } else {
      var last := |flags| - 1;
      CountIs(flags[..last], places - {last});
      assert flags == flags[..last] + [flags[last]];
      CountAppend(flags[..last], flags[last]);
    }
  }

  lemma {:induction false} CountAppend(flags: seq<bool>, flag: bool)
    ensures CountTrue(flags + [flag]) == CountTrue(flags) + (if flag then 1 else 0)
  {
    if flags == [] {
      assert flags + [flag] == [flag] && [flag][1..] == [];
    } else {
      assert (flags + [flag])[1..] == flags[1..] + [flag];
      CountAppend(flags[1..], flag);
    }
  }

  lemma {:induction false} RetainCounts(rows: seq<Row>, drop: seq<bool>)
    requires |rows| == |drop|
    ensures |Retain(rows, drop)| + CountTrue(drop) == |rows|
  {
    if rows != [] {
      RetainCounts(rows[1..], drop[1..]);
    }
  }

  /** Retaining by the marks of a condition deletes the picked rows. */
  lemma RetainDeletes(ev: Evaluator, condition: Option<Prepared>, rows: seq<Row>)
    requires UsableCondition(condition) && Marked(ev, condition, rows, |rows|).Success?
    ensures var drop := Marked(ev, condition, rows, |rows|).value;
            RowsDeleted(ev, condition, rows, Retain(rows, drop), CountTrue(drop))
  {
    hide Marked, Decides, Picks, Retain, CountTrue;
    var drop := Marked(ev, condition, rows, |rows|).value;
    MarkedIs(ev, condition, rows, |rows|);
    CountIs(drop, Picked(ev, condition, rows));
    RetainCounts(rows, drop);
    var at := RetainKeeps(rows, drop);
    assert Embeds(Retain(rows, drop), rows, at);
  }

  lemma {:induction false} ValuesAre(ev: Evaluator, assignments: seq<Assignment>, row: Row)
    requires UsableAssignments(assignments)
    ensures var values := AssignedValues(ev, assignments, row);
            && (values.Success? <==>
                forall i | 0 <= i < |assignments| :: EvaluateOn(ev, assignments[i].expression, row).Success?)
            && (values.Success? ==> forall i | 0 <= i < |assignments| ::
                  EvaluateOn(ev, assignments[i].expression, row) == Success(values.value[i]))
  {
    hide EvaluateOn;
    if assignments != [] {
      ValuesAre(ev, assignments[1..], row);
      assert forall i | 0 < i < |assignments| :: assignments[i] == assignments[1..][i - 1];
    }
  }

  predicate Takes(row: Row, assignment: Assignment, datum: Datum) {
    var f := assignment.field;
    && f < |row.model.fields| && f < |row.values|
    && ValidDatum(row.model.fields[f].ty, row.model.fields[f].presence, datum)
  }

  /** Setting fields one after another: the last datum for a field stays. */
  lemma {:induction false} FieldsSet(row: Row, assignments: seq<Assignment>, values: seq<Datum>)
    requires |assignments| == |values|
    ensures var r := SetFields(row, assignments, values);
            && (r.Success? <==> forall i | 0 <= i < |values| :: Takes(row, assignments[i], values[i]))
            && (r.Success? ==>
                  && r.value.model == row.model && |r.value.values| == |row.values|
                  && (forall i | 0 <= i < |values| && LastTo(assignments, i) ::
                        r.value.values[assignments[i].field] == values[i])
                  && (forall f | 0 <= f < |row.values| && (forall i | 0 <= i < |values| :: assignments[i].field != f) ::
                        r.value.values[f] == row.values[f]))
    decreases |values|
  {
    hide ValidDatum;
    if values != [] {
      var next := SetField(row, assignments[0].field, values[0]);
      var rest, data := assignments[1..], values[1..];
      assert forall i | 0 < i < |values| :: assignments[i] == rest[i - 1] && values[i] == data[i - 1];
      assert forall i | 0 <= i < |data| :: rest[i] == assignments[i + 1] && data[i] == values[i + 1];
      if next.Success? {
        FieldsSet(next.value, rest, data);
        assert forall i | 0 < i < |values| :: LastTo(assignments, i) <==> LastTo(rest, i - 1);
      }
    }
  }

  lemma RowAssigned(ev: Evaluator, assignments: seq<Assignment>, row: Row)
    requires UsableAssignments(assignments)
    ensures UpdateRow(ev, assignments, row).Success? <==> Assignable(ev, assignments, row)
    ensures UpdateRow(ev, assignments, row).Success? ==>
              Assigned(ev, assignments, row, UpdateRow(ev, assignments, row).value)
  {
    hide EvaluateOn, ValidDatum, LastTo, AssignedValues, SetFields;
    ValuesAre(ev, assignments, row);
    var values := AssignedValues(ev, assignments, row);
    if values.Success? {
      FieldsSet(row, assignments, values.value);
      assert forall i | 0 <= i < |assignments| ::
          Fits(ev, assignments[i], row) <==> Takes(row, assignments[i], values.value[i]);
    }
  }

  lemma PickedMore(ev: Evaluator, condition: Option<Prepared>, rows: seq<Row>, n: nat)
    requires UsableCondition(condition) && n < |rows|
    ensures |Picked(ev, condition, rows[..n + 1])|
         == |Picked(ev, condition, rows[..n])| + (if Picks(ev, condition, rows[n]) then 1 else 0)
  {
    hide Picks;
    var before, after := Picked(ev, condition, rows[..n]), Picked(ev, condition, rows[..n + 1]);
    assert after == if Picks(ev, condition, rows[n]) then before + {n} else before;
  }

  ghost predicate Updatable(ev: Evaluator, assignments: seq<Assignment>, condition: Option<Prepared>, rows: seq<Row>)
    requires UsableAssignments(assignments) && UsableCondition(condition)
  {
    && (forall k | 0 <= k < |rows| :: Decides(ev, condition, rows[k]))
    && (forall k | 0 <= k < |rows| && Picks(ev, condition, rows[k]) :: Assignable(ev, assignments, rows[k]))
    && Affordable(ev, |Picked(ev, condition, rows)|)
  }

  lemma UpdatableMore(ev: Evaluator, assignments: seq<Assignment>, condition: Option<Prepared>, rows: seq<Row>, n: nat)
    requires UsableAssignments(assignments) && UsableCondition(condition) && n < |rows|
    ensures Updatable(ev, assignments, condition, rows[..n + 1]) <==>
              && Updatable(ev, assignments, condition, rows[..n])
              && Decides(ev, condition, rows[n])
              && (Picks(ev, condition, rows[n]) ==>
                    && Assignable(ev, assignments, rows[n])
                    && Affordable(ev, |Picked(ev, condition, rows[..n])| + 1))
  {
    hide Decides, Picks, Assignable, Picked;
    PickedMore(ev, condition, rows, n);
    assert forall k | 0 <= k < n :: rows[..n + 1][k] == rows[..n][k];
    assert rows[..n + 1][n] == rows[n];
  }

  lemma RowsUpdatedMore(ev: Evaluator, assignments: seq<Assignment>, condition: Option<Prepared>, rows: seq<Row>,
      n: nat, before: seq<Row>, affected: nat, row: Row)
    requires UsableAssignments(assignments) && UsableCondition(condition) && n < |rows|
    requires RowsUpdated(ev, assignments, condition, rows[..n], before, affected) && Decides(ev, condition, rows[n])
    requires if Picks(ev, condition, rows[n]) then Assigned(ev, assignments, rows[n], row) else row == rows[n]
    ensures RowsUpdated(ev, assignments, condition, rows[..n + 1], before + [row],
                        affected + if Picks(ev, condition, rows[n]) then 1 else 0)
  {
    hide Decides, Picks, Assigned, Picked;
    PickedMore(ev, condition, rows, n);
    assert forall k | 0 <= k < n :: rows[..n + 1][k] == rows[..n][k];
    assert rows[..n + 1][n] == rows[n];
  }

  /** An update succeeds on exactly the updatable rows, and then it has updated them. */
  lemma {:induction false} UpdatedIs(ev: Evaluator, assignments: seq<Assignment>, condition: Option<Prepared>,
      rows: seq<Row>, n: nat)
    requires UsableAssignments(assignments) && UsableCondition(condition) && n <= |rows|
    ensures var r := Updated(ev, assignments, condition, rows, n);
            && (r.Success? <==> Updatable(ev, assignments, condition, rows[..n]))
            && (r.Success? ==> RowsUpdated(ev, assignments, condition, rows[..n], r.value.0, r.value.1))
    decreases n
  {
    hide Selected, UpdateRow, Decides, Picks, Assignable, Assigned;
    if n == 0 {
      assert rows[..0] == [] && Picked(ev, condition, rows[..0]) == {};
    } else {
      UpdatedIs(ev, assignments, condition, rows, n - 1);
      SelectedIs(ev, condition, rows[n - 1]);
      RowAssigned(ev, assignments, rows[n - 1]);
      UpdatableMore(ev, assignments, condition, rows, n - 1);
      var before := Updated(ev, assignments, condition, rows, n - 1);
      if Updated(ev, assignments, condition, rows, n).Success? {
        var row := Updated(ev, assignments, condition, rows, n).value.0[n - 1];
        RowsUpdatedMore(ev, assignments, condition, rows, n - 1, before.value.0, before.value.1, row);
      }
      hide Updatable, RowsUpdated;
    }
  }

  /** There is one outcome of an assignment. */
  lemma AssignedOnce(ev: Evaluator, assignments: seq<Assignment>, before: Row, after: Row, other: Row)
    requires UsableAssignments(assignments)
    requires Assigned(ev, assignments, before, after) && Assigned(ev, assignments, before, other)
    ensures after == other
  {
    hide EvaluateOn, Assignable, LastTo;
    forall f | 0 <= f < |before.values| ensures after.values[f] == other.values[f] {
      if i :| 0 <= i < |assignments| && assignments[i].field == f {
        var last := LastIndex(assignments, i);
        assert EvaluateOn(ev, assignments[last].expression, before) == Success(after.values[f]);
      }
    }
    assert after.values == other.values;
  }

  lemma {:induction false} LastIndex(assignments: seq<Assignment>, i: nat) returns (last: nat)
    requires i < |assignments|
    ensures last < |assignments| && assignments[last].field == assignments[i].field && LastTo(assignments, last)
    decreases |assignments| - i
  {
    last := i;
    if j :| i < j < |assignments| && assignments[j].field == assignments[i].field {
      last := LastIndex(assignments, j);
    }
  }

  /** Rows that are the update of the rows before are what an update computes. */
  lemma UpdatedOnce(ev: Evaluator, assignments: seq<Assignment>, condition: Option<Prepared>, rows: seq<Row>,
      after: seq<Row>, affected: nat)
    requires UsableAssignments(assignments) && UsableCondition(condition)
    requires RowsUpdated(ev, assignments, condition, rows, after, affected) && Affordable(ev, affected)
    ensures Updated(ev, assignments, condition, rows, |rows|) == Success((after, affected))
  {
    hide Decides, Picks, Updated;
    assert rows[..|rows|] == rows;
    assert Updatable(ev, assignments, condition, rows) by { hide Assignable; }
    UpdatedIs(ev, assignments, condition, rows, |rows|);
    var (computed, count) := Updated(ev, assignments, condition, rows, |rows|).value;
    hide Assigned;
    forall k | 0 <= k < |rows| ensures computed[k] == after[k] {
      if Picks(ev, condition, rows[k]) {
        AssignedOnce(ev, assignments, rows[k], computed[k], after[k]);
      }
    }
    assert computed == after;
  }
}

module Writes {
  import opened Results
  import opened Semantics
  import opened Models
  import opened Expressions
  import opened Plans
  import opened Uniqueness
  import opened RowWrites

  // ----- the local data set -----

  /** A local data set evaluates without parameters, dependency checks or limits. */
  function LocalEvaluator(host: Host): Evaluator { Evaluator(host, map[], false, None) }

  /** What the local data set becomes and how many rows were affected; a failure leaves it as it was. */
  ghost function LocalOutcome(ev: Evaluator, model: ModelDef, rows: seq<Row>, write: LogicalWrite)
    : Result<(seq<Row>, nat)>
    requires UsableWrite(write)
  {
    match write
    case Insert(_, row) =>
      if ValidDataset(rows + [row], model) then Success((rows + [row], 1)) else Failure("DATASET")
    case InsertMany(_, more) =>
      if ValidDataset(more, model) && ValidDataset(rows + more, model) then Success((rows + more, |more|))
      else Failure("DATASET")
    case Update(_, assignments, condition) =>
      if !ValidRecords(rows, model) then Failure("DATASET")
      else
        var updated :- Updated(ev, assignments, condition, rows, |rows|);
        if ValidDataset(updated.0, model) then Success(updated) else Failure("DATASET")
    case Delete(_, condition) =>
      if !ValidRecords(rows, model) then Failure("DATASET")
      else
        var drop :- Marked(ev, condition, rows, |rows|);
        Success((Retain(rows, drop), CountTrue(drop)))
  }

  lemma UpdateFails(ev: Evaluator, model: ModelDef, rows: seq<Row>, assignments: seq<Assignment>,
      condition: Option<Prepared>)
    requires UsableAssignments(assignments) && UsableCondition(condition)
    requires Updated(ev, assignments, condition, rows, |rows|).Failure?
    ensures LocalOutcome(ev, model, rows, Update(model, assignments, condition)).Failure?
  {
    hide Updated, ValidRecords;
  }

  /** Writes a local data set accepts: those that leave a valid data set, for what they read can be decided. */
  ghost predicate LocallyAccepted(ev: Evaluator, model: ModelDef, rows: seq<Row>, write: LogicalWrite)
    requires UsableWrite(write)
  {
    match write
    case Insert(_, row) => ValidDataset(rows + [row], model)
    case InsertMany(_, more) => ValidDataset(more, model) && ValidDataset(rows + more, model)
    case Update(_, assignments, condition) =>
      && (forall k | 0 <= k < |rows| :: rows[k].model == model && ValidRow(rows[k]))
      && exists after, n ::
           RowsUpdated(ev, assignments, condition, rows, after, n) && Affordable(ev, n)
           && ValidDataset(after, model)
    case Delete(_, condition) =>
      && (forall k | 0 <= k < |rows| :: rows[k].model == model && ValidRow(rows[k]))
      && forall k | 0 <= k < |rows| :: Decides(ev, condition, rows[k])
  }

  lemma UpdateDone(ev: Evaluator, assignments: seq<Assignment>, condition: Option<Prepared>, rows: seq<Row>,
      model: ModelDef)
    requires UsableAssignments(assignments) && UsableCondition(condition)
    ensures var r := Updated(ev, assignments, condition, rows, |rows|);
            && (r.Success? ==> RowsUpdated(ev, assignments, condition, rows, r.value.0, r.value.1))
            && (r.Success? && ValidDataset(r.value.0, model) <==>
                exists after, n ::
                  RowsUpdated(ev, assignments, condition, rows, after, n) && Affordable(ev, n)
                  && ValidDataset(after, model))
  {
    hide Updated, RowsUpdated, ValidDataset;
    assert rows[..|rows|] == rows;
    UpdatedIs(ev, assignments, condition, rows, |rows|);
    UpdatedWithin(ev, assignments, condition, rows);
    if after, n :|
      RowsUpdated(ev, assignments, condition, rows, after, n) && Affordable(ev, n)
      && ValidDataset(after, model)
    {
      UpdatedOnce(ev, assignments, condition, rows, after, n);
    }
  }

  lemma UpdatedWithin(ev: Evaluator, assignments: seq<Assignment>, condition: Option<Prepared>, rows: seq<Row>)
    requires UsableAssignments(assignments) && UsableCondition(condition)
    ensures var r := Updated(ev, assignments, condition, rows, |rows|);
            r.Success? ==> Affordable(ev, r.value.1)
  {
    hide Updated, Decides, Picks, Assignable, Assigned;
    assert rows[..|rows|] == rows;
    UpdatedIs(ev, assignments, condition, rows, |rows|);
  }

  /** The local outcome of a write is what the write does, on exactly the accepted writes. */
  lemma LocalDoes(ev: Evaluator, model: ModelDef, rows: seq<Row>, write: LogicalWrite)
    requires UsableWrite(write)
    ensures var outcome := LocalOutcome(ev, model, rows, write);
            && (outcome.Success? <==> LocallyAccepted(ev, model, rows, write))
            && (outcome.Success? ==> Written(ev, write, rows, outcome.value.0, outcome.value.1))
  {
    hide ValidDataset, Updated, Marked, Decides, RowsUpdated, RowsDeleted, ValidRow, Retain, CountTrue;
    match write
    case Update(_, assignments, condition) => UpdateDone(ev, assignments, condition, rows, model);
    case Delete(_, condition) =>
      MarkedIs(ev, condition, rows, |rows|);
      if Marked(ev, condition, rows, |rows|).Success? {
        RetainDeletes(ev, condition, rows);
      }
    case _ =>
  }

  class DataSet {
    const model: ModelDef
    const ev: Evaluator
    const hash: TupleHash
    var values: seq<Row>

    constructor (model: ModelDef, host: Host, hash: TupleHash)
      ensures this.model == model && this.ev == LocalEvaluator(host) && this.hash == hash && values == []
    {
      this.model := model;
      this.ev := LocalEvaluator(host);
      this.hash := hash;
      values := [];
    }

    /** Pushes, validates, and pops again on failure. */
    method ApplyInsert(row: Row) returns (r: Result<nat>)
      requires RespectsEquality(hash)
      modifies this`values
      ensures var outcome := LocalOutcome(ev, model, old(values), Insert(model, row));
              if outcome.Success? then r == Success(outcome.value.1) && values == outcome.value.0
              else r.Failure? && values == old(values)
      ensures r.Success? ==> Written(ev, Insert(model, row), old(values), values, r.value)
      ensures r.Success? <==> LocallyAccepted(ev, model, old(values), Insert(model, row))
    {
      LocalDoes(ev, model, values, Insert(model, row));
      hide ValidDataset, RespectsEquality;
      if row.model != model || !ValidRow(row) {
        LastInvalid(values, row, model);
        return Failure("DATASET-RECORD-001");
      }
      values := values + [row];
      var valid := ValidateDynamicDataset(model, values, hash);
      if valid.Failure? {
        values := values[..|values| - 1];
        return Failure(valid.code);
      }
      return Success(1);
    }

    /** Validates the new rows alone, extends, validates again, and truncates on failure. */
    method ApplyInsertMany(more: seq<Row>) returns (r: Result<nat>)
      requires RespectsEquality(hash)
      modifies this`values
      ensures var outcome := LocalOutcome(ev, model, old(values), InsertMany(model, more));
              if outcome.Success? then r == Success(outcome.value.1) && values == outcome.value.0
              else r.Failure? && values == old(values)
      ensures r.Success? ==> Written(ev, InsertMany(model, more), old(values), values, r.value)
      ensures r.Success? <==> LocallyAccepted(ev, model, old(values), InsertMany(model, more))
    {
      LocalDoes(ev, model, values, InsertMany(model, more));
      hide ValidDataset, RespectsEquality;
      var alone := ValidateDynamicDataset(model, more, hash);
      if alone.Failure? {
        return Failure(alone.code);
      }
      var originalLen := |values|;
      values := values + more;
      var valid := ValidateDynamicDataset(model, values, hash);
      if valid.Failure? {
        values := values[..originalLen];
        return Failure(valid.code);
      }
      return Success(|more|);
    }

    /** Updates a candidate copy and swaps it in only when it is valid. */
    method ApplyUpdate(assignments: seq<Assignment>, condition: Option<Prepared>) returns (r: Result<nat>)
      requires RespectsEquality(hash) && UsableAssignments(assignments) && UsableCondition(condition)
      modifies this`values
      ensures var outcome := LocalOutcome(ev, model, old(values), Update(model, assignments, condition));
              if outcome.Success? then r == Success(outcome.value.1) && values == outcome.value.0
              else r.Failure? && values == old(values)
      ensures r.Success? ==> Written(ev, Update(model, assignments, condition), old(values), values, r.value)
      ensures r.Success? <==> LocallyAccepted(ev, model, old(values), Update(model, assignments, condition))
    {
      LocalDoes(ev, model, values, Update(model, assignments, condition));
      hide ValidDataset, RespectsEquality, ValidRecords, Selected, UpdateRow, UsableAssignments, UsableCondition,
        Written, LocallyAccepted;
      if !ValidRecords(values, model) {
        return Failure("DATASET-RECORD-001");
      }
      var candidate := values;
      var affected := 0;
      for i := 0 to |values|
        invariant values == old(values) && i <= |values|
        invariant |candidate| == |values| && candidate[i..] == values[i..]
        invariant Updated(ev, assignments, condition, values, i) == Success((candidate[..i], affected))
      {
        hide LocalOutcome, Updated;
        Replaces(candidate, values, i, candidate[i]);
        var step := StepUpdate(ev, assignments, condition, values, i, candidate[..i], affected, candidate[i]);
        if step.Failure? {
          assert LocalOutcome(ev, model, values, Update(model, assignments, condition)).Failure? by {
            UpdateFails(ev, model, values, assignments, condition);
          }
          return Failure(step.code);
        }
        Replaces(candidate, values, i, step.value.0);
        candidate := candidate[i := step.value.0];
        affected := step.value.1;
      }
      assert candidate[..|values|] == candidate;
      var valid := ValidateDynamicDataset(model, candidate, hash);
      if valid.Failure? {
        return Failure(valid.code);
      }
      values := candidate;
      return Success(affected);
    }

    /** Selects first, then retains in place; the result is never validated. */
    method ApplyDelete(condition: Option<Prepared>) returns (r: Result<nat>)
      requires UsableCondition(condition)
      modifies this`values
      ensures var outcome := LocalOutcome(ev, model, old(values), Delete(model, condition));
              if outcome.Success? then r == Success(outcome.value.1) && values == outcome.value.0
              else r.Failure? && values == old(values)
      ensures r.Success? ==> Written(ev, Delete(model, condition), old(values), values, r.value)
      ensures r.Success? <==> LocallyAccepted(ev, model, old(values), Delete(model, condition))
      ensures r.Success? && ValidDataset(old(values), model) ==> ValidDataset(values, model)
    {
      LocalDoes(ev, model, values, Delete(model, condition));
      hide ValidDataset, ValidRecords, Selected, Written, LocallyAccepted;
      if !ValidRecords(values, model) {
        return Failure("DATASET-RECORD-001");
      }
      var drop := MarkRows(ev, condition, values);
      if drop.Failure? {
        return Failure(drop.code);
      }
      if ValidDataset(values, model) {
        DeletionStaysValid(values, drop.value, model);
      }
      values := Retain(values, drop.value);
      return Success(CountTrue(drop.value));
    }
  }

  lemma LastInvalid(rows: seq<Row>, row: Row, model: ModelDef)
    requires row.model != model || !ValidRow(row)
    ensures !ValidDataset(rows + [row], model)
  {
    assert (rows + [row])[|rows|] == row;
  }

  /** Replacing row `i` moves the boundary between the rows that are done and those that are not. */
  lemma Replaces(now: seq<Row>, rows: seq<Row>, i: nat, row: Row)
    requires |now| == |rows| && i < |rows| && now[i..] == rows[i..]
    ensures now[i] == rows[i]
    ensures now[i := row][..i + 1] == now[..i] + [row] && now[i := row][i + 1..] == rows[i + 1..]
  {
    assert now[i..][0] == rows[i..][0] && now[i..][1..] == rows[i..][1..];
  }

  /** One turn of an update loop over the row at `i`. */
  method StepUpdate(ev: Evaluator, assignments: seq<Assignment>, condition: Option<Prepared>, rows: seq<Row>, i: nat,
                    ghost before: seq<Row>, affected: nat, row: Row) returns (r: Result<(Row, nat)>)
    requires UsableAssignments(assignments) && UsableCondition(condition) && i < |rows| && row == rows[i]
    requires Updated(ev, assignments, condition, rows, i) == Success((before, affected))
    ensures r.Failure? ==> Updated(ev, assignments, condition, rows, |rows|).Failure?
    ensures r.Success? ==>
              Updated(ev, assignments, condition, rows, i + 1) == Success((before + [r.value.0], r.value.1))
  {
    hide Selected, UpdateRow;
    var selected := Selected(ev, condition, row);
    if selected.Failure? {
      assert Updated(ev, assignments, condition, rows, i + 1).Failure?;
      UpdatedFails(ev, assignments, condition, rows, i + 1, |rows|);
      return Failure(selected.code);
    }
    if !selected.value {
      return Success((row, affected));
    }
    if Exceeds(ev.maxAffected, affected + 1) {
      assert Updated(ev, assignments, condition, rows, i + 1).Failure?;
      UpdatedFails(ev, assignments, condition, rows, i + 1, |rows|);
      return Failure("ENGINE-LIMIT-004");
    }
    var updated := UpdateRow(ev, assignments, row);
    if updated.Failure? {
      assert Updated(ev, assignments, condition, rows, i + 1).Failure?;
      UpdatedFails(ev, assignments, condition, rows, i + 1, |rows|);
      return Failure(updated.code);
    }
    return Success((updated.value, affected + 1));
  }

  // ----- the memory engine's tables -----

  /** Registering a definition again is accepted only when it is the same definition. */
  function RegisterDefinition(tables: Tables, model: ModelDef): Result<Tables> {
    if model.key !in tables then Success(tables[model.key := MemoryTable(model, [])])
    else if tables[model.key].model == model then Success(tables)
    else Failure("MEMORY-STORE-002")
  }

  function TableOf(tables: Tables, model: ModelDef): (r: Result<MemoryTable>)
    ensures r.Success? ==> model.key in tables && tables[model.key] == r.value && r.value.model == model
  {
    if model.key !in tables then Failure("MEMORY-WRITE-001")
    else if tables[model.key].model != model then Failure("MEMORY-WRITE-002")
    else Success(tables[model.key])
  }

  /** The rows of the written table and how many were affected, before any cross-table check. */
  ghost function TableOutcome(ev: Evaluator, tables: Tables, write: LogicalWrite): Result<(seq<Row>, nat)>
    requires UsableWrite(write)
  {
    var model := write.model;
    match write
    case Insert(_, row) =>
      if Exceeds(ev.maxAffected, 1) then Failure("ENGINE-LIMIT-004")
      else
        var registered :- RegisterDefinition(tables, model);
        var table :- TableOf(registered, model);
        if ValidDataset(table.rows + [row], model) then Success((table.rows + [row], 1)) else Failure("DATASET")
    case InsertMany(_, more) =>
      if Exceeds(ev.maxAffected, |more|) then Failure("ENGINE-LIMIT-004")
      else
        var registered :- RegisterDefinition(tables, model);
        var table :- TableOf(registered, model);
        if ValidDataset(table.rows + more, model) then Success((table.rows + more, |more|)) else Failure("DATASET")
    case Update(_, assignments, condition) =>
      var table :- TableOf(tables, model);
      var updated :- Updated(ev, assignments, condition, table.rows, |table.rows|);
      if ValidDataset(updated.0, model) then Success(updated) else Failure("DATASET")
    case Delete(_, condition) =>
      var table :- TableOf(tables, model);
      var drop :- Marked(ev, condition, table.rows, |table.rows|);
      if Exceeds(ev.maxAffected, CountTrue(drop)) then Failure("ENGINE-LIMIT-004")
      else if ValidDataset(Retain(table.rows, drop), model) then Success((Retain(table.rows, drop), CountTrue(drop)))
      else Failure("DATASET")
  }

  lemma TableUpdateFails(ev: Evaluator, tables: Tables, model: ModelDef, assignments: seq<Assignment>,
      condition: Option<Prepared>)
    requires UsableAssignments(assignments) && UsableCondition(condition) && TableOf(tables, model).Success?
    requires var rows := tables[model.key].rows; Updated(ev, assignments, condition, rows, |rows|).Failure?
    ensures TableOutcome(ev, tables, Update(model, assignments, condition)).Failure?
  {
    hide Updated;
  }

  /** Rows of the written table, before it exists as well. */
  function RowsBefore(tables: Tables, key: string): seq<Row> {
    if key in tables then tables[key].rows else []
  }

  /** Writes the engine's table accepts: of its own model, within the limit, and leaving a valid data set. */
  ghost predicate TableAccepted(ev: Evaluator, tables: Tables, write: LogicalWrite)
    requires UsableWrite(write)
  {
    var model := write.model;
    var rows := RowsBefore(tables, model.key);
    && (model.key in tables ==> tables[model.key].model == model)
    && match write
       case Insert(_, row) => Affordable(ev, 1) && ValidDataset(rows + [row], model)
       case InsertMany(_, more) => Affordable(ev, |more|) && ValidDataset(rows + more, model)
       case Update(_, assignments, condition) =>
         && model.key in tables
         && exists after, n ::
              RowsUpdated(ev, assignments, condition, rows, after, n) && Affordable(ev, n)
              && ValidDataset(after, model)
       case Delete(_, condition) =>
         && model.key in tables && Affordable(ev, |Picked(ev, condition, rows)|)
         && forall k | 0 <= k < |rows| :: Decides(ev, condition, rows[k])
  }

  /** On a valid table the outcome of a write is what the write does, on exactly the accepted writes. */
  lemma TableDoes(ev: Evaluator, tables: Tables, write: LogicalWrite)
    requires UsableWrite(write)
    ensures var outcome, rows := TableOutcome(ev, tables, write), RowsBefore(tables, write.model.key);
            && (outcome.Success? ==> Written(ev, write, rows, outcome.value.0, outcome.value.1))
            && (ValidDataset(rows, write.model) ==> (outcome.Success? <==> TableAccepted(ev, tables, write)))
  {
    hide ValidDataset, Updated, Marked, Decides, RowsUpdated, Retain, CountTrue, Picks;
    var model, rows := write.model, RowsBefore(tables, write.model.key);
    match write
    case Update(_, assignments, condition) => UpdateDone(ev, assignments, condition, rows, model);
    case Delete(_, condition) =>
      MarkedIs(ev, condition, rows, |rows|);
      var drop := Marked(ev, condition, rows, |rows|);
      if drop.Success? {
        RetainDeletes(ev, condition, rows);
        if ValidDataset(rows, model) {
          DeletionStaysValid(rows, drop.value, model);
        }
      }
    case _ =>
  }

  ghost predicate OnlyTouches(before: Tables, after: Tables, key: string) {
    && (forall k | k in before && k != key :: k in after && after[k] == before[k])
    && (forall k | k in after && k != key :: k in before)
  }

  /** Tables changed in place, row by row; a failed write leaves them half changed until they are restored. */
  class Store {
    var tables: Tables

    constructor ()
      ensures tables == map[]
    {
      tables := map[];
    }

    method ApplyWrite(ev: Evaluator, write: LogicalWrite, hash: TupleHash) returns (r: Result<nat>)
      requires RespectsEquality(hash) && UsableWrite(write)
      modifies this
      ensures OnlyTouches(old(tables), tables, write.model.key)
      ensures var outcome := TableOutcome(ev, old(tables), write);
              if outcome.Failure? then r.Failure?
              else r == Success(outcome.value.1)
                   && tables == old(tables)[write.model.key := MemoryTable(write.model, outcome.value.0)]
      ensures r.Success? ==> write.model.key in tables
                             && Written(ev, write, RowsBefore(old(tables), write.model.key),
                                        tables[write.model.key].rows, r.value)
      ensures ValidDataset(RowsBefore(old(tables), write.model.key), write.model) ==>
                (r.Success? <==> TableAccepted(ev, old(tables), write))
    {
      TableDoes(ev, tables, write);
      hide Written, ValidDataset, TableAccepted;
      match write {
        case Insert(model, row) =>
          r := AppendRows(ev, model, [row], hash);
        case InsertMany(model, rows) =>
          r := AppendRows(ev, model, rows, hash);
        case Update(model, assignments, condition) =>
          r := UpdateInPlace(ev, model, assignments, condition, hash);
        case Delete(model, condition) =>
          r := DeleteInPlace(ev, model, condition, hash);
      }
    }

    method AppendRows(ev: Evaluator, model: ModelDef, rows: seq<Row>, hash: TupleHash) returns (r: Result<nat>)
      requires RespectsEquality(hash)
      modifies this
      ensures OnlyTouches(old(tables), tables, model.key)
      ensures var outcome := TableOutcome(ev, old(tables), InsertMany(model, rows));
              if outcome.Failure? then r.Failure?
              else
                && r == Success(outcome.value.1)
                && tables == old(tables)[model.key := MemoryTable(model, outcome.value.0)]
    {
      hide ValidDataset, RespectsEquality;
      if Exceeds(ev.maxAffected, |rows|) {
        return Failure("ENGINE-LIMIT-004");
      }
      var registered := RegisterDefinition(tables, model);
      if registered.Failure? {
        return Failure(registered.code);
      }
      tables := registered.value;
      var table := TableOf(tables, model).value;
      tables := tables[model.key := table.(rows := table.rows + rows)];
      var valid := ValidateDynamicDataset(model, tables[model.key].rows, hash);
      if valid.Failure? {
        return Failure(valid.code);
      }
      return Success(|rows|);
    }

    method UpdateInPlace(ev: Evaluator, model: ModelDef, assignments: seq<Assignment>, condition: Option<Prepared>,
        hash: TupleHash)
      returns (r: Result<nat>)
      requires RespectsEquality(hash) && UsableAssignments(assignments) && UsableCondition(condition)
      modifies this
      ensures OnlyTouches(old(tables), tables, model.key)
      ensures var outcome := TableOutcome(ev, old(tables), Update(model, assignments, condition));
              if outcome.Failure? then r.Failure?
              else
                && r == Success(outcome.value.1)
                && tables == old(tables)[model.key := MemoryTable(model, outcome.value.0)]
    {
      hide ValidDataset, RespectsEquality, Selected, UpdateRow, UsableAssignments, UsableCondition;
      var table := TableOf(tables, model);
      if table.Failure? {
        return Failure(table.code);
      }
      ghost var rows := table.value.rows;
      var count := |tables[model.key].rows|;
      var affected := 0;
      for i := 0 to count
        invariant model.key in tables && tables == old(tables)[model.key := tables[model.key]]
        invariant tables[model.key].model == model && |tables[model.key].rows| == count == |rows|
        invariant tables[model.key].rows[i..] == rows[i..]
        invariant Updated(ev, assignments, condition, rows, i) == Success((tables[model.key].rows[..i], affected))
      {
        hide TableOutcome, Updated;
        var now := tables[model.key].rows;
        Replaces(now, rows, i, now[i]);
        var step := StepUpdate(ev, assignments, condition, table.value.rows, i, now[..i], affected, now[i]);
        if step.Failure? {
          TableUpdateFails(ev, old(tables), model, assignments, condition);
          return Failure(step.code);
        }
        Replaces(now, rows, i, step.value.0);
        tables := tables[model.key := tables[model.key].(rows := now[i := step.value.0])];
        affected := step.value.1;
      }
      assert tables[model.key].rows[..count] == tables[model.key].rows;
      var valid := ValidateDynamicDataset(model, tables[model.key].rows, hash);
      if valid.Failure? {
        return Failure(valid.code);
      }
      return Success(affected);
    }

    method DeleteInPlace(ev: Evaluator, model: ModelDef, condition: Option<Prepared>,
        hash: TupleHash) returns (r: Result<nat>)
      requires RespectsEquality(hash) && UsableCondition(condition)
      modifies this
      ensures OnlyTouches(old(tables), tables, model.key)
      ensures var outcome := TableOutcome(ev, old(tables), Delete(model, condition));
              if outcome.Failure? then r.Failure?
              else
                && r == Success(outcome.value.1)
                && tables == old(tables)[model.key := MemoryTable(model, outcome.value.0)]
    {
      hide ValidDataset, RespectsEquality, Selected, UsableCondition;
      var table := TableOf(tables, model);
      if table.Failure? {
        return Failure(table.code);
      }
      var drop := MarkRows(ev, condition, table.value.rows);
      if drop.Failure? {
        return Failure(drop.code);
      }
      var affected := CountTrue(drop.value);
      if Exceeds(ev.maxAffected, affected) {
        return Failure("ENGINE-LIMIT-004");
      }
      tables := tables[model.key := table.value.(rows := Retain(table.value.rows, drop.value))];
      var valid := ValidateDynamicDataset(model, tables[model.key].rows, hash);
      if valid.Failure? {
        return Failure(valid.code);
      }
      return Success(affected);
    }

    method RestoreTable(key: string, previous: Option<MemoryTable>)
      modifies this
      ensures tables == if previous.Some? then old(tables)[key := previous.value] else old(tables) - {key}
    {
      match previous {
        case Some(table) =>
          tables := tables[key := table];
        case None =>
          tables := tables - {key};
      }
    }
  }

  /** Putting back the one table a write touches undoes the write. */
  lemma RestoreUndoes(before: Tables, after: Tables, key: string)
    requires OnlyTouches(before, after, key)
    ensures key in before ==> after[key := before[key]] == before
    ensures key !in before ==> after - {key} == before
  {
  }

  // ----- the two agree -----

  /** The table the memory engine holds for a model, if any, has these rows. */
  predicate Holds(tables: Tables, model: ModelDef, rows: seq<Row>) {
    if model.key in tables then tables[model.key] == MemoryTable(model, rows) else rows == []
  }

  predicate PlainCondition(condition: Option<Prepared>) {
    condition.Some? ==> NoExists(condition.value) && condition.value.outerScopes == 0
  }

  predicate PlainWrite(write: LogicalWrite) {
    match write
    case Update(_, _, condition) => PlainCondition(condition)
    case Delete(_, condition) => PlainCondition(condition)
    case _ => true
  }

  lemma {:induction false} StrictnessUnseen(ev: Evaluator, assignments: seq<Assignment>, condition: Option<Prepared>,
      rows: seq<Row>, n: nat)
    requires UsableAssignments(assignments) && UsableCondition(condition) && PlainCondition(condition) && n <= |rows|
    ensures Updated(ev.(strict := false), assignments, condition, rows, n)
              == Updated(ev, assignments, condition, rows, n)
    decreases n
  {
    hide EvaluateDatum, SetFields;
    if n > 0 {
      StrictnessUnseen(ev, assignments, condition, rows, n - 1);
      ValuesUnseen(ev, assignments, rows[n - 1]);
    }
  }

  lemma {:induction false} ValuesUnseen(ev: Evaluator, assignments: seq<Assignment>, row: Row)
    requires UsableAssignments(assignments)
    ensures AssignedValues(ev.(strict := false), assignments, row) == AssignedValues(ev, assignments, row)
  {
    hide EvaluateDatum;
    if assignments != [] {
      ValuesUnseen(ev, assignments[1..], row);
    }
  }

  lemma {:induction false} MarksUnseen(ev: Evaluator, condition: Option<Prepared>, rows: seq<Row>, n: nat)
    requires UsableCondition(condition) && PlainCondition(condition) && n <= |rows|
    ensures Marked(ev.(strict := false), condition, rows, n) == Marked(ev, condition, rows, n)
    decreases n
  {
    hide EvaluateDatum;
    if n > 0 {
      MarksUnseen(ev, condition, rows, n - 1);
    }
  }

  /** With the same parameters, in place or by copy makes no difference. */
  lemma InPlaceRefinesCopy(ev: Evaluator, tables: Tables, rows: seq<Row>, write: LogicalWrite)
    requires UsableWrite(write) && PlainWrite(write)
    requires ev.strict && ev.maxAffected.None?
    requires Holds(tables, write.model, rows) && ValidDataset(rows, write.model)
    requires write.Update? || write.Delete? ==> write.model.key in tables
    ensures SameOutcome(TableOutcome(ev, tables, write), LocalOutcome(ev.(strict := false), write.model, rows, write))
  {
    hide ValidDataset, Updated, Marked;
    assert ValidRecords(rows, write.model) by { ValidHasRecords(rows, write.model); }
    match write
    case Insert(_, _) =>
    case InsertMany(model, more) =>
      if ValidDataset(rows + more, model) {
        SuffixStaysValid(rows, more, model);
      }
    case Update(_, assignments, condition) =>
      StrictnessUnseen(ev, assignments, condition, rows, |rows|);
    case Delete(model, condition) =>
      MarksUnseen(ev, condition, rows, |rows|);
      var drop := Marked(ev, condition, rows, |rows|);
      if drop.Success? {
        DeletionStaysValid(rows, drop.value, model);
      }
  }

  // ----- parameters, which a local data set has none of -----

  /** What succeeds without parameters succeeds the same with them; `exact` says they are not read at all. */
  ghost predicate Extends<T(!new)>(full: Result<T>, bare: Result<T>, exact: bool) {
    (bare.Success? || exact) ==> full == bare
  }

  predicate NoParameters(e: Prepared) {
    forall i | 0 <= i < |e.nodes| :: !e.nodes[i].kind.ParameterK?
  }

  predicate Parameterless(write: LogicalWrite) {
    match write
    case Update(_, assignments, condition) =>
      && (condition.Some? ==> NoParameters(condition.value))
      && forall i | 0 <= i < |assignments| :: NoParameters(assignments[i].expression)
    case Delete(_, condition) => condition.Some? ==> NoParameters(condition.value)
    case _ => true
  }

  function Bare(rt: Runtime): Runtime { rt.(ctx := rt.ctx.(parameters := map[])) }

  ghost predicate Unread(rt: Runtime, nodes: seq<Node>) {
    rt.ctx.parameters == map[] || forall i | 0 <= i < |nodes| :: !nodes[i].kind.ParameterK?
  }

  lemma {:induction false} NodeWithoutParameters(rt: Runtime, nodes: seq<Node>, id: nat)
    requires Topological(nodes) && id < |nodes|
    ensures Extends(EvalNode(rt, nodes, id), EvalNode(Bare(rt), nodes, id), Unread(rt, nodes))
    decreases id + 1, 0
  {
    hide EvalUnary, EvalBinary, Membership, ValidDatum;
    assert ChildrenBelow(nodes[id].kind, id);
    match nodes[id].kind
    case UnaryK(_, input) => NodeWithoutParameters(rt, nodes, input);
    case BinaryK(_, left, right) =>
      NodeWithoutParameters(rt, nodes, left);
      NodeWithoutParameters(rt, nodes, right);
    case MembershipK(input, candidates, _) =>
      NodeWithoutParameters(rt, nodes, input);
      NodesWithoutParameters(rt, nodes, candidates, id);
    case ConditionalK(condition, whenTrue, whenFalse) =>
      NodeWithoutParameters(rt, nodes, condition);
      NodeWithoutParameters(rt, nodes, whenTrue);
      NodeWithoutParameters(rt, nodes, whenFalse);
    case CallK(_, arguments) => NodesWithoutParameters(rt, nodes, arguments, id);
    case _ =>
  }

  lemma {:induction false} NodesWithoutParameters(rt: Runtime, nodes: seq<Node>, ids: seq<nat>, bound: nat)
    requires Topological(nodes) && bound <= |nodes| && forall i | 0 <= i < |ids| :: ids[i] < bound
    ensures Extends(EvalNodes(rt, nodes, ids, bound), EvalNodes(Bare(rt), nodes, ids, bound), Unread(rt, nodes))
    decreases bound, |ids|
  {
    hide EvalNode, Unread;
    if ids != [] {
      NodeWithoutParameters(rt, nodes, ids[0]);
      NodesWithoutParameters(rt, nodes, ids[1..], bound);
    }
  }

  lemma EvaluateWithoutParameters(ev: Evaluator, e: Prepared, row: Row)
    requires WellFormed(e)
    ensures Extends(EvaluateOn(ev, e, row), EvaluateOn(ev.(parameters := map[]), e, row),
                    ev.parameters == map[] || NoParameters(e))
  {
    hide EvalNode;
    var rt := Runtime(ev.host, EvalContext([row], [false], ev.parameters), NoResolver);
    NodeWithoutParameters(rt, e.nodes, e.root);
  }

  lemma {:induction false} ValuesWithoutParameters(ev: Evaluator, assignments: seq<Assignment>, row: Row)
    requires UsableAssignments(assignments)
    ensures Extends(AssignedValues(ev, assignments, row), AssignedValues(ev.(parameters := map[]), assignments, row),
                    || ev.parameters == map[]
                    || forall i | 0 <= i < |assignments| :: NoParameters(assignments[i].expression))
  {
    hide EvaluateOn, NoParameters;
    if assignments != [] {
      EvaluateWithoutParameters(ev, assignments[0].expression, row);
      ValuesWithoutParameters(ev, assignments[1..], row);
    }
  }

  lemma SelectedWithoutParameters(ev: Evaluator, condition: Option<Prepared>, row: Row)
    requires UsableCondition(condition)
    ensures Extends(Selected(ev, condition, row), Selected(ev.(parameters := map[]), condition, row),
                    ev.parameters == map[] || (condition.Some? ==> NoParameters(condition.value)))
  {
    hide EvaluateOn, NoParameters;
    if condition.Some? {
      EvaluateWithoutParameters(ev, condition.value, row);
    }
  }

  lemma {:induction false} UpdatedWithoutParameters(ev: Evaluator, assignments: seq<Assignment>,
      condition: Option<Prepared>, rows: seq<Row>, n: nat)
    requires UsableAssignments(assignments) && UsableCondition(condition) && n <= |rows|
    ensures Extends(Updated(ev, assignments, condition, rows, n),
                    Updated(ev.(parameters := map[]), assignments, condition, rows, n),
                    ev.parameters == map[]
                    || ((condition.Some? ==> NoParameters(condition.value))
                        && forall i | 0 <= i < |assignments| :: NoParameters(assignments[i].expression)))
    decreases n
  {
    hide Selected, AssignedValues, SetFields, NoParameters;
    if n > 0 {
      UpdatedWithoutParameters(ev, assignments, condition, rows, n - 1);
      SelectedWithoutParameters(ev, condition, rows[n - 1]);
      ValuesWithoutParameters(ev, assignments, rows[n - 1]);
    }
  }

  lemma {:induction false} MarkedWithoutParameters(ev: Evaluator, condition: Option<Prepared>, rows: seq<Row>, n: nat)
    requires UsableCondition(condition) && n <= |rows|
    ensures Extends(Marked(ev, condition, rows, n), Marked(ev.(parameters := map[]), condition, rows, n),
                    ev.parameters == map[] || (condition.Some? ==> NoParameters(condition.value)))
    decreases n
  {
    hide Selected, NoParameters;
    if n > 0 {
      MarkedWithoutParameters(ev, condition, rows, n - 1);
      SelectedWithoutParameters(ev, condition, rows[n - 1]);
    }
  }

  lemma OutcomeWithoutParameters(ev: Evaluator, model: ModelDef, rows: seq<Row>, write: LogicalWrite)
    requires UsableWrite(write)
    ensures Extends(LocalOutcome(ev, model, rows, write), LocalOutcome(ev.(parameters := map[]), model, rows, write),
                    ev.parameters == map[] || Parameterless(write))
  {
    hide Updated, Marked, ValidDataset, ValidRecords, NoParameters;
    match write
    case Update(_, assignments, condition) => UpdatedWithoutParameters(ev, assignments, condition, rows, |rows|);
    case Delete(_, condition) => MarkedWithoutParameters(ev, condition, rows, |rows|);
    case _ =>
  }

  /**
   * Without an affected-row limit, on a valid table, the in-place engine accepts every write the
   * copy-on-write data set accepts, with the same rows and the same count; and it accepts no other,
   * if it is given no parameters or the write reads none.
   */
  lemma InPlaceRefinesLocal(ev: Evaluator, tables: Tables, rows: seq<Row>, write: LogicalWrite)
    requires UsableWrite(write) && PlainWrite(write)
    requires ev.strict && ev.maxAffected.None?
    requires Holds(tables, write.model, rows) && ValidDataset(rows, write.model)
    requires write.Update? || write.Delete? ==> write.model.key in tables
    ensures var engine := TableOutcome(ev, tables, write);
            var local := LocalOutcome(LocalEvaluator(ev.host), write.model, rows, write);
            && (local.Success? ==> engine == local)
            && (ev.parameters == map[] || Parameterless(write) ==> SameOutcome(engine, local))
  {
    hide LocalOutcome, TableOutcome, ValidDataset, Parameterless;
    InPlaceRefinesCopy(ev, tables, rows, write);
    OutcomeWithoutParameters(ev.(strict := false), write.model, rows, write);
    assert ev.(strict := false).(parameters := map[]) == LocalEvaluator(ev.host);
  }

  lemma ValidHasRecords(rows: seq<Row>, model: ModelDef)
    requires ValidDataset(rows, model)
    ensures ValidRecords(rows, model)
  {
  }
}
