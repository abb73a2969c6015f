/// What the stages of a plan mean, said of the rows alone: existential filters over correlated scopes,
/// unnesting, distinct rows and set operations (`engines/memory/src/executor.rs`, `executor/{row,ops}.rs`).

module PlanLaws {
  import opened Results
  import opened Semantics
  import opened Models
  import opened Expressions
  import opened Plans

  // ----- existential filters -----

  /** The enclosing rows an expression asks for, outermost first, and then the row itself. */
  predicate SeesScopes(e: Prepared, outer: seq<ScopeRecord>, row: WorkingRow, scopes: seq<ScopeRecord>) {
    && e.outerScopes <= |outer| && |scopes| == e.outerScopes + |row.scopes|
    && (forall i | 0 <= i < e.outerScopes :: scopes[i] == outer[i])
    && (forall i | 0 <= i < |row.scopes| :: scopes[e.outerScopes + i] == row.scopes[i])
  }

  /** The expression was prepared for these scopes. */
  predicate FitsScopes(e: Prepared, scopes: seq<ScopeRecord>) {
    |e.scopes| == |scopes| && forall i | 0 <= i < |scopes| :: e.scopes[i] == BindScope(scopes[i]).model.key
  }

  /** A filter on an existential test keeps a row exactly when the subquery has a row under the row's scopes. */
  lemma ExistsFilterKeeps(inputs: Inputs, condition: Prepared, subquery: nat, row: WorkingRow, outer: seq<ScopeRecord>,
      scopes: seq<ScopeRecord>, depth: nat, rows: seq<WorkingRow>)
    requires TopologicalPlan(inputs.plan) && subquery < |inputs.plan.nodes| && depth < MAX_EXISTENTIAL_DEPTH
    requires WellFormed(condition) && condition.nodes[condition.root] == Node(ExistsK(subquery), TRUTH_TYPE)
    requires SeesScopes(condition, outer, row, scopes) && FitsScopes(condition, scopes)
    requires Meaning(inputs, subquery, scopes, depth + 1) == Success(rows)
    ensures var kept := FilterRow(inputs, condition, row, outer, ResolverAt(inputs, depth));
            && (rows != [] ==> kept == Success([row]))
            && (rows == [] ==> kept == Success([]))
  {
    hide Meaning;
    assert VisibleScopes(outer, row, condition.outerScopes) == scopes;
    var rt := RuntimeFor(inputs, scopes, ResolverAt(inputs, depth));
    assert rt.exists_(subquery) == ExistsMeaning(inputs, subquery, scopes, depth);
    assert ScopesMatch(condition, rt.ctx);
  }

  /** At the nesting bound, a filter on an existential test fails. */
  lemma ExistsFilterBounded(inputs: Inputs, condition: Prepared, subquery: nat, row: WorkingRow,
      outer: seq<ScopeRecord>)
    requires TopologicalPlan(inputs.plan)
    requires WellFormed(condition) && condition.nodes[condition.root] == Node(ExistsK(subquery), TRUTH_TYPE)
    ensures FilterRow(inputs, condition, row, outer, ResolverAt(inputs, MAX_EXISTENTIAL_DEPTH)).Failure?
  {
    hide Meaning;
    var scopes := VisibleScopes(outer, row, condition.outerScopes);
    var rt := RuntimeFor(inputs, scopes, ResolverAt(inputs, MAX_EXISTENTIAL_DEPTH));
    assert rt.exists_(subquery) == ExistsMeaning(inputs, subquery, scopes, MAX_EXISTENTIAL_DEPTH);
  }

  // ----- bound scopes -----

  /** A scope that an outer join left empty reads null in every field; any other reads what its row holds. */
  lemma ScopeReads(inputs: Inputs, scopes: seq<ScopeRecord>, resolver: Resolver, i: nat, slot: nat, ty: TypeDef)
    requires i < |scopes|
    ensures var read := ReadField(RuntimeFor(inputs, scopes, resolver), i, slot, true, ty);
            match scopes[i]
            case NullScope(model) =>
              read == if slot < |model.fields| then Success(Datum.Null) else Failure("EXPR-EVAL-102")
            case Present(row) =>
              read == if slot >= |row.values| then Failure("EXPR-EVAL-102")
                      else if ValidDatum(ty, Optional, row.values[slot]) then Success(row.values[slot])
                      else Failure("EXPR-EVAL-110")
  {
    hide ValidDatum;
  }

  // ----- unnesting -----

  /** A list gives one row per item, in order, if every item is of the element type; an absent list gives none. */
  lemma {:induction false} UnnestGives(element: TypeDef, row: WorkingRow)
    requires row.output.ValueRow?
    ensures !row.output.datum.Val? ==> UnnestRow(element, row) == Success([])
    ensures row.output.datum.Val? && row.output.datum.value.ListV? ==>
              var items, r := row.output.datum.value.items, UnnestRow(element, row);
              && (r.Success? <==> forall i | 0 <= i < |items| :: ValidDatum(element, Required, items[i]))
              && (r.Success? ==> |r.value| == |items|
                                 && forall i | 0 <= i < |items| :: r.value[i] == WorkingRow(ValueRow(items[i]), []))
    ensures row.output.datum.Val? && !row.output.datum.value.ListV? ==> UnnestRow(element, row).Failure?
  {
    if row.output.datum.Val? && row.output.datum.value.ListV? {
      ElementsGive(element, row.output.datum.value.items);
    }
  }

  lemma {:induction false} ElementsGive(element: TypeDef, items: seq<Datum>)
    ensures var r := Elements(element, items);
            && (r.Success? <==> forall i | 0 <= i < |items| :: ValidDatum(element, Required, items[i]))
            && (r.Success? ==> |r.value| == |items|
                               && forall i | 0 <= i < |items| :: r.value[i] == WorkingRow(ValueRow(items[i]), []))
  {
    hide ValidDatum;
    if items != [] {
      ElementsGive(element, items[1..]);
      assert forall i | 0 < i < |items| :: items[i] == items[1..][i - 1];
    }
  }

  // ----- distinct rows and set operations -----

  /** The rows at these places. */
  function At(rows: seq<WorkingRow>, places: seq<nat>): (r: seq<WorkingRow>)
    requires forall j | 0 <= j < |places| :: places[j] < |rows|
    ensures |r| == |places| && forall j | 0 <= j < |places| :: r[j] == rows[places[j]]
  {
    seq(|places|, j requires 0 <= j < |places| => rows[places[j]])
  }

  /** Some kept row before place `i` is equal to the row there. */
  predicate Repeats(rows: seq<WorkingRow>, places: seq<nat>, i: nat)
    requires i < |rows| && forall j | 0 <= j < |places| :: places[j] < |rows|
  {
    exists j | 0 <= j < |places| :: places[j] < i && SameOutput(rows[places[j]], rows[i])
  }

  /** The places, in order, of the wanted rows that repeat no kept row. */
  ghost predicate Firsts(rows: seq<WorkingRow>, want: WorkingRow -> bool, places: seq<nat>) {
    && (forall j | 0 <= j < |places| :: places[j] < |rows|)
    && (forall j, k | 0 <= j < k < |places| :: places[j] < places[k])
    && (forall i | 0 <= i < |rows| :: i in places <==> want(rows[i]) && !Repeats(rows, places, i))
  }

  /** A result made of exactly those rows. */
  ghost predicate DistinctRows(rows: seq<WorkingRow>, want: WorkingRow -> bool, result: seq<WorkingRow>) {
    exists places :: Firsts(rows, want, places) && result == At(rows, places)
  }

  function Wanted(rows: seq<WorkingRow>, want: WorkingRow -> bool): seq<WorkingRow> {
    if rows == [] then [] else (if want(rows[0]) then [rows[0]] else []) + Wanted(rows[1..], want)
  }

  lemma FirstsSkip(done: seq<WorkingRow>, want: WorkingRow -> bool, places: seq<nat>, row: WorkingRow)
    requires Firsts(done, want, places) && (want(row) ==> Occurs(At(done, places), row))
    ensures Firsts(done + [row], want, places) && At(done + [row], places) == At(done, places)
  {
    hide SameOutput;
    var all := done + [row];
    forall i | 0 <= i < |all| ensures i in places <==> want(all[i]) && !Repeats(all, places, i) {
      if i < |done| {
        assert Repeats(all, places, i) <==> Repeats(done, places, i);
      } else if want(row) {
        var j :| 0 <= j < |places| && SameOutput(At(done, places)[j], row);
        assert Repeats(all, places, i);
      }
    }
  }

  lemma FirstsKeep(done: seq<WorkingRow>, want: WorkingRow -> bool, places: seq<nat>, row: WorkingRow)
    requires Firsts(done, want, places) && want(row) && !Occurs(At(done, places), row)
    ensures Firsts(done + [row], want, places + [|done|])
    ensures At(done + [row], places + [|done|]) == At(done, places) + [row]
  {
    hide SameOutput;
    var all, more := done + [row], places + [|done|];
    assert forall j | 0 <= j < |places| ::
      more[j] == places[j] && all[places[j]] == done[places[j]] == At(done, places)[j];
    forall i | 0 <= i < |all| ensures i in more <==> want(all[i]) && !Repeats(all, more, i) {
      if i < |done| {
        assert i in more <==> i in places;
        assert Repeats(all, more, i) <==> Repeats(done, places, i) by {
          if Repeats(done, places, i) {
            var j :| 0 <= j < |places| && places[j] < i && SameOutput(done[places[j]], done[i]);
            assert more[j] < i && SameOutput(all[more[j]], all[i]);
          }
        }
      } else {
        assert more[|places|] == i;
        forall j | 0 <= j < |more| && more[j] < i ensures !SameOutput(all[more[j]], row) {
          assert all[more[j]] == At(done, places)[j];
        }
      }
    }
  }

  lemma {:induction false} PushesFirsts(done: seq<WorkingRow>, want: WorkingRow -> bool, places: seq<nat>,
      rest: seq<WorkingRow>)
    requires Firsts(done, want, places)
    ensures DistinctRows(done + rest, want, PushUnique(At(done, places), Wanted(rest, want)))
    decreases |rest|
  {
    assert forall j | 0 <= j < |places| :: places[j] < |done|;
    hide Firsts, Occurs;
    if rest == [] {
      assert done + rest == done;
    } else {
      var kept := At(done, places);
      assert (done + [rest[0]]) + rest[1..] == done + rest;
      if want(rest[0]) && !Occurs(kept, rest[0]) {
        FirstsKeep(done, want, places, rest[0]);
        PushesFirsts(done + [rest[0]], want, places + [|done|], rest[1..]);
        assert Wanted(rest, want)[1..] == Wanted(rest[1..], want);
      } else {
        FirstsSkip(done, want, places, rest[0]);
        PushesFirsts(done + [rest[0]], want, places, rest[1..]);
        assert want(rest[0]) ==> Wanted(rest, want)[1..] == Wanted(rest[1..], want);
        assert !want(rest[0]) ==> Wanted(rest, want) == Wanted(rest[1..], want);
      }
    }
  }

  lemma Pushes(rows: seq<WorkingRow>, want: WorkingRow -> bool)
    ensures DistinctRows(rows, want, PushUnique([], Wanted(rows, want)))
  {
    assert Firsts([], want, []);
    PushesFirsts([], want, [], rows);
    assert [] + rows == rows && At([], []) == [];
  }

  lemma {:induction false} AllWanted(rows: seq<WorkingRow>, want: WorkingRow -> bool)
    requires forall row :: want(row)
    ensures Wanted(rows, want) == rows
  {
    if rows != [] {
      AllWanted(rows[1..], want);
    }
  }

  lemma {:induction false} RestrictWanted(rows: seq<WorkingRow>, other: seq<WorkingRow>, present: bool,
      want: WorkingRow -> bool)
    requires forall row :: want(row) <==> Occurs(other, row) == present
    ensures Wanted(rows, want) == Restrict(rows, other, present)
  {
    hide Occurs;
    if rows != [] {
      RestrictWanted(rows[1..], other, present, want);
    }
  }

  /** A distinct stage gives the first of its input's equal rows, in order. */
  lemma DistinctGives(inputs: Inputs, id: nat, outer: seq<ScopeRecord>, depth: nat, rows: seq<WorkingRow>)
    requires TopologicalPlan(inputs.plan) && id < |inputs.plan.nodes| && depth <= MAX_EXISTENTIAL_DEPTH
    requires inputs.plan.nodes[id].Distinct? && inputs.plan.nodes[id].input < |inputs.plan.nodes|
    requires Meaning(inputs, inputs.plan.nodes[id].input, outer, depth) == Success(rows)
    ensures var r := Meaning(inputs, id, outer, depth); r.Success? && DistinctRows(rows, _ => true, r.value)
  {
    hide DistinctRows, PushUnique;
    AllWanted(rows, _ => true);
    Pushes(rows, _ => true);
  }

  /** The rows a set operation chooses from, and the test they must pass. */
  ghost predicate SetResult(operator_: SetOperator, left: seq<WorkingRow>, right: seq<WorkingRow>,
      result: seq<WorkingRow>)
  {
    match operator_
    case UnionAll => result == left + right
    case Union => DistinctRows(left + right, _ => true, result)
    case Intersect =>
      DistinctRows(left, row => exists i | 0 <= i < |right| :: SameOutput(right[i], row), result)
    case Except =>
      DistinctRows(left, row => forall i | 0 <= i < |right| :: !SameOutput(right[i], row), result)
  }

  lemma SetRowsGive(operator_: SetOperator, left: seq<WorkingRow>, right: seq<WorkingRow>)
    ensures SetResult(operator_, left, right, SetRows(operator_, left, right))
  {
    hide DistinctRows, PushUnique;
    match operator_
    case UnionAll =>
    case Union =>
      AllWanted(left + right, _ => true);
      Pushes(left + right, _ => true);
    case Intersect =>
      var want := (row: WorkingRow) => exists i | 0 <= i < |right| :: SameOutput(right[i], row);
      RestrictWanted(left, right, true, want);
      Pushes(left, want);
    case Except =>
      var want := (row: WorkingRow) => forall i | 0 <= i < |right| :: !SameOutput(right[i], row);
      RestrictWanted(left, right, false, want);
      Pushes(left, want);
  }

  /** A set stage: both inputs in order, or the first of the equal rows of both, of the common, or of the left only. */
  lemma SetGives(inputs: Inputs, id: nat, outer: seq<ScopeRecord>, depth: nat, left: seq<WorkingRow>,
      right: seq<WorkingRow>)
    requires TopologicalPlan(inputs.plan) && id < |inputs.plan.nodes| && depth <= MAX_EXISTENTIAL_DEPTH
    requires var node := inputs.plan.nodes[id];
             && node.SetNode? && node.left < |inputs.plan.nodes| && node.right < |inputs.plan.nodes|
             && Meaning(inputs, node.left, outer, depth) == Success(left)
             && Meaning(inputs, node.right, outer, depth) == Success(right)
    ensures var r := Meaning(inputs, id, outer, depth);
            r.Success? && SetResult(inputs.plan.nodes[id].operator_, left, right, r.value)
  {
    hide SetResult, SetRows;
    SetRowsGive(inputs.plan.nodes[id].operator_, left, right);
  }
}
