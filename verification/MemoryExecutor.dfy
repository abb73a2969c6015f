/// The stage-at-a-time executor over a plan graph (`engines/memory/src/executor.rs`).

module Reachability {
  import opened Results
  import opened Semantics
  import opened Models
  import opened Expressions
  import opened Plans

  /** A walk along structural dependencies. */
  ghost predicate Walk(plan: LogicalPlan, path: seq<nat>) {
    && path != []
    && forall i | 0 <= i < |path| - 1 :: path[i] < |plan.nodes| && path[i + 1] in Dependencies(plan.nodes[path[i]])
  }

  ghost predicate Reachable(plan: LogicalPlan, root: nat, id: nat) {
    exists path :: Walk(plan, path) && path[0] == root && path[|path| - 1] == id
  }

  lemma ReachStep(plan: LogicalPlan, root: nat, id: nat, dep: nat)
    requires Reachable(plan, root, id) && id < |plan.nodes| && dep in Dependencies(plan.nodes[id])
    ensures Reachable(plan, root, dep)
  {
    var path :| Walk(plan, path) && path[0] == root && path[|path| - 1] == id;
    var longer := path + [dep];
    assert Walk(plan, longer) by {
      forall i | 0 <= i < |longer| - 1
        ensures longer[i] < |plan.nodes| && longer[i + 1] in Dependencies(plan.nodes[longer[i]])
      {
        if i < |path| - 1 {
          assert path[i + 1] in Dependencies(plan.nodes[path[i]]);
        }
      }
    }
  }

  ghost predicate Closed(plan: LogicalPlan, marked: iset<nat>) {
    forall id, dep | id in marked && id < |plan.nodes| && dep in Dependencies(plan.nodes[id]) :: dep in marked
  }

  /** Reachability is the least closed set that holds the root. */
  lemma {:induction false} ClosedContainsWalk(plan: LogicalPlan, marked: iset<nat>, path: seq<nat>)
    requires Closed(plan, marked) && Walk(plan, path) && path[0] in marked
    ensures path[|path| - 1] in marked
    decreases |path|
  {
    if |path| > 1 {
      var shorter := path[1..];
      assert path[1] in Dependencies(plan.nodes[path[0]]);
      forall i | 0 <= i < |shorter| - 1
        ensures shorter[i] < |plan.nodes| && shorter[i + 1] in Dependencies(plan.nodes[shorter[i]])
      {
        assert shorter[i] == path[i + 1] && shorter[i + 1] == path[i + 2];
      }
      ClosedContainsWalk(plan, marked, shorter);
    }
  }

  lemma RootReachable(plan: LogicalPlan, root: nat)
    ensures Reachable(plan, root, root)
  {
    assert Walk(plan, [root]);
  }

  function Unmarked(needed: seq<bool>): nat {
    if needed == [] then 0 else (if needed[0] then 0 else 1) + Unmarked(needed[1..])
  }

  lemma {:induction false} MarkingDecreases(needed: seq<bool>, i: nat)
    requires i < |needed| && !needed[i]
    ensures Unmarked(needed[i := true]) < Unmarked(needed)
  {
    if i > 0 {
      MarkingDecreases(needed[1..], i - 1);
      assert needed[i := true][1..] == needed[1..][i - 1 := true];
    } else {
      assert needed[0 := true][1..] == needed[1..];
    }
  }

  predicate Covered(needed: seq<bool>, stack: seq<nat>, id: nat) {
    id in stack || (id < |needed| && needed[id])
  }

  /** What is marked or waiting is reachable, and what a marked node reads is marked or waiting. */
  ghost predicate Exploring(plan: LogicalPlan, root: nat, needed: seq<bool>, stack: seq<nat>) {
    && |needed| == |plan.nodes|
    && Covered(needed, stack, root)
    && (forall id: nat | Covered(needed, stack, id) :: Reachable(plan, root, id))
    && (forall id, i | 0 <= id < |needed| && needed[id] && 0 <= i < |Dependencies(plan.nodes[id])| ::
          Covered(needed, stack, Dependencies(plan.nodes[id])[i]))
  }

  lemma ExploreAgain(plan: LogicalPlan, root: nat, needed: seq<bool>, stack: seq<nat>, rest: seq<nat>, id: nat)
    requires Exploring(plan, root, needed, stack) && stack == rest + [id]
    requires id < |needed| && needed[id]
    ensures Exploring(plan, root, needed, rest)
  {
    assert forall x: nat :: Covered(needed, stack, x) <==> Covered(needed, rest, x);
  }

  lemma ExploreNew(plan: LogicalPlan, root: nat, needed: seq<bool>, stack: seq<nat>, rest: seq<nat>, id: nat)
    requires Exploring(plan, root, needed, stack) && stack == rest + [id]
    requires id < |needed| && !needed[id]
    ensures Exploring(plan, root, needed[id := true], rest + Dependencies(plan.nodes[id]))
  {
    var deps := Dependencies(plan.nodes[id]);
    var needed', stack' := needed[id := true], rest + deps;
    assert Covered(needed, stack, id);
    forall x: nat | Covered(needed', stack', x) ensures Reachable(plan, root, x) {
      if x in deps {
        ReachStep(plan, root, id, x);
      } else {
        assert Covered(needed, stack, x);
      }
    }
    assert forall x: nat | Covered(needed, stack, x) :: Covered(needed', stack', x);
    forall j, i | 0 <= j < |needed'| && needed'[j] && 0 <= i < |Dependencies(plan.nodes[j])|
      ensures Covered(needed', stack', Dependencies(plan.nodes[j])[i])
    {
      if j == id {
        assert deps[i] in stack';
      }
    }
  }

  /** With nothing waiting, exactly the reachable nodes are marked. */
  lemma ExploreDone(plan: LogicalPlan, root: nat, needed: seq<bool>)
    requires Exploring(plan, root, needed, [])
    ensures forall id: nat :: Reachable(plan, root, id) <==> id < |needed| && needed[id]
  {
    var marked := iset id: nat | Covered(needed, [], id);
    assert Closed(plan, marked) by {
      forall id, dep | id in marked && id < |plan.nodes| && dep in Dependencies(plan.nodes[id]) ensures dep in marked {
        var i :| 0 <= i < |Dependencies(plan.nodes[id])| && Dependencies(plan.nodes[id])[i] == dep;
      }
    }
    forall id: nat | Reachable(plan, root, id) ensures id in marked {
      var path :| Walk(plan, path) && path[0] == root && path[|path| - 1] == id;
      ClosedContainsWalk(plan, marked, path);
    }
    forall id: nat | id < |needed| && needed[id] ensures Reachable(plan, root, id) {
      assert Covered(needed, [], id);
    }
  }

  /** The worklist over any graph terminates, marks exactly the reachable nodes, and fails exactly on a dangling one. */
  method StructuralClosure(plan: LogicalPlan, root: nat) returns (r: Result<seq<bool>>)
    ensures r.Success? <==> forall id: nat :: Reachable(plan, root, id) ==> id < |plan.nodes|
    ensures r.Success? ==> |r.value| == |plan.nodes|
                           && forall id | 0 <= id < |plan.nodes| :: r.value[id] <==> Reachable(plan, root, id)
  {
    var needed := new bool[|plan.nodes|](_ => false);
    var stack := [root];
    RootReachable(plan, root);
    while stack != []
      invariant Exploring(plan, root, needed[..], stack)
      decreases Unmarked(needed[..]), |stack|
    {
      var id := stack[|stack| - 1];
      var rest := stack[..|stack| - 1];
      assert stack == rest + [id];
      if id >= needed.Length {
        assert Covered(needed[..], stack, id);
        return Failure("MEMORY-EXEC-005");
      }
      if needed[id] {
        ExploreAgain(plan, root, needed[..], stack, rest, id);
        stack := rest;
      } else {
        ghost var before := needed[..];
        MarkingDecreases(before, id);
        ExploreNew(plan, root, before, stack, rest, id);
        needed[id] := true;
        assert needed[..] == before[id := true];
        stack := rest + Dependencies(plan.nodes[id]);
      }
    }
    ExploreDone(plan, root, needed[..]);
    return Success(needed[..]);
  }
}

module MemoryExecutor {
  import opened Results
  import opened Semantics
  import opened Models
  import opened Expressions
  import opened Plans
  import opened Reachability

  /** A node whose input has no rows to give has none to give either. */
  lemma DependencyFails(inputs: Inputs, id: nat, outer: seq<ScopeRecord>, depth: nat, dep: nat)
    requires TopologicalPlan(inputs.plan) && id < |inputs.plan.nodes| && depth <= MAX_EXISTENTIAL_DEPTH
    requires dep in Dependencies(inputs.plan.nodes[id]) && dep < |inputs.plan.nodes|
    requires Meaning(inputs, dep, outer, depth).Failure?
    ensures Meaning(inputs, id, outer, depth).Failure?
  {
  }

  /** On a topological plan a walk only goes down. */
  lemma {:induction false} WalkDescends(plan: LogicalPlan, path: seq<nat>)
    requires TopologicalPlan(plan) && Walk(plan, path)
    ensures forall i | 0 <= i < |path| :: path[i] <= path[0]
    decreases |path|
  {
    if |path| > 1 {
      var shorter := path[..|path| - 1];
      forall i | 0 <= i < |shorter| - 1
        ensures shorter[i] < |plan.nodes| && shorter[i + 1] in Dependencies(plan.nodes[shorter[i]])
      {
        assert path[i + 1] in Dependencies(plan.nodes[path[i]]);
      }
      WalkDescends(plan, shorter);
      var last := path[|path| - 2];
      assert path[|path| - 2 + 1] in Dependencies(plan.nodes[last]);
      assert ValidNode(plan.nodes[last], last);
      assert shorter[|path| - 2] == last;
    }
  }

  lemma {:induction false} WalkFails(inputs: Inputs, path: seq<nat>, outer: seq<ScopeRecord>, depth: nat)
    requires TopologicalPlan(inputs.plan) && Walk(inputs.plan, path) && depth <= MAX_EXISTENTIAL_DEPTH
    requires path[0] < |inputs.plan.nodes| && path[|path| - 1] < |inputs.plan.nodes|
    requires Meaning(inputs, path[|path| - 1], outer, depth).Failure?
    ensures Meaning(inputs, path[0], outer, depth).Failure?
    decreases |path|
  {
    hide Meaning;
    if |path| > 1 {
      var rest := path[1..];
      assert path[1] in Dependencies(inputs.plan.nodes[path[0]]);
      assert ValidNode(inputs.plan.nodes[path[0]], path[0]);
      forall i | 0 <= i < |rest| - 1
        ensures rest[i] < |inputs.plan.nodes| && rest[i + 1] in Dependencies(inputs.plan.nodes[rest[i]])
      {
        assert path[i + 2] in Dependencies(inputs.plan.nodes[path[i + 1]]);
      }
      WalkFails(inputs, rest, outer, depth);
      DependencyFails(inputs, path[0], outer, depth, path[1]);
    }
  }

  /** A failing node makes everything that reaches it fail. */
  lemma ReachableFails(inputs: Inputs, root: nat, id: nat, outer: seq<ScopeRecord>, depth: nat)
    requires TopologicalPlan(inputs.plan) && depth <= MAX_EXISTENTIAL_DEPTH
    requires root < |inputs.plan.nodes| && id < |inputs.plan.nodes| && Reachable(inputs.plan, root, id)
    requires Meaning(inputs, id, outer, depth).Failure?
    ensures Meaning(inputs, root, outer, depth).Failure?
  {
    var path :| Walk(inputs.plan, path) && path[0] == root && path[|path| - 1] == id;
    WalkFails(inputs, path, outer, depth);
  }

  lemma ReachableBelow(plan: LogicalPlan, root: nat)
    requires TopologicalPlan(plan) && root < |plan.nodes|
    ensures forall id: nat :: Reachable(plan, root, id) ==> id <= root
  {
    forall id: nat | Reachable(plan, root, id) ensures id <= root {
      var path :| Walk(plan, path) && path[0] == root && path[|path| - 1] == id;
      WalkDescends(plan, path);
    }
  }

  /** What a row loop has produced so far, and what the rest of it still owes. */
  ghost predicate Pending(whole: Result<seq<WorkingRow>>, output: seq<WorkingRow>, rest: Result<seq<WorkingRow>>) {
    (whole.Success? <==> rest.Success?) && (whole.Success? ==> whole.value == output + rest.value)
  }

  lemma PendingStart(whole: Result<seq<WorkingRow>>, rows: seq<WorkingRow>, inputs: Inputs, node: LogicalNode,
                     outer: seq<ScopeRecord>, resolver: Resolver)
    requires RowWise(node)
    requires whole == RowStages(inputs, node, rows, outer, resolver)
    ensures Pending(whole, [], RowStages(inputs, node, rows[0..], outer, resolver))
  {
    assert rows[0..] == rows;
  }

  lemma PendingStep(whole: Result<seq<WorkingRow>>, output: seq<WorkingRow>, rows: seq<WorkingRow>, i: nat,
      inputs: Inputs,
                    node: LogicalNode, outer: seq<ScopeRecord>, resolver: Resolver)
    requires RowWise(node) && i < |rows|
    requires Pending(whole, output, RowStages(inputs, node, rows[i..], outer, resolver))
    ensures var first := RowStage(inputs, node, rows[i], outer, resolver);
            if first.Failure? then whole.Failure?
            else Pending(whole, output + first.value, RowStages(inputs, node, rows[i + 1..], outer, resolver))
  {
    hide RowStage;
    assert rows[i..][1..] == rows[i + 1..];
  }

  lemma PendingDone(whole: Result<seq<WorkingRow>>, output: seq<WorkingRow>, rows: seq<WorkingRow>, inputs: Inputs,
                    node: LogicalNode, outer: seq<ScopeRecord>, resolver: Resolver)
    requires RowWise(node)
    requires Pending(whole, output, RowStages(inputs, node, rows[|rows|..], outer, resolver))
    ensures whole == Success(output)
  {
    assert rows[|rows|..] == [];
    assert RowStages(inputs, node, rows[|rows|..], outer, resolver) == Success([]);
    assert output + [] == output;
  }

  /** One execution. The mutable counter is the number of existential tests being answered. */
  class Session {
    const inputs: Inputs
    var existentialDepth: nat

    ghost predicate Valid()
      reads this
    {
      TopologicalPlan(inputs.plan) && existentialDepth <= MAX_EXISTENTIAL_DEPTH
    }

    constructor (inputs: Inputs)
      requires TopologicalPlan(inputs.plan)
      ensures Valid() && this.inputs == inputs && existentialDepth == 0
    {
      this.inputs := inputs;
      existentialDepth := 0;
    }

    /** The evaluation every method below is measured against: existential tests at the current depth. */
    ghost function RuntimeAt(scopes: seq<ScopeRecord>): Runtime
      requires Valid()
      reads this
    {
      RuntimeFor(inputs, scopes, ResolverAt(inputs, existentialDepth))
    }

    method EvaluateNode(nodes: seq<Node>, id: nat, scopes: seq<ScopeRecord>) returns (r: Result<Datum>)
      requires Valid() && Topological(nodes) && id < |nodes|
      modifies this
      ensures Valid() && existentialDepth == old(existentialDepth)
      ensures SameOutcome(r, EvalNode(RuntimeAt(scopes), nodes, id))
      decreases MAX_EXISTENTIAL_DEPTH - existentialDepth, 1, id + 1, 0
    {
      ghost var rt := RuntimeAt(scopes);
      var ty := nodes[id].ty;
      var value: Datum;
      match nodes[id].kind {
        case FieldK(scope, slot, allowNull) =>
          return ReadField(RuntimeFor(inputs, scopes, (_, _) => Failure("EXPR-EVAL-112")), scope, slot, allowNull, ty);
        case LiteralK(datum) =>
          value := datum;
        case ParameterK(name) =>
          return ReadParameter(RuntimeFor(inputs, scopes, (_, _) => Failure("EXPR-EVAL-112")), name, ty);
        case UnaryK(op, input) =>
          var x :- EvaluateNode(nodes, input, scopes);
          var u := EvalUnary(op, x, ty);
          if u.Failure? { return u; }
          value := u.value;
        case BinaryK(op, left, right) =>
          var x :- EvaluateNode(nodes, left, scopes);
          if op == Coalesce && x.Val? {
            value := x;
          } else {
            var y :- EvaluateNode(nodes, right, scopes);
            var b := EvalBinary(inputs.host, op, x, y);
            if b.Failure? { return b; }
            value := b.value;
          }
        case MembershipK(input, candidates, negate) =>
          var x :- EvaluateNode(nodes, input, scopes);
          var ys :- EvaluateNodes(nodes, candidates, id, scopes);
          value := EvalMembership(x, ys, negate);
        case ConditionalK(condition, whenTrue, whenFalse) =>
          var c :- EvaluateNode(nodes, condition, scopes);
          var t := AsTruth(c);
          if t.Failure? { return Failure(t.code); }
          value :- EvaluateNode(nodes, if t.value == True then whenTrue else whenFalse, scopes);
        case CallK(f, arguments) =>
          var xs :- EvaluateNodes(nodes, arguments, id, scopes);
          var c := inputs.host.call(f, xs, ty);
          if c.Failure? { return c; }
          value := c.value;
        case ExistsK(subquery) =>
          var t :- EvaluateExists(subquery, scopes);
          value := Val(TruthV(t));
      }
      return Checked(ty, value);
    }

    method EvaluateNodes(nodes: seq<Node>, ids: seq<nat>, bound: nat,
        scopes: seq<ScopeRecord>) returns (r: Result<seq<Datum>>)
      requires Valid() && Topological(nodes) && bound <= |nodes|
      requires forall i | 0 <= i < |ids| :: ids[i] < bound
      modifies this
      ensures Valid() && existentialDepth == old(existentialDepth)
      ensures SameOutcome(r, EvalNodes(RuntimeAt(scopes), nodes, ids, bound))
      decreases MAX_EXISTENTIAL_DEPTH - existentialDepth, 1, bound, |ids|
    {
      if ids == [] {
        return Success([]);
      }
      var x :- EvaluateNode(nodes, ids[0], scopes);
      var xs :- EvaluateNodes(nodes, ids[1..], bound, scopes);
      return Success([x] + xs);
    }

    /**
     * Answers one existential test, True when the subquery has a row and False when it has none; the depth
     * counter is restored on every path.
     */
    method EvaluateExists(subquery: nat, scopes: seq<ScopeRecord>) returns (r: Result<Truth>)
      requires Valid()
      modifies this
      ensures Valid() && existentialDepth == old(existentialDepth)
      ensures existentialDepth == MAX_EXISTENTIAL_DEPTH || subquery >= |inputs.plan.nodes| ==> r.Failure?
      ensures existentialDepth < MAX_EXISTENTIAL_DEPTH && subquery < |inputs.plan.nodes| ==>
                var rows := Meaning(inputs, subquery, scopes, existentialDepth + 1);
                && (rows.Failure? ==> r.Failure?)
                && (rows.Success? && rows.value != [] ==> r == Success(True))
                && (rows.Success? && rows.value == [] ==> r == Success(False))
      ensures SameOutcome(r, ExistsMeaning(inputs, subquery, scopes, existentialDepth))
      decreases MAX_EXISTENTIAL_DEPTH - existentialDepth, 0, 0, 0
    {
      if existentialDepth >= MAX_EXISTENTIAL_DEPTH {
        return Failure("MEMORY-EXISTS-001");
      }
      existentialDepth := existentialDepth + 1;
      var rows := ExecuteSubplan(subquery, scopes);
      existentialDepth := existentialDepth - 1;
      if rows.Failure? {
        return Failure(rows.code);
      }
      return Success(if rows.value == [] then False else True);
    }

    method EvaluateExpression(e: Prepared, row: WorkingRow, outer: seq<ScopeRecord>) returns (r: Result<Datum>)
      requires Valid() && WellFormed(e)
      modifies this
      ensures Valid() && existentialDepth == old(existentialDepth)
      ensures SameOutcome(r, EvaluateExpr(inputs, e, row, outer, ResolverAt(inputs, existentialDepth)))
      decreases MAX_EXISTENTIAL_DEPTH - existentialDepth, 2, 0, 0
    {
      var scopes := VisibleScopes(outer, row, e.outerScopes);
      if !ScopesMatch(e, Context(scopes, inputs.parameters)) {
        return Failure("EXPR-EVAL-109");
      }
      r := EvaluateNode(e.nodes, e.root, scopes);
    }

    method EvaluateExpressions(es: seq<Prepared>, row: WorkingRow,
        outer: seq<ScopeRecord>) returns (r: Result<seq<Datum>>)
      requires Valid() && forall i | 0 <= i < |es| :: WellFormed(es[i])
      modifies this
      ensures Valid() && existentialDepth == old(existentialDepth)
      ensures SameOutcome(r, EvaluateAll(inputs, es, row, outer, ResolverAt(inputs, existentialDepth)))
      decreases MAX_EXISTENTIAL_DEPTH - existentialDepth, 3, |es|, 0
    {
      if es == [] {
        return Success([]);
      }
      var x :- EvaluateExpression(es[0], row, outer);
      var xs :- EvaluateExpressions(es[1..], row, outer);
      return Success([x] + xs);
    }

    method ExecuteRow(node: LogicalNode, row: WorkingRow, outer: seq<ScopeRecord>) returns (r: Result<seq<WorkingRow>>)
      requires Valid() && RowWise(node)
      modifies this
      ensures Valid() && existentialDepth == old(existentialDepth)
      ensures SameOutcome(r, RowStage(inputs, node, row, outer, ResolverAt(inputs, existentialDepth)))
      decreases MAX_EXISTENTIAL_DEPTH - existentialDepth, 4, 0, 0
    {
      match node {
        case Filter(_, condition) =>
          assert ExpressionsOf(node)[0] == condition;
          var datum :- EvaluateExpression(condition, row, outer);
          var keep := Keeps(datum);
          if keep.Failure? {
            return Failure(keep.code);
          }
          return Success(if keep.value then [row] else []);
        case Project(_, projection) =>
          assert ExpressionsOf(node) == projection.expressions;
          var values :- EvaluateExpressions(projection.expressions, row, outer);
          var datum := ShapeProjection(projection, values);
          if datum.Failure? {
            return Failure(datum.code);
          }
          return Success([WorkingRow(ValueRow(datum.value), [])]);
        case Unnest(_, element) =>
          return UnnestRow(element, row);
      }
    }

    /** The row loop of a filter, projection or unnest. */
    method ExecuteRows(node: LogicalNode, rows: seq<WorkingRow>,
        outer: seq<ScopeRecord>) returns (r: Result<seq<WorkingRow>>)
      requires Valid() && RowWise(node)
      modifies this
      ensures Valid() && existentialDepth == old(existentialDepth)
      ensures SameOutcome(r, RowStages(inputs, node, rows, outer, ResolverAt(inputs, existentialDepth)))
      decreases MAX_EXISTENTIAL_DEPTH - existentialDepth, 5, 0, 0
    {
      hide RowStages, RowStage, ResolverAt, Pending;
      ghost var resolver := ResolverAt(inputs, existentialDepth);
      ghost var whole := RowStages(inputs, node, rows, outer, resolver);
      var output: seq<WorkingRow> := [];
      PendingStart(whole, rows, inputs, node, outer, resolver);
      for i := 0 to |rows|
        invariant Valid() && existentialDepth == old(existentialDepth)
        invariant ResolverAt(inputs, existentialDepth) == resolver
        invariant Pending(whole, output, RowStages(inputs, node, rows[i..], outer, resolver))
      {
        PendingStep(whole, output, rows, i, inputs, node, outer, resolver);
        var produced :- ExecuteRow(node, rows[i], outer);
        output := output + produced;
      }
      PendingDone(whole, output, rows, inputs, node, outer, resolver);
      return Success(output);
    }

    /** Runs one stage over the rows its inputs left in `results`. */
    method ExecuteStage(id: nat, results: seq<Option<seq<WorkingRow>>>,
        outer: seq<ScopeRecord>) returns (r: Result<seq<WorkingRow>>)
      requires Valid() && id < |inputs.plan.nodes| && |results| == |inputs.plan.nodes|
      requires forall i | 0 <= i < |Dependencies(inputs.plan.nodes[id])| ::
                 var dep := Dependencies(inputs.plan.nodes[id])[i];
                 dep < |results| && results[dep].Some?
                   && Meaning(inputs, dep, outer, existentialDepth) == Success(results[dep].value)
      modifies this
      ensures Valid() && existentialDepth == old(existentialDepth)
      ensures SameOutcome(r, Meaning(inputs, id, outer, existentialDepth))
      decreases MAX_EXISTENTIAL_DEPTH - existentialDepth, 6, 0, 0
    {
      var node := inputs.plan.nodes[id];
      assert ValidNode(node, id);
      match node {
        case Source(model) =>
          return SourceRows(inputs.tables, model);
        case SetNode(left, right, operator_) =>
          assert Dependencies(node)[0] == left && Dependencies(node)[1] == right;
          return Success(SetRows(operator_, results[left].value, results[right].value));
        case Slice(input, offset, limit) =>
          assert Dependencies(node)[0] == input;
          return Success(SliceRows(results[input].value, offset, limit));
        case Distinct(input) =>
          assert Dependencies(node)[0] == input;
          return Success(PushUnique([], results[input].value));
        case _ =>
          assert Dependencies(node)[0] == node.input;
          r := ExecuteRows(node, results[node.input].value, outer);
      }
    }

    /** Executes the nodes a root needs, in index order: the result is the recursive meaning of the root. */
    method ExecuteSubplan(root: nat, outer: seq<ScopeRecord>) returns (r: Result<seq<WorkingRow>>)
      requires Valid()
      modifies this
      ensures Valid() && existentialDepth == old(existentialDepth)
      ensures if root < |inputs.plan.nodes| then SameOutcome(r, Meaning(inputs, root, outer, existentialDepth))
              else r.Failure?
      decreases MAX_EXISTENTIAL_DEPTH - existentialDepth, 7, 0, 0
    {
      var plan := inputs.plan;
      RootReachable(plan, root);
      if root < |plan.nodes| {
        ReachableBelow(plan, root);
      }
      var needed :- StructuralClosure(plan, root);
      var results: seq<Option<seq<WorkingRow>>> := seq(|plan.nodes|, _ => None);
      for index := 0 to root + 1
        invariant Valid() && existentialDepth == old(existentialDepth)
        invariant |results| == |plan.nodes|
        invariant forall j | 0 <= j < index && needed[j] ::
                    results[j].Some? && Meaning(inputs, j, outer, existentialDepth) == Success(results[j].value)
      {
        if needed[index] {
          assert ValidNode(plan.nodes[index], index);
          forall i | 0 <= i < |Dependencies(plan.nodes[index])| ensures needed[Dependencies(plan.nodes[index])[i]] {
            ReachStep(plan, root, index, Dependencies(plan.nodes[index])[i]);
          }
          var rows := ExecuteStage(index, results, outer);
          if rows.Failure? {
            ReachableFails(inputs, root, index, outer, existentialDepth);
            return rows;
          }
          results := results[index := Some(rows.value)];
        }
      }
      return Success(results[root].value);
    }
  }
}
