/// The plan optimizer drops slices that take every row and repeated distinct stages, and renumbers what is left
/// (dol-core `plan/optimize.rs`, `plan/mod.rs`).

module PlanOptimizer {
  import opened Results
  import opened Semantics
  import opened Models
  import opened Expressions
  import opened Plans

  // ----- renumbering -----

  function Mapped(id: nat, remap: seq<nat>): Result<nat> {
    if id < |remap| then Success(remap[id]) else Failure("PIPELINE-OPT-001")
  }

  /** Every subquery the expression tests has a number below the bound. */
  predicate TestsBelow(e: Prepared, bound: nat) {
    forall i | 0 <= i < |e.nodes| :: e.nodes[i].kind.ExistsK? ==> e.nodes[i].kind.subquery < bound
  }

  function Renumbered(node: Node, remap: seq<nat>): Node
    requires node.kind.ExistsK? ==> node.kind.subquery < |remap|
  {
    if node.kind.ExistsK? then Node(ExistsK(remap[node.kind.subquery]), node.ty) else node
  }

  function RemapTests(e: Prepared, remap: seq<nat>): Result<Prepared> {
    if TestsBelow(e, |remap|)
    then Success(e.(nodes := seq(|e.nodes|, i requires 0 <= i < |e.nodes| => Renumbered(e.nodes[i], remap))))
    else Failure("PIPELINE-OPT-001")
  }

  /** Renumbers the tested subqueries node by node. */
  method RemapPlanIds(e: Prepared, remap: seq<nat>) returns (r: Result<Prepared>)
    ensures r == RemapTests(e, remap)
  {
    var nodes := e.nodes;
    for i := 0 to |nodes|
      invariant |nodes| == |e.nodes| && nodes[i..] == e.nodes[i..]
      invariant forall k | 0 <= k < i ::
                  && (e.nodes[k].kind.ExistsK? ==> e.nodes[k].kind.subquery < |remap|)
                  && nodes[k] == Renumbered(e.nodes[k], remap)
    {
      assert nodes[i] == nodes[i..][0] == e.nodes[i];
      if nodes[i].kind.ExistsK? {
        var subquery :- Mapped(nodes[i].kind.subquery, remap);
        nodes := nodes[i := Node(ExistsK(subquery), nodes[i].ty)];
      }
      assert nodes[i + 1..] == e.nodes[i..][1..];
    }
    assert nodes == seq(|e.nodes|, i requires 0 <= i < |e.nodes| => Renumbered(e.nodes[i], remap));
    return Success(e.(nodes := nodes));
  }

  function RemapNode(node: LogicalNode, remap: seq<nat>): Result<LogicalNode> {
    match node
    case Source(_) => Success(node)
    case Filter(input, condition) =>
      var renumbered :- RemapTests(condition, remap);
      var id :- Mapped(input, remap);
      Success(Filter(id, renumbered))
    case SetNode(left, right, operator_) =>
      var l :- Mapped(left, remap);
      var r :- Mapped(right, remap);
      Success(SetNode(l, r, operator_))
    case Project(input, projection) =>
      var id :- Mapped(input, remap);
      Success(Project(id, projection))
    case Unnest(input, element) =>
      var id :- Mapped(input, remap);
      Success(Unnest(id, element))
    case Distinct(input) =>
      var id :- Mapped(input, remap);
      Success(Distinct(id))
    case Slice(input, offset, limit) =>
      var id :- Mapped(input, remap);
      Success(Slice(id, offset, limit))
  }

  method RemapLogicalNode(node: LogicalNode, remap: seq<nat>) returns (r: Result<LogicalNode>)
    ensures r == RemapNode(node, remap)
  {
    if node.Filter? {
      var condition :- RemapPlanIds(node.condition, remap);
      var input :- Mapped(node.input, remap);
      return Success(Filter(input, condition));
    }
    return RemapNode(node, remap);
  }

  /** The earlier node that gives the same rows, if the node changes nothing. */
  function RedundantTarget(node: LogicalNode, nodes: seq<LogicalNode>): Option<nat> {
    match node
    case Slice(input, 0, None) => Some(input)
    case Distinct(input) => if input < |nodes| && nodes[input].Distinct? then Some(input) else None
    case _ => None
  }

  function Extend(done: (seq<LogicalNode>, seq<nat>), node: LogicalNode): (seq<LogicalNode>, seq<nat>) {
    var (nodes, remap) := done;
    match RedundantTarget(node, nodes)
    case Some(existing) => (nodes, remap + [existing])
    case None => (nodes + [node], remap + [|nodes|])
  }

  /** The kept nodes and the new numbers after the first `n` nodes. */
  function OptimizePrefix(plan: LogicalPlan, n: nat): (r: Result<(seq<LogicalNode>, seq<nat>)>)
    requires n <= |plan.nodes|
    ensures r.Success? ==> |r.value.1| == n
  {
    if n == 0 then Success(([], []))
    else
      var done :- OptimizePrefix(plan, n - 1);
      var node :- RemapNode(plan.nodes[n - 1], done.1);
      Success(Extend(done, node))
  }

  function OptimizePlan(plan: LogicalPlan): Result<LogicalPlan> {
    var (nodes, remap) :- OptimizePrefix(plan, |plan.nodes|);
    var root :- Mapped(plan.root, remap);
    Success(LogicalPlan(nodes, root, plan.output))
  }

  lemma {:induction false} PrefixFails(plan: LogicalPlan, k: nat, n: nat)
    requires k <= n <= |plan.nodes| && OptimizePrefix(plan, k).Failure?
    ensures OptimizePrefix(plan, n) == OptimizePrefix(plan, k)
    decreases n
  {
    if k < n {
      PrefixFails(plan, k, n - 1);
    }
  }

  /** One pass over the nodes: a node is renumbered, and kept unless an earlier one gives the same rows. */
  method Optimize(plan: LogicalPlan) returns (r: Result<LogicalPlan>)
    ensures r == OptimizePlan(plan)
  {
    var nodes: seq<LogicalNode>, remap: seq<nat> := [], [];
    for i := 0 to |plan.nodes|
      invariant OptimizePrefix(plan, i) == Success((nodes, remap))
    {
      var node := RemapLogicalNode(plan.nodes[i], remap);
      if node.Failure? {
        PrefixFails(plan, i + 1, |plan.nodes|);
        return Failure(node.code);
      }
      match RedundantTarget(node.value, nodes) {
        case Some(existing) =>
          remap := remap + [existing];
        case None =>
          nodes, remap := nodes + [node.value], remap + [|nodes|];
      }
    }
    var root :- Mapped(plan.root, remap);
    return Success(LogicalPlan(nodes, root, plan.output));
  }

  // ----- what the pass leaves -----

  /** The new number of a node is that of its renumbered form, or of an input the node changes nothing of. */
  ghost predicate Stands(plan: LogicalPlan, nodes: seq<LogicalNode>, remap: seq<nat>, id: nat)
    requires id < |remap| <= |plan.nodes|
  {
    && remap[id] < |nodes|
    && var node := RemapNode(plan.nodes[id], remap[..id]);
       && node.Success?
       && (|| nodes[remap[id]] == node.value
           || node.value == Slice(remap[id], 0, None)
           || (node.value == Distinct(remap[id]) && nodes[remap[id]].Distinct?))
  }

  /** Conditions test earlier nodes alone. */
  predicate TestsEarlier(node: LogicalNode, index: nat) {
    node.Filter? ==> TestsBelow(node.condition, index)
  }

  /** A slice that takes every row, or a distinct stage over a distinct stage. */
  predicate Idle(node: LogicalNode, nodes: seq<LogicalNode>) {
    || (node.Slice? && node.offset == 0 && node.limit.None?)
    || (node.Distinct? && node.input < |nodes| && nodes[node.input].Distinct?)
  }

  /** Nodes in order, none of which is idle. */
  predicate Kept(nodes: seq<LogicalNode>) {
    forall k | 0 <= k < |nodes| ::
      ValidNode(nodes[k], k) && TestsEarlier(nodes[k], k) && !Idle(nodes[k], nodes[..k])
  }

  /** Renumbering keeps a node valid at any place after its new inputs. */
  lemma RemapValid(node: LogicalNode, remap: seq<nat>, index: nat, bound: nat)
    requires ValidNode(node, index) && RemapNode(node, remap).Success?
    requires forall i | 0 <= i < |remap| :: remap[i] < bound
    ensures ValidNode(RemapNode(node, remap).value, bound) && TestsEarlier(RemapNode(node, remap).value, bound)
  {
    var after := RemapNode(node, remap).value;
    assert forall i | 0 <= i < |Dependencies(after)| :: Dependencies(after)[i] in remap;
    match node
    case Filter(_, condition) =>
      assert ExpressionsOf(node)[0] == condition;
      RemapWellFormed(condition, remap);
      assert forall i | 0 <= i < |condition.nodes| :: after.condition.nodes[i] == Renumbered(condition.nodes[i], remap);
    case _ =>
      assert ExpressionsOf(after) == ExpressionsOf(node);
  }

  lemma RemapWellFormed(e: Prepared, remap: seq<nat>)
    requires WellFormed(e) && RemapTests(e, remap).Success?
    ensures WellFormed(RemapTests(e, remap).value)
  {
    var after := RemapTests(e, remap).value;
    forall i | 0 <= i < |after.nodes| ensures ChildrenBelow(after.nodes[i].kind, i) {
      assert after.nodes[i] == Renumbered(e.nodes[i], remap);
      assert ChildrenBelow(e.nodes[i].kind, i);
    }
  }

  lemma {:induction false} PrefixStands(plan: LogicalPlan, n: nat)
    requires TopologicalPlan(plan) && n <= |plan.nodes| && OptimizePrefix(plan, n).Success?
    ensures var (nodes, remap) := OptimizePrefix(plan, n).value;
            && Kept(nodes) && |nodes| <= n == |remap|
            && forall id | 0 <= id < n :: Stands(plan, nodes, remap, id)
  {
    if n > 0 {
      PrefixStands(plan, n - 1);
      var (nodes, remap) := OptimizePrefix(plan, n - 1).value;
      var node := RemapNode(plan.nodes[n - 1], remap).value;
      assert ValidNode(plan.nodes[n - 1], n - 1);
      forall i | 0 <= i < |remap| ensures remap[i] < |nodes| {
        assert Stands(plan, nodes, remap, i);
      }
      RemapValid(plan.nodes[n - 1], remap, n - 1, |nodes|);
      Extends(plan, nodes, remap, node);
    }
  }

  lemma Extends(plan: LogicalPlan, nodes: seq<LogicalNode>, remap: seq<nat>, node: LogicalNode)
    requires |remap| < |plan.nodes| && Kept(nodes) && |nodes| <= |remap|
    requires forall id | 0 <= id < |remap| :: Stands(plan, nodes, remap, id)
    requires RemapNode(plan.nodes[|remap|], remap) == Success(node)
    requires ValidNode(node, |nodes|) && TestsEarlier(node, |nodes|)
    ensures var (more, numbers) := Extend((nodes, remap), node);
            && Kept(more) && |more| <= |numbers| == |remap| + 1
            && forall id | 0 <= id < |numbers| :: Stands(plan, more, numbers, id)
  {
    var (more, numbers) := Extend((nodes, remap), node);
    hide ValidNode, RemapNode, TestsEarlier;
    forall k | 0 <= k < |more|
      ensures ValidNode(more[k], k) && TestsEarlier(more[k], k) && !Idle(more[k], more[..k])
    {
      assert more[..k] == nodes[..k];
    }
    assert node.Slice? || node.Distinct? ==> node.input < |nodes| by {
      assert ValidNode(node, |nodes|);
      InputBelow(node, |nodes|);
    }
    forall id | 0 <= id < |numbers| ensures Stands(plan, more, numbers, id) {
      if id < |remap| {
        assert Stands(plan, nodes, remap, id);
        assert numbers[..id] == remap[..id];
      } else {
        assert numbers[..id] == remap;
      }
    }
  }

  lemma InputBelow(node: LogicalNode, bound: nat)
    requires ValidNode(node, bound)
    ensures node.Slice? || node.Distinct? ==> node.input < bound
  {
    assert node.Slice? || node.Distinct? ==> Dependencies(node)[0] == node.input;
  }

  // ----- evaluation under the new numbers -----

  /** The new runtime answers the new numbers as the old one answers the old. */
  ghost predicate Answers(rt: Runtime, after: Runtime, remap: seq<nat>) {
    && after.host == rt.host && after.ctx == rt.ctx
    && forall q: nat | q < |remap| :: after.exists_(remap[q]) == rt.exists_(q)
  }

  lemma {:induction false} NodeRenumbered(rt: Runtime, after: Runtime, e: Prepared, remap: seq<nat>, id: nat)
    requires WellFormed(e) && RemapTests(e, remap).Success? && WellFormed(RemapTests(e, remap).value)
    requires Answers(rt, after, remap) && id < |e.nodes|
    ensures EvalNode(after, RemapTests(e, remap).value.nodes, id) == EvalNode(rt, e.nodes, id)
    decreases id + 1, 0
  {
    var nodes := RemapTests(e, remap).value.nodes;
    assert nodes[id] == Renumbered(e.nodes[id], remap);
    assert ChildrenBelow(e.nodes[id].kind, id);
    hide EvalNodes, Topological, TestsBelow, RemapTests;
    match e.nodes[id].kind
    case UnaryK(_, input) => NodeRenumbered(rt, after, e, remap, input);
    case BinaryK(_, left, right) =>
      NodeRenumbered(rt, after, e, remap, left);
      NodeRenumbered(rt, after, e, remap, right);
    case MembershipK(input, candidates, _) =>
      NodeRenumbered(rt, after, e, remap, input);
      NodesRenumbered(rt, after, e, remap, candidates, id);
    case ConditionalK(condition, whenTrue, whenFalse) =>
      NodeRenumbered(rt, after, e, remap, condition);
      NodeRenumbered(rt, after, e, remap, whenTrue);
      NodeRenumbered(rt, after, e, remap, whenFalse);
    case CallK(_, arguments) => NodesRenumbered(rt, after, e, remap, arguments, id);
    case _ =>
  }

  lemma {:induction false} NodesRenumbered(rt: Runtime, after: Runtime, e: Prepared, remap: seq<nat>, ids: seq<nat>,
      bound: nat)
    requires WellFormed(e) && RemapTests(e, remap).Success? && WellFormed(RemapTests(e, remap).value)
    requires Answers(rt, after, remap) && bound <= |e.nodes| && forall i | 0 <= i < |ids| :: ids[i] < bound
    ensures |RemapTests(e, remap).value.nodes| == |e.nodes|
    ensures EvalNodes(after, RemapTests(e, remap).value.nodes, ids, bound) == EvalNodes(rt, e.nodes, ids, bound)
    decreases bound, |ids|
  {
    hide EvalNode, Answers;
    if ids != [] {
      NodeRenumbered(rt, after, e, remap, ids[0]);
      NodesRenumbered(rt, after, e, remap, ids[1..], bound);
    }
  }

  // ----- rows under the new numbers -----

  /** Inputs that differ in the plan alone, whose existential tests agree under the new numbers. */
  ghost predicate Agree(inputs: Inputs, after: Inputs, remap: seq<nat>, resolver: Resolver, afterwards: Resolver) {
    && after == inputs.(plan := after.plan)
    && forall scopes, q: nat | q < |remap| :: afterwards(scopes, remap[q]) == resolver(scopes, q)
  }

  lemma ExprRenumbered(inputs: Inputs, after: Inputs, e: Prepared, remap: seq<nat>, row: WorkingRow,
      outer: seq<ScopeRecord>, resolver: Resolver, afterwards: Resolver)
    requires WellFormed(e) && RemapTests(e, remap).Success? && WellFormed(RemapTests(e, remap).value)
    requires Agree(inputs, after, remap, resolver, afterwards)
    ensures EvaluateExpr(after, RemapTests(e, remap).value, row, outer, afterwards)
         == EvaluateExpr(inputs, e, row, outer, resolver)
  {
    var scopes := VisibleScopes(outer, row, e.outerScopes);
    NodeRenumbered(RuntimeFor(inputs, scopes, resolver), RuntimeFor(after, scopes, afterwards), e, remap, e.root);
    hide EvalNode, Topological, TestsBelow;
  }

  lemma {:induction false} AllUntouched(inputs: Inputs, after: Inputs, es: seq<Prepared>, remap: seq<nat>,
      row: WorkingRow, outer: seq<ScopeRecord>, resolver: Resolver, afterwards: Resolver)
    requires forall i | 0 <= i < |es| :: WellFormed(es[i]) && NoExists(es[i])
    requires Agree(inputs, after, remap, resolver, afterwards)
    ensures EvaluateAll(after, es, row, outer, afterwards) == EvaluateAll(inputs, es, row, outer, resolver)
  {
    hide EvaluateExpr, WellFormed, Agree;
    if es != [] {
      NothingRenumbered(es[0], remap);
      ExprRenumbered(inputs, after, es[0], remap, row, outer, resolver, afterwards);
      AllUntouched(inputs, after, es[1..], remap, row, outer, resolver, afterwards);
    }
  }

  lemma NothingRenumbered(e: Prepared, remap: seq<nat>)
    requires NoExists(e)
    ensures RemapTests(e, remap) == Success(e)
  {
    assert TestsBelow(e, |remap|);
    assert RemapTests(e, remap).value.nodes == e.nodes;
  }

  /** Projections test no subquery: the planner binds existential tests in conditions alone. */
  predicate TestsInConditions(node: LogicalNode) {
    node.Project? ==> forall i | 0 <= i < |node.projection.expressions| :: NoExists(node.projection.expressions[i])
  }

  lemma {:induction false} RowsRenumbered(inputs: Inputs, after: Inputs, node: LogicalNode, remap: seq<nat>,
      rows: seq<WorkingRow>, outer: seq<ScopeRecord>, resolver: Resolver, afterwards: Resolver)
    requires RowWise(node) && TestsInConditions(node)
    requires RemapNode(node, remap).Success? && RowWise(RemapNode(node, remap).value)
    requires Agree(inputs, after, remap, resolver, afterwards)
    ensures RowStages(after, RemapNode(node, remap).value, rows, outer, afterwards)
         == RowStages(inputs, node, rows, outer, resolver)
  {
    if rows != [] {
      RowRenumbered(inputs, after, node, remap, rows[0], outer, resolver, afterwards);
      RowsRenumbered(inputs, after, node, remap, rows[1..], outer, resolver, afterwards);
      hide RowStage, RowWise, Agree, RemapNode, TestsInConditions;
    }
  }

  lemma RowRenumbered(inputs: Inputs, after: Inputs, node: LogicalNode, remap: seq<nat>, row: WorkingRow,
      outer: seq<ScopeRecord>, resolver: Resolver, afterwards: Resolver)
    requires RowWise(node) && TestsInConditions(node)
    requires RemapNode(node, remap).Success? && RowWise(RemapNode(node, remap).value)
    requires Agree(inputs, after, remap, resolver, afterwards)
    ensures RowStage(after, RemapNode(node, remap).value, row, outer, afterwards)
         == RowStage(inputs, node, row, outer, resolver)
  {
    var moved := RemapNode(node, remap).value;
    assert ExpressionsOf(node) == ExpressionsOf(node) && ExpressionsOf(moved) == ExpressionsOf(moved);
    hide EvaluateExpr, WellFormed, Agree, EvaluateAll, RemapTests;
    match node
    case Filter(_, condition) =>
      assert ExpressionsOf(node)[0] == condition && ExpressionsOf(moved)[0] == moved.condition;
      ExprRenumbered(inputs, after, condition, remap, row, outer, resolver, afterwards);
    case Project(_, projection) =>
      assert forall i | 0 <= i < |projection.expressions| :: WellFormed(ExpressionsOf(node)[i]);
      AllUntouched(inputs, after, projection.expressions, remap, row, outer, resolver, afterwards);
    case Unnest(_, _) =>
  }

  // ----- distinct rows stay distinct -----

  predicate AllNew(rows: seq<WorkingRow>) {
    forall i, j | 0 <= i < j < |rows| :: !SameOutput(rows[i], rows[j])
  }

  lemma {:induction false} PushedNew(kept: seq<WorkingRow>, rows: seq<WorkingRow>)
    requires AllNew(kept)
    ensures AllNew(PushUnique(kept, rows))
    decreases |rows|
  {
    hide SameOutput;
    if rows != [] {
      PushedNew(if Occurs(kept, rows[0]) then kept else kept + [rows[0]], rows[1..]);
    }
  }

  lemma {:induction false} NewPushed(kept: seq<WorkingRow>, rows: seq<WorkingRow>)
    requires AllNew(kept + rows)
    ensures PushUnique(kept, rows) == kept + rows
    decreases |rows|
  {
    hide SameOutput;
    if rows != [] {
      var all := kept + rows;
      forall i | 0 <= i < |kept| ensures !SameOutput(kept[i], rows[0]) {
        assert all[i] == kept[i] && all[|kept|] == rows[0];
      }
      assert kept + [rows[0]] + rows[1..] == all;
      NewPushed(kept + [rows[0]], rows[1..]);
    }
  }

  /** A second distinct stage changes nothing, not-a-number included. */
  lemma DistinctTwice(rows: seq<WorkingRow>)
    ensures PushUnique([], PushUnique([], rows)) == PushUnique([], rows)
  {
    PushedNew([], rows);
    var once := PushUnique([], rows);
    assert [] + once == once;
    NewPushed([], once);
  }

  // ----- the meaning is kept -----

  ghost predicate Optimizes(plan: LogicalPlan, nodes: seq<LogicalNode>, remap: seq<nat>) {
    && |remap| == |plan.nodes|
    && forall id | 0 <= id < |remap| :: Stands(plan, nodes, remap, id) && TestsInConditions(plan.nodes[id])
  }

  /** Every node has the rows of its new number, under every outer scope and at every existential depth. */
  lemma {:induction false} SameRows(inputs: Inputs, after: Inputs, remap: seq<nat>, id: nat, outer: seq<ScopeRecord>,
      depth: nat)
    requires TopologicalPlan(inputs.plan) && TopologicalPlan(after.plan) && after == inputs.(plan := after.plan)
    requires Optimizes(inputs.plan, after.plan.nodes, remap) && id < |remap| && depth <= MAX_EXISTENTIAL_DEPTH
    ensures remap[id] < |after.plan.nodes|
    ensures Meaning(after, remap[id], outer, depth) == Meaning(inputs, id, outer, depth)
    decreases MAX_EXISTENTIAL_DEPTH - depth, id + 1
  {
    var node := inputs.plan.nodes[id];
    assert ValidNode(node, id) && Stands(inputs.plan, after.plan.nodes, remap, id);
    var moved := RemapNode(node, remap[..id]).value;
    assert after.plan.nodes[remap[id]] == moved ==> ValidNode(moved, remap[id]);
    assert InputsSame(inputs, after, remap, id, outer, depth) by {
      hide Meaning;
      forall i | 0 <= i < |Dependencies(node)|
        ensures var dep := Dependencies(node)[i];
                && dep < id && remap[dep] < |after.plan.nodes|
                && Meaning(after, remap[dep], outer, depth) == Meaning(inputs, dep, outer, depth)
      {
        SameRows(inputs, after, remap, Dependencies(node)[i], outer, depth);
      }
    }
    hide Meaning;
    if RowWise(node) {
      TestsAgree(inputs, after, remap, id, depth);
      SameStage(inputs, after, remap, id, outer, depth);
    } else {
      SameOther(inputs, after, remap, id, outer, depth);
    }
  }

  lemma TestsAgree(inputs: Inputs, after: Inputs, remap: seq<nat>, id: nat, depth: nat)
    requires TopologicalPlan(inputs.plan) && TopologicalPlan(after.plan) && after == inputs.(plan := after.plan)
    requires Optimizes(inputs.plan, after.plan.nodes, remap) && id < |remap| && depth <= MAX_EXISTENTIAL_DEPTH
    ensures Agree(inputs, after, remap[..id], ResolverAt(inputs, depth), ResolverAt(after, depth))
    decreases MAX_EXISTENTIAL_DEPTH - depth, 0
  {
    hide Meaning, TopologicalPlan;
    forall scopes, q: nat | q < id
      ensures ResolverAt(after, depth)(scopes, remap[q]) == ResolverAt(inputs, depth)(scopes, q)
    {
      assert Stands(inputs.plan, after.plan.nodes, remap, q);
      assert ResolverAt(inputs, depth)(scopes, q) == ExistsMeaning(inputs, q, scopes, depth);
      assert ResolverAt(after, depth)(scopes, remap[q]) == ExistsMeaning(after, remap[q], scopes, depth);
      if depth < MAX_EXISTENTIAL_DEPTH {
        SameRows(inputs, after, remap, q, scopes, depth + 1);
      }
    }
  }

  /** What both node and new number need of the inputs of a node. */
  ghost predicate InputsSame(inputs: Inputs, after: Inputs, remap: seq<nat>, id: nat, outer: seq<ScopeRecord>,
      depth: nat)
    requires TopologicalPlan(inputs.plan) && TopologicalPlan(after.plan)
    requires id < |inputs.plan.nodes| == |remap| && depth <= MAX_EXISTENTIAL_DEPTH
  {
    forall i | 0 <= i < |Dependencies(inputs.plan.nodes[id])| ::
      var dep := Dependencies(inputs.plan.nodes[id])[i];
      && dep < id && remap[dep] < |after.plan.nodes|
      && Meaning(after, remap[dep], outer, depth) == Meaning(inputs, dep, outer, depth)
  }

  lemma SameStage(inputs: Inputs, after: Inputs, remap: seq<nat>, id: nat, outer: seq<ScopeRecord>, depth: nat)
    requires TopologicalPlan(inputs.plan) && TopologicalPlan(after.plan) && after == inputs.(plan := after.plan)
    requires |remap| == |inputs.plan.nodes| && id < |remap| && depth <= MAX_EXISTENTIAL_DEPTH
    requires Stands(inputs.plan, after.plan.nodes, remap, id) && TestsInConditions(inputs.plan.nodes[id])
    requires RowWise(inputs.plan.nodes[id]) && InputsSame(inputs, after, remap, id, outer, depth)
    requires Agree(inputs, after, remap[..id], ResolverAt(inputs, depth), ResolverAt(after, depth))
    ensures Meaning(after, remap[id], outer, depth) == Meaning(inputs, id, outer, depth)
  {
    var node := inputs.plan.nodes[id];
    var moved := RemapNode(node, remap[..id]).value;
    assert Dependencies(node)[0] == node.input && moved.input == remap[node.input];
    assert ValidNode(moved, remap[id]);
    var rows := Meaning(inputs, node.input, outer, depth);
    hide Agree, TestsInConditions;
    if rows.Success? {
      RowsRenumbered(inputs, after, node, remap[..id], rows.value, outer, ResolverAt(inputs, depth),
                     ResolverAt(after, depth));
    }
    hide RowStages, ResolverAt, ValidNode;
  }

  lemma SameOther(inputs: Inputs, after: Inputs, remap: seq<nat>, id: nat, outer: seq<ScopeRecord>, depth: nat)
    requires TopologicalPlan(inputs.plan) && TopologicalPlan(after.plan) && after == inputs.(plan := after.plan)
    requires |remap| == |inputs.plan.nodes| && id < |remap| && depth <= MAX_EXISTENTIAL_DEPTH
    requires Stands(inputs.plan, after.plan.nodes, remap, id)
    requires !RowWise(inputs.plan.nodes[id]) && InputsSame(inputs, after, remap, id, outer, depth)
    ensures Meaning(after, remap[id], outer, depth) == Meaning(inputs, id, outer, depth)
  {
    var node := inputs.plan.nodes[id];
    assert ValidNode(node, id);
    hide PushUnique, SetRows, SourceRows, RowStages, ResolverAt;
    match node
    case Source(_) =>
    case SetNode(left, right, _) =>
      assert Dependencies(node)[0] == left && Dependencies(node)[1] == right;
    case Slice(input, offset, limit) =>
      assert Dependencies(node)[0] == input;
    case Distinct(input) =>
      assert Dependencies(node)[0] == input;
      var target := after.plan.nodes[remap[id]];
      assert ValidNode(target, remap[id]) && Dependencies(target)[0] == target.input;
      if remap[id] == remap[input] && Meaning(after, target.input, outer, depth).Success? {
        DistinctTwice(Meaning(after, target.input, outer, depth).value);
      }
    case _ => assert false;
  }

  // ----- the optimizer as a whole -----

  /** Dependencies and tested subqueries are earlier nodes, and the root is a node. */
  predicate Ordered(plan: LogicalPlan) {
    && plan.root < |plan.nodes|
    && forall id | 0 <= id < |plan.nodes| :: EarlierOnly(plan.nodes[id], id)
  }

  predicate EarlierOnly(node: LogicalNode, id: nat) {
    TestsEarlier(node, id) && forall i | 0 <= i < |Dependencies(node)| :: Dependencies(node)[i] < id
  }

  lemma NodeRemaps(node: LogicalNode, remap: seq<nat>)
    ensures RemapNode(node, remap).Success? <==> EarlierOnly(node, |remap|)
  {
    hide TestsBelow;
    match node
    case Source(_) =>
    case SetNode(left, right, _) =>
      assert Dependencies(node)[0] == left && Dependencies(node)[1] == right;
    case _ =>
      assert Dependencies(node)[0] == node.input;
  }

  lemma {:induction false} PrefixExactly(plan: LogicalPlan, n: nat)
    requires n <= |plan.nodes|
    ensures OptimizePrefix(plan, n).Success? <==> forall id | 0 <= id < n :: EarlierOnly(plan.nodes[id], id)
  {
    hide RemapNode, EarlierOnly;
    if n > 0 {
      PrefixExactly(plan, n - 1);
      if OptimizePrefix(plan, n - 1).Success? {
        NodeRemaps(plan.nodes[n - 1], OptimizePrefix(plan, n - 1).value.1);
      }
    }
  }

  /** A plan is refused exactly when a node or the root refers to no earlier node. */
  lemma OptimizedExactly(plan: LogicalPlan)
    ensures OptimizePlan(plan).Success? <==> Ordered(plan)
  {
    PrefixExactly(plan, |plan.nodes|);
  }

  /**
   * The optimized plan is in order, has no idle node and no more nodes, and gives the rows of the original, or
   * its failure, under every outer scope and at every existential depth.
   */
  lemma OptimizedMeaning(inputs: Inputs, outer: seq<ScopeRecord>, depth: nat)
    requires TopologicalPlan(inputs.plan) && OptimizePlan(inputs.plan).Success? && depth <= MAX_EXISTENTIAL_DEPTH
    requires forall id | 0 <= id < |inputs.plan.nodes| :: TestsInConditions(inputs.plan.nodes[id])
    ensures var plan := OptimizePlan(inputs.plan).value;
            && TopologicalPlan(plan) && Kept(plan.nodes) && |plan.nodes| <= |inputs.plan.nodes|
            && plan.root < |plan.nodes| && plan.output == inputs.plan.output
            && inputs.plan.root < |inputs.plan.nodes|
            && Meaning(inputs.(plan := plan), plan.root, outer, depth)
               == Meaning(inputs, inputs.plan.root, outer, depth)
  {
    var plan := OptimizePlan(inputs.plan).value;
    PrefixStands(inputs.plan, |inputs.plan.nodes|);
    var (nodes, remap) := OptimizePrefix(inputs.plan, |inputs.plan.nodes|).value;
    hide Meaning, Idle, TestsEarlier, Stands, TestsInConditions;
    SameRows(inputs, inputs.(plan := plan), remap, inputs.plan.root, outer, depth);
  }

  function Identity(n: nat): (r: seq<nat>)
    ensures |r| == n && forall i | 0 <= i < n :: r[i] == i
  {
    seq(n, i => i)
  }

  lemma IdentityRemaps(node: LogicalNode, n: nat)
    requires EarlierOnly(node, n)
    ensures RemapNode(node, Identity(n)) == Success(node)
  {
    match node
    case Source(_) =>
    case SetNode(left, right, _) =>
      assert Dependencies(node)[0] == left && Dependencies(node)[1] == right;
    case Filter(input, condition) =>
      assert Dependencies(node)[0] == input;
      assert RemapTests(condition, Identity(n)).value.nodes == condition.nodes;
    case _ =>
      assert Dependencies(node)[0] == node.input;
  }

  lemma {:induction false} KeptPrefix(plan: LogicalPlan, n: nat)
    requires Kept(plan.nodes) && n <= |plan.nodes|
    ensures OptimizePrefix(plan, n) == Success((plan.nodes[..n], Identity(n)))
  {
    if n > 0 {
      KeptPrefix(plan, n - 1);
      var node := plan.nodes[n - 1];
      assert ValidNode(node, n - 1) && TestsEarlier(node, n - 1) && !Idle(node, plan.nodes[..n - 1]);
      IdentityRemaps(node, n - 1);
      hide RemapNode, ValidNode, TestsEarlier;
      assert plan.nodes[..n - 1] + [node] == plan.nodes[..n];
      assert Identity(n - 1) + [n - 1] == Identity(n);
    } else {
      assert plan.nodes[..0] == [] && Identity(0) == [];
    }
  }

  /** Optimizing again changes nothing. */
  lemma OptimizedStays(plan: LogicalPlan)
    requires TopologicalPlan(plan) && OptimizePlan(plan).Success?
    ensures OptimizePlan(OptimizePlan(plan).value) == OptimizePlan(plan)
  {
    var optimized := OptimizePlan(plan).value;
    PrefixStands(plan, |plan.nodes|);
    var (nodes, remap) := OptimizePrefix(plan, |plan.nodes|).value;
    assert Stands(plan, nodes, remap, plan.root);
    KeptPrefix(optimized, |optimized.nodes|);
    assert optimized.nodes[..|optimized.nodes|] == optimized.nodes;
  }
}
