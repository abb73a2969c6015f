/// Limits, field resolution and flattening of an expression tree into a
/// topological node array (dol-core `expr/prepare.rs`).

module Prepare {
  import opened Results
  import opened Semantics
  import opened Models
  import opened Expressions
  import opened Normalize
  import NormalForms

  const U32_MAX: nat := 0xffff_ffff

  // ----- field resolution -----

  /** The scan over the scopes in binding order. */
  method ResolveField(bind: BindContext, ref: FieldRef) returns (r: Result<nat>)
    requires ValidBind(bind)
    ensures r == ResolveFrom(bind, ref, 0, None)
  {
    var found: Option<nat> := None;
    for index := 0 to |bind.models|
      invariant found.Some? ==> found.value < index
      invariant ResolveFrom(bind, ref, 0, None) == ResolveFrom(bind, ref, index, found)
    {
      if !Candidate(bind, ref, index) {
        continue;
      }
      if found.Some? {
        return Failure("EXPR-SCOPE-002");
      }
      found := Some(index);
    }
    if found.Some? {
      return Success(found.value);
    }
    return Failure(if ref.scope.Some? then "EXPR-SCOPE-005" else "EXPR-SCOPE-001");
  }

  /** The scope holds the model, under the alias if the reference names one. */
  predicate Matches(model: ModelDef, alias: Option<string>, ref: FieldRef) {
    model.key == ref.model && (ref.scope.None? || alias == ref.scope)
  }

  ghost predicate OnlyCandidate(bind: BindContext, ref: FieldRef, i: nat)
    requires ValidBind(bind)
  {
    && i < |bind.models| && Matches(bind.models[i], bind.aliases[i], ref)
    && forall j | 0 <= j < |bind.models| && Matches(bind.models[j], bind.aliases[j], ref) :: j == i
  }

  ghost predicate TwoCandidates(bind: BindContext, ref: FieldRef)
    requires ValidBind(bind)
  {
    exists i, j :: 0 <= i < j < |bind.models| && Matches(bind.models[i], bind.aliases[i], ref)
                && Matches(bind.models[j], bind.aliases[j], ref)
  }

  lemma {:induction false} ResolveSound(bind: BindContext, ref: FieldRef, start: nat, found: Option<nat>)
    requires ValidBind(bind) && start <= |bind.models|
    requires found.Some? ==> found.value < start && Matches(bind.models[found.value], bind.aliases[found.value], ref)
    requires forall i | 0 <= i < start && Matches(bind.models[i], bind.aliases[i], ref) :: found == Some(i)
    ensures var r := ResolveFrom(bind, ref, start, found);
            if r.Success? then OnlyCandidate(bind, ref, r.value)
            else if r == Failure("EXPR-SCOPE-002") then TwoCandidates(bind, ref)
            else forall i | 0 <= i < |bind.models| :: !Matches(bind.models[i], bind.aliases[i], ref)
    decreases |bind.models| - start
  {
    if start < |bind.models| {
      assert Candidate(bind, ref, start) == Matches(bind.models[start], bind.aliases[start], ref);
      hide Matches, Candidate;
      if !Candidate(bind, ref, start) {
        ResolveSound(bind, ref, start + 1, found);
      } else if found.None? {
        ResolveSound(bind, ref, start + 1, Some(start));
      }
    }
  }

  /** A reference resolves exactly when one scope matches; an ambiguous one is told from an unknown one. */
  lemma ResolveMeaning(bind: BindContext, ref: FieldRef)
    requires ValidBind(bind)
    ensures var r := ResolveFrom(bind, ref, 0, None);
            && (r.Success? <==> exists i :: OnlyCandidate(bind, ref, i))
            && (r.Success? ==> OnlyCandidate(bind, ref, r.value))
            && (r == Failure("EXPR-SCOPE-002") <==> TwoCandidates(bind, ref))
  {
    hide Matches;
    ResolveSound(bind, ref, 0, None);
  }

  // ----- expression limits -----

  /** Operands in the order they are visited. */
  function Children(e: Expr): seq<Expr> {
    match e
    case UnaryE(_, _, input) => [input]
    case BinaryE(_, _, left, right) => [left, right]
    case MembershipE(_, input, candidates, _) => [input] + candidates
    case ConditionalE(_, c, t, f) => [c, t, f]
    case CallE(_, _, arguments) => arguments
    case _ => []
  }

  lemma MeasureCons(x: Expr, es: seq<Expr>)
    ensures SizeAll([x] + es) == Size(x) + SizeAll(es)
    ensures DepthAll([x] + es) == Max(Depth(x), DepthAll(es))
  {
    assert ([x] + es)[1..] == es;
  }

  lemma ChildrenMeasure(e: Expr)
    ensures Size(e) == 1 + SizeAll(Children(e))
    ensures Depth(e) == 1 + DepthAll(Children(e))
  {
    match e
    case UnaryE(_, _, input) =>
      MeasureCons(input, []);
    case BinaryE(_, _, left, right) =>
      MeasureCons(right, []);
      MeasureCons(left, [right]);
    case MembershipE(_, input, candidates, _) =>
      MeasureCons(input, candidates);
    case ConditionalE(_, c, t, f) =>
      MeasureCons(f, []);
      MeasureCons(t, [f]);
      MeasureCons(c, [t, f]);
    case _ =>
  }

  datatype ExpressionLimits = ExpressionLimits(maxNodes: nat, maxDepth: nat)

  datatype Visit = Visit(node: Expr, depth: nat)

  function SizeOfStack(stack: seq<Visit>): nat {
    if stack == [] then 0 else Size(stack[|stack| - 1].node) + SizeOfStack(stack[..|stack| - 1])
  }

  /** Deepest level the pending subtrees reach. */
  function ReachOfStack(stack: seq<Visit>): nat {
    if stack == [] then 0
    else Max(stack[|stack| - 1].depth + Depth(stack[|stack| - 1].node) - 1, ReachOfStack(stack[..|stack| - 1]))
  }

  function Visits(es: seq<Expr>, depth: nat): (vs: seq<Visit>)
    ensures |vs| == |es| && forall i | 0 <= i < |vs| :: vs[i].depth == depth
  {
    seq(|es|, i requires 0 <= i < |es| => Visit(es[|es| - 1 - i], depth))
  }

  lemma {:induction false} PushVisits(stack: seq<Visit>, es: seq<Expr>, depth: nat)
    requires depth >= 1
    ensures SizeOfStack(stack + Visits(es, depth)) == SizeOfStack(stack) + SizeAll(es)
    ensures ReachOfStack(stack + Visits(es, depth))
         == Max(ReachOfStack(stack), if es == [] then 0 else depth + DepthAll(es) - 1)
  {
    var all := stack + Visits(es, depth);
    if es == [] {
      assert all == stack;
    } else {
      PushVisits(stack, es[1..], depth);
      assert all[..|all| - 1] == stack + Visits(es[1..], depth);
      DepthAllPositive(es);
    }
  }

  lemma DepthAllPositive(es: seq<Expr>)
    ensures es != [] ==> DepthAll(es) >= 1
    ensures es != [] ==> DepthAll(es) == Max(Depth(es[0]), DepthAll(es[1..]))
    ensures |es| > 1 ==> DepthAll(es[1..]) >= 1
    ensures |es| == 1 ==> DepthAll(es[1..]) == 0
  {
  }

  /** The counting traversal accepts exactly the trees within both limits, and returns the node count. */
  method CheckExpressionLimits(e: Expr, limits: ExpressionLimits) returns (r: Result<nat>)
    ensures r.Success? <==> Size(e) <= limits.maxNodes && Depth(e) <= limits.maxDepth
    ensures r.Success? ==> r.value == Size(e)
  {
    hide Size, SizeAll, Depth, Children, Visits;
    var stack := [Visit(e, 1)];
    var nodes := 0;
    assert stack[..0] == [];
    while stack != []
      invariant nodes + SizeOfStack(stack) == Size(e)
      invariant ReachOfStack(stack) <= Depth(e)
      invariant nodes <= limits.maxNodes
      invariant Depth(e) <= limits.maxDepth <==> ReachOfStack(stack) <= limits.maxDepth
      invariant forall i | 0 <= i < |stack| :: stack[i].depth >= 1
      decreases SizeOfStack(stack)
    {
      var current := stack[|stack| - 1];
      var rest := stack[..|stack| - 1];
      nodes := nodes + 1;
      if nodes > limits.maxNodes {
        return Failure("EXPR-LIMIT-001");
      }
      if current.depth > limits.maxDepth {
        return Failure("EXPR-LIMIT-002");
      }
      ChildrenMeasure(current.node);
      PushVisits(rest, Children(current.node), current.depth + 1);
      stack := rest + Visits(Children(current.node), current.depth + 1);
    }
    return Success(nodes);
  }

  // ----- flattening -----

  predicate IsLeaf(e: Expr) { e.FieldE? || e.LiteralE? || e.ParameterE? || e.ExistsE? }

  function LeafKind(bind: BindContext, e: Expr, lift: bool): Result<Kind>
    requires ValidBind(bind) && IsLeaf(e)
  {
    match e
    case FieldE(ty, ref) =>
      var b :- BindField(bind, ref, ty, lift);
      Success(FieldK(b.scope, b.slot, b.allowNull))
    case LiteralE(_, datum) => Success(LiteralK(datum))
    case ParameterE(_, name) => Success(ParameterK(name))
    case ExistsE(_, subquery) =>
      if subquery in bind.subqueries then Success(ExistsK(bind.subqueries[subquery])) else Failure("EXPR-EXISTS-001")
  }

  /** The node operation over operands that were emitted at these indices. */
  function OperatorKind(e: Expr, ids: seq<nat>): Kind
    requires !IsLeaf(e) && |ids| == |Children(e)|
  {
    match e
    case UnaryE(_, op, _) => UnaryK(op, ids[0])
    case BinaryE(_, op, _, _) => BinaryK(op, ids[0], ids[1])
    case MembershipE(_, _, _, negate) => MembershipK(ids[0], ids[1..], negate)
    case ConditionalE(_, _, _, _) => ConditionalK(ids[0], ids[1], ids[2])
    case CallE(_, f, _) => CallK(f, ids)
  }

  predicate Lifts(e: Expr) { e.UnaryE? && e.op == NullableLift }

  /** The node array after the subtree is appended; its last entry is the subtree's root. */
  function Emit(bind: BindContext, out: seq<Node>, e: Expr, lift: bool): (r: Result<seq<Node>>)
    requires ValidBind(bind)
    ensures r.Success? ==> |r.value| > |out|
    decreases Size(e), 1
  {
    if IsLeaf(e) then
      var kind :- LeafKind(bind, e, lift);
      Append(out, kind, e.ty)
    else
      ChildrenMeasure(e);
      var operands :- EmitAll(bind, out, Children(e), Lifts(e));
      Append(operands.0, OperatorKind(e, operands.1), e.ty)
  }

  function EmitAll(bind: BindContext, out: seq<Node>, es: seq<Expr>, lift: bool): (r: Result<(seq<Node>, seq<nat>)>)
    requires ValidBind(bind)
    ensures r.Success? ==> |r.value.0| >= |out| && |r.value.1| == |es|
    decreases SizeAll(es), 2
  {
    if es == [] then Success((out, []))
    else
      var out1 :- Emit(bind, out, es[0], lift);
      var rest :- EmitAll(bind, out1, es[1..], lift);
      Success((rest.0, [|out1| - 1] + rest.1))
  }

  function Append(out: seq<Node>, kind: Kind, ty: TypeDef): (r: Result<seq<Node>>)
    ensures r.Success? ==> r.value == out + [Node(kind, ty)]
  {
    if |out| > U32_MAX then Failure("EXPR-LIMIT-003") else Success(out + [Node(kind, ty)])
  }

  /** The output vector shared by the recursive flattening. */
  class Emitter {
    var nodes: seq<Node>

    constructor ()
      ensures nodes == []
    {
      nodes := [];
    }

    method Push(kind: Kind, ty: TypeDef) returns (r: Result<nat>)
      modifies this
      ensures r.Success? <==> Append(old(nodes), kind, ty).Success?
      ensures r.Success? ==> nodes == old(nodes) + [Node(kind, ty)] && r.value == |nodes| - 1
      ensures r.Failure? ==> nodes == old(nodes) && Append(old(nodes), kind, ty) == Failure(r.code)
    {
      if |nodes| > U32_MAX {
        return Failure("EXPR-LIMIT-003");
      }
      nodes := nodes + [Node(kind, ty)];
      return Success(|nodes| - 1);
    }

    /** Appends the subtree and returns the index of its root. */
    method CompileNode(bind: BindContext, e: Expr, lift: bool) returns (r: Result<nat>)
      requires ValidBind(bind)
      modifies this
      ensures r.Success? ==> Emit(bind, old(nodes), e, lift) == Success(nodes) && r.value == |nodes| - 1
      ensures r.Failure? ==> Emit(bind, old(nodes), e, lift) == Failure(r.code)
      decreases Size(e), 1
    {
      if IsLeaf(e) {
        if e.FieldE? {
          var scope :- ResolveField(bind, e.ref);
        }
        var kind := LeafKind(bind, e, lift);
        if kind.Failure? {
          return Failure(kind.code);
        }
        r := Push(kind.value, e.ty);
      } else {
        ChildrenMeasure(e);
        var ids :- CompileAll(bind, Children(e), Lifts(e));
        r := Push(OperatorKind(e, ids), e.ty);
      }
    }

    method CompileAll(bind: BindContext, es: seq<Expr>, lift: bool) returns (r: Result<seq<nat>>)
      requires ValidBind(bind)
      modifies this
      ensures r.Success? ==> EmitAll(bind, old(nodes), es, lift) == Success((nodes, r.value))
      ensures r.Failure? ==> EmitAll(bind, old(nodes), es, lift) == Failure(r.code)
      decreases SizeAll(es), 2
    {
      if es == [] {
        return Success([]);
      }
      var x :- CompileNode(bind, es[0], lift);
      var xs :- CompileAll(bind, es[1..], lift);
      return Success([x] + xs);
    }
  }

  /** Flattening appends exactly one node per tree node, children before parents, root last. */
  lemma {:induction false} EmitShape(bind: BindContext, out: seq<Node>, e: Expr, lift: bool)
    requires ValidBind(bind) && Topological(out)
    requires Emit(bind, out, e, lift).Success?
    ensures var nodes := Emit(bind, out, e, lift).value;
            && out <= nodes
            && |nodes| == |out| + Size(e)
            && Topological(nodes)
            && nodes[|nodes| - 1].ty == e.ty
    decreases Size(e), 1
  {
    ChildrenMeasure(e);
    if !IsLeaf(e) {
      EmitAllShape(bind, out, Children(e), Lifts(e));
      var (nodes, ids) := EmitAll(bind, out, Children(e), Lifts(e)).value;
      OperatorBelow(e, ids, |nodes|);
    }
  }

  lemma OperatorBelow(e: Expr, ids: seq<nat>, bound: nat)
    requires !IsLeaf(e) && |ids| == |Children(e)|
    requires forall i | 0 <= i < |ids| :: ids[i] < bound
    ensures ChildrenBelow(OperatorKind(e, ids), bound)
  {
  }

  lemma {:induction false} EmitAllShape(bind: BindContext, out: seq<Node>, es: seq<Expr>, lift: bool)
    requires ValidBind(bind) && Topological(out)
    requires EmitAll(bind, out, es, lift).Success?
    ensures var (nodes, ids) := EmitAll(bind, out, es, lift).value;
            && out <= nodes
            && |nodes| == |out| + SizeAll(es)
            && Topological(nodes)
            && forall i | 0 <= i < |ids| :: ids[i] < |nodes|
    decreases SizeAll(es), 2
  {
    if es != [] {
      EmitShape(bind, out, es[0], lift);
      EmitAllShape(bind, Emit(bind, out, es[0], lift).value, es[1..], lift);
    }
  }

  // ----- which trees can be flattened -----

  /** Exactly one scope matches, it has the field with this type, and a null extension is either typed or lifted. */
  ghost predicate FieldBinds(bind: BindContext, ty: TypeDef, ref: FieldRef, lift: bool)
    requires ValidBind(bind)
  {
    exists i: nat, slot: nat :: OnlyCandidate(bind, ref, i) && HoldsField(bind.models[i], slot, ref.key, ty)
                             && (bind.nullable[i] ==> ty.nullable || lift)
  }

  /** The first field of this key. */
  predicate HoldsField(model: ModelDef, slot: nat, key: string, ty: TypeDef) {
    && slot < |model.fields| && model.fields[slot].key == key && model.fields[slot].ty == ty
    && forall j | 0 <= j < slot :: model.fields[j].key != key
  }

  ghost predicate Binds(bind: BindContext, e: Expr, lift: bool)
    requires ValidBind(bind)
    decreases e
  {
    match e
    case FieldE(ty, ref) => FieldBinds(bind, ty, ref, lift)
    case LiteralE(_, _) => true
    case ParameterE(_, _) => true
    case ExistsE(_, subquery) => subquery in bind.subqueries
    case UnaryE(_, op, input) => Binds(bind, input, op == NullableLift)
    case BinaryE(_, _, left, right) => Binds(bind, left, false) && Binds(bind, right, false)
    case MembershipE(_, input, candidates, _) =>
      Binds(bind, input, false) && forall i | 0 <= i < |candidates| :: Binds(bind, candidates[i], false)
    case ConditionalE(_, condition, whenTrue, whenFalse) =>
      Binds(bind, condition, false) && Binds(bind, whenTrue, false) && Binds(bind, whenFalse, false)
    case CallE(_, _, arguments) => forall i | 0 <= i < |arguments| :: Binds(bind, arguments[i], false)
  }

  lemma FieldBound(bind: BindContext, ty: TypeDef, ref: FieldRef, lift: bool)
    requires ValidBind(bind)
    ensures BindField(bind, ref, ty, lift).Success? <==> FieldBinds(bind, ty, ref, lift)
  {
    ResolveMeaning(bind, ref);
    hide ResolveFrom, Matches, SlotFrom;
    var scope := ResolveFrom(bind, ref, 0, None);
    if scope.Success? && FieldSlot(bind.models[scope.value], ref.key).Some? {
      var model := bind.models[scope.value];
      var slot := FieldSlot(model, ref.key).value;
      FirstSlot(model.fields, ref.key, 0);
      assert HoldsField(model, slot, ref.key, model.fields[slot].ty);
    }
    if FieldBinds(bind, ty, ref, lift) {
      var i: nat, slot: nat :| OnlyCandidate(bind, ref, i) && HoldsField(bind.models[i], slot, ref.key, ty)
                            && (bind.nullable[i] ==> ty.nullable || lift);
      assert scope == Success(i);
      assert FieldSlot(bind.models[i], ref.key) == Some(slot);
    }
  }

  lemma {:induction false} FirstSlot(fields: seq<FieldDef>, key: string, start: nat)
    requires start <= |fields| && SlotFrom(fields, key, start).Some?
    ensures forall j | start <= j < SlotFrom(fields, key, start).value :: fields[j].key != key
    decreases |fields| - start
  {
    if fields[start].key != key {
      FirstSlot(fields, key, start + 1);
    }
  }

  lemma ChildrenBind(bind: BindContext, e: Expr, lift: bool)
    requires ValidBind(bind) && !IsLeaf(e)
    ensures Binds(bind, e, lift) <==> forall i | 0 <= i < |Children(e)| :: Binds(bind, Children(e)[i], Lifts(e))
  {
    var es := Children(e);
    match e
    case UnaryE(_, _, input) =>
      assert es[0] == input;
    case BinaryE(_, _, left, right) =>
      assert es[0] == left && es[1] == right;
    case MembershipE(_, input, candidates, _) =>
      assert es[0] == input && forall i | 0 <= i < |candidates| :: candidates[i] == es[i + 1];
    case ConditionalE(_, c, t, f) =>
      assert es[0] == c && es[1] == t && es[2] == f;
    case CallE(_, _, arguments) =>
      assert es == arguments;
  }

  /** A tree flattens exactly when its fields and subqueries bind and its nodes can be numbered. */
  lemma {:induction false} EmittedExactly(bind: BindContext, out: seq<Node>, e: Expr, lift: bool)
    requires ValidBind(bind) && |out| <= U32_MAX + 1
    ensures Emit(bind, out, e, lift).Success? <==> Binds(bind, e, lift) && |out| + Size(e) <= U32_MAX + 1
    ensures Emit(bind, out, e, lift).Success? ==> |Emit(bind, out, e, lift).value| == |out| + Size(e)
    decreases Size(e), 1
  {
    ChildrenMeasure(e);
    hide FieldBinds, BindField;
    if e.FieldE? {
      FieldBound(bind, e.ty, e.ref, lift);
    } else if !IsLeaf(e) {
      ChildrenBind(bind, e, lift);
      EmittedAllExactly(bind, out, Children(e), Lifts(e));
    }
  }

  lemma {:induction false} EmittedAllExactly(bind: BindContext, out: seq<Node>, es: seq<Expr>, lift: bool)
    requires ValidBind(bind) && |out| <= U32_MAX + 1
    ensures EmitAll(bind, out, es, lift).Success? <==>
              (forall i | 0 <= i < |es| :: Binds(bind, es[i], lift)) && |out| + SizeAll(es) <= U32_MAX + 1
    ensures EmitAll(bind, out, es, lift).Success? ==>
              |EmitAll(bind, out, es, lift).value.0| == |out| + SizeAll(es)
    decreases SizeAll(es), 2
  {
    hide Binds, Emit;
    if es != [] {
      EmittedExactly(bind, out, es[0], lift);
      if Emit(bind, out, es[0], lift).Success? {
        EmittedAllExactly(bind, Emit(bind, out, es[0], lift).value, es[1..], lift);
      }
      assert forall i | 0 < i < |es| :: es[i] == es[1..][i - 1];
      assert forall i | 0 <= i < |es| - 1 :: es[1..][i] == es[i + 1];
    }
  }

  // ----- evaluation of the flat form -----

  /** A node stands for a tree node whose operands its own operands already stand for. */
  ghost predicate StandsFor(bind: BindContext, rt: Runtime, e: Expr, nodes: seq<Node>, id: nat, ids: seq<nat>)
    requires ValidBind(bind)
  {
    && Topological(nodes) && id < |nodes|
    && !IsLeaf(e) && |ids| == |Children(e)|
    && nodes[id] == Node(OperatorKind(e, ids), e.ty)
    && forall i | 0 <= i < |ids| ::
         ids[i] < id && EvalNode(rt, nodes, ids[i]) == Eval(bind, rt, Children(e)[i], Lifts(e))
  }

  lemma UnaryStep(bind: BindContext, rt: Runtime, e: Expr, lift: bool, nodes: seq<Node>, id: nat, ids: seq<nat>)
    requires ValidBind(bind) && e.UnaryE? && StandsFor(bind, rt, e, nodes, id, ids)
    ensures EvalNode(rt, nodes, id) == Eval(bind, rt, e, lift)
  {
    assert Children(e)[0] == e.input;
  }

  lemma BinaryStep(bind: BindContext, rt: Runtime, e: Expr, lift: bool, nodes: seq<Node>, id: nat, ids: seq<nat>)
    requires ValidBind(bind) && e.BinaryE? && StandsFor(bind, rt, e, nodes, id, ids)
    ensures EvalNode(rt, nodes, id) == Eval(bind, rt, e, lift)
  {
    assert Children(e)[0] == e.left && Children(e)[1] == e.right;
  }

  lemma ConditionalStep(bind: BindContext, rt: Runtime, e: Expr, lift: bool, nodes: seq<Node>, id: nat, ids: seq<nat>)
    requires ValidBind(bind) && e.ConditionalE? && StandsFor(bind, rt, e, nodes, id, ids)
    ensures EvalNode(rt, nodes, id) == Eval(bind, rt, e, lift)
  {
    hide Checked, AsTruth;
    assert Children(e)[0] == e.condition && Children(e)[1] == e.whenTrue && Children(e)[2] == e.whenFalse;
  }

  lemma CandidatesStandFor(bind: BindContext, rt: Runtime, e: Expr, nodes: seq<Node>, id: nat, ids: seq<nat>)
    requires ValidBind(bind) && e.MembershipE? && StandsFor(bind, rt, e, nodes, id, ids)
    ensures EvalNode(rt, nodes, ids[0]) == Eval(bind, rt, e.input, false)
    ensures EvalNodes(rt, nodes, ids[1..], id) == EvalAll(bind, rt, e.candidates)
  {
    hide Eval, EvalNode, EvalNodes, EvalAll;
    assert Children(e)[0] == e.input;
    var rest := ids[1..];
    forall i | 0 <= i < |rest|
      ensures rest[i] < id && EvalNode(rt, nodes, rest[i]) == Eval(bind, rt, e.candidates[i], false)
    {
      assert rest[i] == ids[i + 1] && e.candidates[i] == Children(e)[i + 1];
    }
    NodesStep(bind, rt, e.candidates, nodes, rest, id);
  }

  lemma MembershipStep(bind: BindContext, rt: Runtime, e: Expr, lift: bool, nodes: seq<Node>, id: nat, ids: seq<nat>)
    requires ValidBind(bind) && e.MembershipE?
    requires Topological(nodes) && id < |nodes| && |ids| == |Children(e)|
    requires nodes[id] == Node(OperatorKind(e, ids), e.ty)
    requires forall i | 0 <= i < |ids| :: ids[i] < id
    requires EvalNode(rt, nodes, ids[0]) == Eval(bind, rt, e.input, false)
    requires EvalNodes(rt, nodes, ids[1..], id) == EvalAll(bind, rt, e.candidates)
    ensures EvalNode(rt, nodes, id) == Eval(bind, rt, e, lift)
  {
  }

  lemma CallStep(bind: BindContext, rt: Runtime, e: Expr, lift: bool, nodes: seq<Node>, id: nat, ids: seq<nat>)
    requires ValidBind(bind) && e.CallE?
    requires Topological(nodes) && id < |nodes| && |ids| == |Children(e)|
    requires nodes[id] == Node(OperatorKind(e, ids), e.ty)
    requires forall i | 0 <= i < |ids| :: ids[i] < id
    requires EvalNodes(rt, nodes, ids, id) == EvalAll(bind, rt, e.arguments)
    ensures EvalNode(rt, nodes, id) == Eval(bind, rt, e, lift)
  {
  }

  /** One node evaluates like its tree node when its operands do. */
  lemma NodeStep(bind: BindContext, rt: Runtime, e: Expr, lift: bool, nodes: seq<Node>, id: nat, ids: seq<nat>)
    requires ValidBind(bind) && StandsFor(bind, rt, e, nodes, id, ids)
    ensures EvalNode(rt, nodes, id) == Eval(bind, rt, e, lift)
  {
    hide Eval, EvalNode;
    match e
    case UnaryE(_, _, _) => UnaryStep(bind, rt, e, lift, nodes, id, ids);
    case BinaryE(_, _, _, _) => BinaryStep(bind, rt, e, lift, nodes, id, ids);
    case ConditionalE(_, _, _, _) => ConditionalStep(bind, rt, e, lift, nodes, id, ids);
    case MembershipE(_, _, _, _) =>
      CandidatesStandFor(bind, rt, e, nodes, id, ids);
      MembershipStep(bind, rt, e, lift, nodes, id, ids);
    case CallE(_, _, arguments) =>
      NodesStep(bind, rt, arguments, nodes, ids, id);
      CallStep(bind, rt, e, lift, nodes, id, ids);
  }

  lemma {:induction false} NodesStep(bind: BindContext, rt: Runtime, es: seq<Expr>, nodes: seq<Node>, ids: seq<nat>,
      bound: nat)
    requires ValidBind(bind) && Topological(nodes) && bound <= |nodes| && |ids| == |es|
    requires forall i | 0 <= i < |ids| :: ids[i] < bound
    requires forall i | 0 <= i < |ids| :: EvalNode(rt, nodes, ids[i]) == Eval(bind, rt, es[i], false)
    ensures EvalNodes(rt, nodes, ids, bound) == EvalAll(bind, rt, es)
    decreases |es|
  {
    hide Eval, EvalNode;
    if es != [] {
      NodesStep(bind, rt, es[1..], nodes, ids[1..], bound);
    }
  }

  lemma LeafStep(bind: BindContext, rt: Runtime, e: Expr, lift: bool, nodes: seq<Node>, id: nat)
    requires ValidBind(bind) && Topological(nodes) && id < |nodes|
    requires IsLeaf(e) && LeafKind(bind, e, lift).Success?
    requires nodes[id] == Node(LeafKind(bind, e, lift).value, e.ty)
    ensures EvalNode(rt, nodes, id) == Eval(bind, rt, e, lift)
  {
  }

  /** The last emitted node is the operator over its emitted operands. */
  lemma EmitRoot(bind: BindContext, out: seq<Node>, e: Expr, lift: bool, nodes: seq<Node>)
    requires ValidBind(bind) && Topological(out)
    requires Emit(bind, out, e, lift).Success? && Emit(bind, out, e, lift).value <= nodes
    ensures IsLeaf(e) ==>
              var id := |Emit(bind, out, e, lift).value| - 1;
              LeafKind(bind, e, lift).Success? && nodes[id] == Node(LeafKind(bind, e, lift).value, e.ty)
    ensures !IsLeaf(e) ==>
              var id := |Emit(bind, out, e, lift).value| - 1;
              var operands := EmitAll(bind, out, Children(e), Lifts(e));
              && operands.Success?
              && operands.value.0 <= nodes
              && |operands.value.0| == id
              && nodes[id] == Node(OperatorKind(e, operands.value.1), e.ty)
  {
    var emitted := Emit(bind, out, e, lift).value;
    assert nodes[|emitted| - 1] == emitted[|emitted| - 1];
    if !IsLeaf(e) {
      var operands := EmitAll(bind, out, Children(e), Lifts(e)).value;
      assert operands.0 <= emitted;
    }
  }

  /** Evaluating the emitted root, inside any longer array, is evaluating the tree. */
  lemma {:induction false} FlattenEval(
    bind: BindContext, rt: Runtime, out: seq<Node>, e: Expr, lift: bool, nodes: seq<Node>)
    requires ValidBind(bind) && Topological(out) && Topological(nodes)
    requires Emit(bind, out, e, lift).Success? && Emit(bind, out, e, lift).value <= nodes
    ensures EvalNode(rt, nodes, |Emit(bind, out, e, lift).value| - 1) == Eval(bind, rt, e, lift)
    decreases Size(e), 1
  {
    hide Eval, EvalNode, Size, SizeAll, Children, LeafKind, OperatorKind, Topological;
    var id := |Emit(bind, out, e, lift).value| - 1;
    EmitRoot(bind, out, e, lift, nodes);
    if IsLeaf(e) {
      LeafStep(bind, rt, e, lift, nodes, id);
    } else {
      ChildrenMeasure(e);
      EmitAllShape(bind, out, Children(e), Lifts(e));
      FlattenEvalAll(bind, rt, out, Children(e), Lifts(e), nodes);
      NodeStep(bind, rt, e, lift, nodes, id, EmitAll(bind, out, Children(e), Lifts(e)).value.1);
    }
  }

  lemma {:induction false} FlattenEvalAll(
    bind: BindContext, rt: Runtime, out: seq<Node>, es: seq<Expr>, lift: bool, nodes: seq<Node>)
    requires ValidBind(bind) && Topological(out) && Topological(nodes)
    requires EmitAll(bind, out, es, lift).Success? && EmitAll(bind, out, es, lift).value.0 <= nodes
    ensures var ids := EmitAll(bind, out, es, lift).value.1;
            forall i | 0 <= i < |ids| :: ids[i] < |nodes| && EvalNode(rt, nodes, ids[i]) == Eval(bind, rt, es[i], lift)
    decreases SizeAll(es), 2
  {
    hide Eval, EvalNode;
    EmitAllShape(bind, out, es, lift);
    if es != [] {
      var out1 := Emit(bind, out, es[0], lift).value;
      EmitShape(bind, out, es[0], lift);
      EmitAllShape(bind, out1, es[1..], lift);
      FlattenEval(bind, rt, out, es[0], lift, nodes);
      FlattenEvalAll(bind, rt, out1, es[1..], lift, nodes);
      var ids := EmitAll(bind, out, es, lift).value.1;
      assert ids[1..] == EmitAll(bind, out1, es[1..], lift).value.1;
      forall i | 0 <= i < |ids|
        ensures ids[i] < |nodes| && EvalNode(rt, nodes, ids[i]) == Eval(bind, rt, es[i], lift)
      {
        if i > 0 {
          assert ids[i] == ids[1..][i - 1] && es[i] == es[1..][i - 1];
        }
      }
    }
  }

  // ----- preparation as a whole -----

  function ScopeKeys(bind: BindContext): seq<string> {
    seq(|bind.models|, i requires 0 <= i < |bind.models| => bind.models[i].key)
  }

  /** Normalization, then flattening; validation is the business of `PrepareExpression`. */
  function Lower(host: Host, fp: Fingerprint, bind: BindContext, e: Expr, outer: nat): Result<Prepared>
    requires ValidBind(bind)
  {
    var normal :- NormalizeNode(host, fp, e);
    var nodes :- Emit(bind, [], normal, false);
    Success(Prepared(nodes, |nodes| - 1, normal.ty, ScopeKeys(bind), outer))
  }

  /** The literal check of validation: every literal is a required datum of its type. */
  predicate ValidLiterals(e: Expr)
    decreases e, 1
  {
    match e
    case LiteralE(ty, datum) => ValidDatum(ty, Required, datum)
    case UnaryE(_, _, input) => ValidLiterals(input)
    case BinaryE(_, _, left, right) => ValidLiterals(left) && ValidLiterals(right)
    case MembershipE(_, input, candidates, _) => ValidLiterals(input) && AllValidLiterals(candidates)
    case ConditionalE(_, condition, whenTrue, whenFalse) =>
      ValidLiterals(condition) && ValidLiterals(whenTrue) && ValidLiterals(whenFalse)
    case CallE(_, _, arguments) => AllValidLiterals(arguments)
    case _ => true
  }

  predicate AllValidLiterals(es: seq<Expr>)
    decreases es, 0
  {
    es == [] || (ValidLiterals(es[0]) && AllValidLiterals(es[1..]))
  }

  predicate SoundLiteral(node: Node) {
    node.kind.LiteralK? ==> ValidDatum(node.ty, Required, node.kind.datum)
  }

  /** The literal check is the check of every literal node of the flat form. */
  lemma {:induction false} LiteralsFlat(bind: BindContext, out: seq<Node>, e: Expr, lift: bool)
    requires ValidBind(bind) && Topological(out)
    requires Emit(bind, out, e, lift).Success?
    ensures var nodes := Emit(bind, out, e, lift).value;
            ValidLiterals(e) <==> forall i | |out| <= i < |nodes| :: SoundLiteral(nodes[i])
    decreases Size(e), 1
  {
    EmitShape(bind, out, e, lift);
    ChildrenMeasure(e);
    hide Topological, SoundLiteral;
    var nodes := Emit(bind, out, e, lift).value;
    if IsLeaf(e) {
      assert SoundLiteral(nodes[|out|]) <==> ValidLiterals(e) by { LeafLiteral(bind, e, lift, nodes[|out|]); }
    } else {
      EmitAllShape(bind, out, Children(e), Lifts(e));
      AllLiteralsFlat(bind, out, Children(e), Lifts(e));
      ChildrenLiterals(e);
      var (all, ids) := EmitAll(bind, out, Children(e), Lifts(e)).value;
      assert nodes == all + [Node(OperatorKind(e, ids), e.ty)];
      assert SoundLiteral(Node(OperatorKind(e, ids), e.ty)) by { OperatorSound(e, ids); }
      assert forall i | |out| <= i < |all| :: nodes[i] == all[i];
    }
  }

  lemma LeafLiteral(bind: BindContext, e: Expr, lift: bool, node: Node)
    requires ValidBind(bind) && IsLeaf(e) && LeafKind(bind, e, lift) == Success(node.kind) && node.ty == e.ty
    ensures SoundLiteral(node) <==> ValidLiterals(e)
  {
    hide ValidDatum, BindField;
  }

  lemma OperatorSound(e: Expr, ids: seq<nat>)
    requires !IsLeaf(e) && |ids| == |Children(e)|
    ensures SoundLiteral(Node(OperatorKind(e, ids), e.ty))
  {
  }

  lemma ChildrenLiterals(e: Expr)
    requires !IsLeaf(e)
    ensures ValidLiterals(e) <==> AllValidLiterals(Children(e))
  {
    hide ValidDatum;
    match e
    case UnaryE(_, _, input) =>
    case BinaryE(_, _, left, right) =>
      assert Children(e)[1..] == [right] && AllValidLiterals([right]) == ValidLiterals(right);
    case MembershipE(_, input, candidates, _) =>
      assert ([input] + candidates)[1..] == candidates;
    case ConditionalE(_, c, t, f) =>
      assert Children(e)[1..] == [t, f] && [t, f][1..] == [f];
      assert AllValidLiterals([f]) == ValidLiterals(f);
      assert AllValidLiterals([t, f]) == (ValidLiterals(t) && ValidLiterals(f));
    case CallE(_, _, arguments) =>
  }

  lemma {:induction false} AllLiteralsFlat(bind: BindContext, out: seq<Node>, es: seq<Expr>, lift: bool)
    requires ValidBind(bind) && Topological(out)
    requires EmitAll(bind, out, es, lift).Success?
    ensures var nodes := EmitAll(bind, out, es, lift).value.0;
            AllValidLiterals(es) <==> forall i | |out| <= i < |nodes| :: SoundLiteral(nodes[i])
    decreases SizeAll(es), 2
  {
    EmitAllShape(bind, out, es, lift);
    hide ValidLiterals, SoundLiteral, Topological;
    if es != [] {
      EmitShape(bind, out, es[0], lift);
      var first := Emit(bind, out, es[0], lift).value;
      LiteralsFlat(bind, out, es[0], lift);
      AllLiteralsFlat(bind, first, es[1..], lift);
      EmitAllShape(bind, first, es[1..], lift);
      var nodes := EmitAll(bind, out, es, lift).value.0;
      assert forall i | |out| <= i < |first| :: nodes[i] == first[i];
    }
  }

  /**
   * Limits are checked first, on the tree as authored; literals before and after normalization; and the
   * normal form must have the declared result type.
   */
  method PrepareExpression(host: Host, fp: Fingerprint, bind: BindContext, limits: ExpressionLimits, e: Expr,
      ty: TypeDef, outer: nat)
    returns (r: Result<Prepared>)
    requires ValidBind(bind)
    ensures r.Success? <==>
              && outer <= |bind.models|
              && Size(e) <= limits.maxNodes && Depth(e) <= limits.maxDepth
              && ValidLiterals(e)
              && var normal := NormalizeNode(host, fp, e);
                 normal.Success? && normal.value.ty == ty && ValidLiterals(normal.value)
                 && Binds(bind, normal.value, false) && Size(normal.value) <= U32_MAX + 1
    ensures r.Success? ==> r == Lower(host, fp, bind, e, outer)
    ensures r.Success? ==> WellFormed(r.value) && |r.value.nodes| <= limits.maxNodes
    ensures r.Success? ==> r.value.ty == ty && r.value.outerScopes == outer && |r.value.scopes| == |bind.models|
    ensures r.Success? ==> forall i | 0 <= i < |bind.models| :: r.value.scopes[i] == bind.models[i].key
    ensures r.Success? ==> forall i | 0 <= i < |r.value.nodes| :: SoundLiteral(r.value.nodes[i])
  {
    if outer > |bind.models| {
      return Failure("EXPR-SCOPE-007");
    }
    var count :- CheckExpressionLimits(e, limits);
    if !ValidLiterals(e) {
      return Failure("EXPR-LITERAL-001");
    }
    var normal := NormalizeNode(host, fp, e);
    if normal.Failure? {
      return Failure(normal.code);
    }
    if !ValidLiterals(normal.value) {
      return Failure("EXPR-LITERAL-001");
    }
    if normal.value.ty != ty {
      return Failure("EXPR-TYPE-001");
    }
    EmittedExactly(bind, [], normal.value, false);
    var emitter := new Emitter();
    var root :- emitter.CompileNode(bind, normal.value, false);
    LowerShape(host, fp, bind, e, outer);
    LiteralsFlat(bind, [], normal.value, false);
    hide Binds, ValidLiterals, SoundLiteral;
    return Success(Prepared(emitter.nodes, root, normal.value.ty, ScopeKeys(bind), outer));
  }

  lemma LowerShape(host: Host, fp: Fingerprint, bind: BindContext, e: Expr, outer: nat)
    requires ValidBind(bind) && Lower(host, fp, bind, e, outer).Success?
    ensures var p := Lower(host, fp, bind, e, outer).value;
            && WellFormed(p)
            && |p.nodes| <= Size(e)
            && p.nodes[p.root].ty == p.ty
            && p.outerScopes == outer && |p.scopes| == |bind.models|
            && forall i | 0 <= i < |bind.models| :: p.scopes[i] == bind.models[i].key
  {
    EmitShape(bind, [], NormalizeNode(host, fp, e).value, false);
    NormalForms.NormalizeShrinks(host, fp, e);
  }

  /** The flat form of a normal form evaluates like the normal form. */
  lemma FlatEvaluates(bind: BindContext, normal: Expr, p: Prepared, rt: Runtime)
    requires ValidBind(bind)
    requires Emit(bind, [], normal, false) == Success(p.nodes) && p.root == |p.nodes| - 1
    requires ScopesMatch(p, rt.ctx)
    ensures WellFormed(p)
    ensures EvaluateDatum(p, rt) == Eval(bind, rt, normal, false)
  {
    EmitShape(bind, [], normal, false);
    FlattenEval(bind, rt, [], normal, false, p.nodes);
  }

  /** A prepared expression evaluates, over the bound records, to whatever the authored tree evaluates to. */
  lemma LowerCorrect(fp: Fingerprint, bind: BindContext, e: Expr, outer: nat, rt: Runtime, p: Prepared)
    requires ValidBind(bind)
    requires Lower(rt.host, fp, bind, e, outer) == Success(p)
    requires ScopesMatch(p, rt.ctx)
    requires Eval(bind, rt, e, false).Success?
    ensures WellFormed(p)
    ensures EvaluateDatum(p, rt) == Eval(bind, rt, e, false)
  {
    var normal := NormalizeNode(rt.host, fp, e).value;
    FlatEvaluates(bind, normal, p, rt);
    NormalizePreserves(bind, rt, fp, e, false, false);
  }
}
