/// Models, expression trees, prepared flat expressions and the two evaluators
/// (dol-core `model`, `expr/node.rs`, `expr/prepare.rs`, `expr/eval.rs`).

module Models {
  import opened Results
  import opened Semantics

  datatype FieldDef = FieldDef(key: string, ty: TypeDef, presence: Presence)

  datatype ReferenceDef = ReferenceDef(sourceFields: seq<string>, targetModel: string, targetFields: seq<string>)

  /** A model definition; equality of definitions stands for equality of fingerprints. */
  datatype ModelDef = ModelDef(
    key: string,
    fields: seq<FieldDef>,
    identity: Option<seq<string>>,
    uniques: seq<seq<string>>,
    references: seq<ReferenceDef>
  )

  /** A dense runtime row: one datum per field slot. */
  datatype Row = Row(model: ModelDef, values: seq<Datum>)

  /** Slot of the field with this key, searching from `start`. */
  function SlotFrom(fields: seq<FieldDef>, key: string, start: nat): (r: Option<nat>)
    requires start <= |fields|
    ensures r.Some? ==> start <= r.value < |fields| && fields[r.value].key == key
    ensures r.None? ==> forall i | start <= i < |fields| :: fields[i].key != key
    decreases |fields| - start
  {
    if start == |fields| then None
    else if fields[start].key == key then Some(start)
    else SlotFrom(fields, key, start + 1)
  }

  function FieldSlot(model: ModelDef, key: string): (r: Option<nat>)
    ensures r.Some? ==> r.value < |model.fields| && model.fields[r.value].key == key
  {
    SlotFrom(model.fields, key, 0)
  }

  /** What a dense row of a model must satisfy (width, presence and type of every slot). */
  predicate ValidRow(row: Row) {
    && |row.values| == |row.model.fields|
    && forall i | 0 <= i < |row.values| ::
         ValidDatum(row.model.fields[i].ty, row.model.fields[i].presence, row.values[i])
  }
}

module Expressions {
  import opened Results
  import opened Semantics
  import opened Models

  datatype FieldRef = FieldRef(model: string, key: string, scope: Option<string>)

  /** An authored expression; every node carries its semantic type. */
  datatype Expr =
    | FieldE(ty: TypeDef, ref: FieldRef)
    | LiteralE(ty: TypeDef, datum: Datum)
    | ParameterE(ty: TypeDef, name: string)
    | UnaryE(ty: TypeDef, op: UnaryOp, input: Expr)
    | BinaryE(ty: TypeDef, bop: BinaryOp, left: Expr, right: Expr)
    | MembershipE(ty: TypeDef, input: Expr, candidates: seq<Expr>, negate: bool)
    | ConditionalE(ty: TypeDef, condition: Expr, whenTrue: Expr, whenFalse: Expr)
    | CallE(ty: TypeDef, function_: FunctionRef, arguments: seq<Expr>)
    | ExistsE(ty: TypeDef, subquery: nat)

  /** Operation of one prepared node; operands are indices of other nodes. */
  datatype Kind =
    | FieldK(scope: nat, slot: nat, allowNull: bool)
    | LiteralK(datum: Datum)
    | ParameterK(name: string)
    | UnaryK(op: UnaryOp, input: nat)
    | BinaryK(bop: BinaryOp, left: nat, right: nat)
    | MembershipK(input: nat, candidates: seq<nat>, negate: bool)
    | ConditionalK(condition: nat, whenTrue: nat, whenFalse: nat)
    | CallK(function_: FunctionRef, arguments: seq<nat>)
    | ExistsK(subquery: nat)

  datatype Node = Node(kind: Kind, ty: TypeDef)

  datatype Prepared = Prepared(nodes: seq<Node>, root: nat, ty: TypeDef, scopes: seq<string>, outerScopes: nat)

  datatype BoundParameter = BoundParameter(ty: TypeDef, datum: Datum)

  type Parameters = map<string, BoundParameter>

  datatype EvalContext = EvalContext(records: seq<Row>, nullExtended: seq<bool>, parameters: Parameters)

  /** Everything an evaluation reads besides the expression. */
  datatype Runtime = Runtime(host: Host, ctx: EvalContext, exists_: nat -> Result<Truth>)

  /** Models in scope while field references are resolved, and the resolved subqueries. */
  datatype BindContext = BindContext(
    models: seq<ModelDef>,
    aliases: seq<Option<string>>,
    nullable: seq<bool>,
    subqueries: map<nat, nat>
  )

  ghost predicate ValidBind(bind: BindContext) {
    |bind.models| == |bind.aliases| == |bind.nullable|
  }

  // ----- steps both evaluators share -----

  function Checked(ty: TypeDef, value: Datum): Result<Datum> {
    if ValidDatum(ty, Optional, value) then Success(value) else Failure("EXPR-EVAL-110")
  }

  function ReadField(rt: Runtime, scope: nat, slot: nat, allowNull: bool, ty: TypeDef): Result<Datum> {
    if scope >= |rt.ctx.records| then Failure("EXPR-EVAL-101")
    else if slot >= |rt.ctx.records[scope].values| then Failure("EXPR-EVAL-102")
    else
      var value := rt.ctx.records[scope].values[slot];
      if allowNull && value == Datum.Null && scope < |rt.ctx.nullExtended| && rt.ctx.nullExtended[scope]
      then Success(value)
      else Checked(ty, value)
  }

  function ReadParameter(rt: Runtime, name: string, ty: TypeDef): Result<Datum> {
    if name !in rt.ctx.parameters then Failure("EXPR-EVAL-103")
    else if rt.ctx.parameters[name].ty != ty then Failure("EXPR-EVAL-111")
    else Checked(ty, rt.ctx.parameters[name].datum)
  }

  // ----- evaluation of the prepared flat form -----

  predicate ChildrenBelow(kind: Kind, bound: nat) {
    match kind
    case UnaryK(_, input) => input < bound
    case BinaryK(_, left, right) => left < bound && right < bound
    case MembershipK(input, candidates, _) => input < bound && forall i | 0 <= i < |candidates| :: candidates[i] < bound
    case ConditionalK(c, t, f) => c < bound && t < bound && f < bound
    case CallK(_, arguments) => forall i | 0 <= i < |arguments| :: arguments[i] < bound
    case _ => true
  }

  /** Every operand index is smaller than the index of the node that uses it. */
  predicate Topological(nodes: seq<Node>) {
    forall i | 0 <= i < |nodes| :: ChildrenBelow(nodes[i].kind, i)
  }

  function EvalNode(rt: Runtime, nodes: seq<Node>, id: nat): Result<Datum>
    requires Topological(nodes) && id < |nodes|
    decreases id + 1, 0
  {
    var ty := nodes[id].ty;
    match nodes[id].kind
    case FieldK(scope, slot, allowNull) => ReadField(rt, scope, slot, allowNull, ty)
    case LiteralK(datum) => Checked(ty, datum)
    case ParameterK(name) => ReadParameter(rt, name, ty)
    case UnaryK(op, input) =>
      var x :- EvalNode(rt, nodes, input);
      var value :- EvalUnary(op, x, ty);
      Checked(ty, value)
    case BinaryK(op, left, right) =>
      var x :- EvalNode(rt, nodes, left);
      if op == Coalesce && x.Val? then Checked(ty, x)
      else
        var y :- EvalNode(rt, nodes, right);
        var value :- EvalBinary(rt.host, op, x, y);
        Checked(ty, value)
    case MembershipK(input, candidates, negate) =>
      var x :- EvalNode(rt, nodes, input);
      var ys :- EvalNodes(rt, nodes, candidates, id);
      Checked(ty, Membership(x, ys, negate, false))
    case ConditionalK(condition, whenTrue, whenFalse) =>
      var c :- EvalNode(rt, nodes, condition);
      var t :- AsTruth(c);
      var value :- EvalNode(rt, nodes, if t == True then whenTrue else whenFalse);
      Checked(ty, value)
    case CallK(f, arguments) =>
      var xs :- EvalNodes(rt, nodes, arguments, id);
      var value :- rt.host.call(f, xs, ty);
      Checked(ty, value)
    case ExistsK(subquery) =>
      var t :- rt.exists_(subquery);
      Checked(ty, Val(TruthV(t)))
  }

  function EvalNodes(rt: Runtime, nodes: seq<Node>, ids: seq<nat>, bound: nat): (r: Result<seq<Datum>>)
    requires Topological(nodes) && bound <= |nodes|
    requires forall i | 0 <= i < |ids| :: ids[i] < bound
    ensures r.Success? ==> |r.value| == |ids|
    decreases bound, |ids|
  {
    if ids == [] then Success([])
    else
      var x :- EvalNode(rt, nodes, ids[0]);
      var xs :- EvalNodes(rt, nodes, ids[1..], bound);
      Success([x] + xs)
  }

  predicate ScopesMatch(prepared: Prepared, ctx: EvalContext) {
    && |ctx.records| == |prepared.scopes|
    && |ctx.nullExtended| == |ctx.records|
    && forall i | 0 <= i < |prepared.scopes| :: ctx.records[i].model.key == prepared.scopes[i]
  }

  predicate WellFormed(prepared: Prepared) {
    Topological(prepared.nodes) && prepared.root < |prepared.nodes|
  }

  function EvaluateDatum(prepared: Prepared, rt: Runtime): Result<Datum>
    requires WellFormed(prepared)
  {
    if !ScopesMatch(prepared, rt.ctx) then Failure("EXPR-EVAL-109")
    else EvalNode(rt, prepared.nodes, prepared.root)
  }

  /** Whatever a node evaluates to conforms to the node's type, or is a null the outer join put there. */
  lemma EvalNodeConforms(rt: Runtime, nodes: seq<Node>, id: nat)
    requires Topological(nodes) && id < |nodes|
    ensures var r := EvalNode(rt, nodes, id);
            r.Success? ==>
              || ValidDatum(nodes[id].ty, Optional, r.value)
              || (nodes[id].kind.FieldK? && nodes[id].kind.allowNull && r.value == Datum.Null)
  {
  }

  // ----- resolution of field references -----

  predicate Candidate(bind: BindContext, ref: FieldRef, i: nat)
    requires ValidBind(bind) && i < |bind.models|
  {
    bind.models[i].key == ref.model && (ref.scope.Some? ==> bind.aliases[i] == ref.scope)
  }

  datatype Binding = Binding(scope: nat, slot: nat, allowNull: bool)

  /** The only scope the reference can mean; none and several are different errors. */
  function ResolveFrom(bind: BindContext, ref: FieldRef, start: nat, found: Option<nat>): (r: Result<nat>)
    requires ValidBind(bind) && start <= |bind.models|
    requires found.Some? ==> found.value < start
    ensures r.Success? ==> r.value < |bind.models|
    decreases |bind.models| - start
  {
    if start == |bind.models| then
      if found.Some? then Success(found.value)
      else if ref.scope.Some? then Failure("EXPR-SCOPE-005") else Failure("EXPR-SCOPE-001")
    else if !Candidate(bind, ref, start) then ResolveFrom(bind, ref, start + 1, found)
    else if found.Some? then Failure("EXPR-SCOPE-002")
    else ResolveFrom(bind, ref, start + 1, Some(start))
  }

  function BindField(bind: BindContext, ref: FieldRef, ty: TypeDef, lift: bool): Result<Binding>
    requires ValidBind(bind)
  {
    var scope :- ResolveFrom(bind, ref, 0, None);
    var slot := FieldSlot(bind.models[scope], ref.key);
    if slot.None? then Failure("EXPR-SCOPE-003")
    else if bind.models[scope].fields[slot.value].ty != ty then Failure("EXPR-TYPE-002")
    else if bind.nullable[scope] && !ty.nullable && !lift then Failure("EXPR-SCOPE-006")
    else Success(Binding(scope, slot.value, bind.nullable[scope] && !ty.nullable && lift))
  }

  // ----- direct evaluation of the tree -----

  /** The reference meaning of an authored expression; `lift` says the parent is a nullable lift. */
  function Eval(bind: BindContext, rt: Runtime, e: Expr, lift: bool): Result<Datum>
    requires ValidBind(bind)
    decreases e, 1
  {
    match e
    case FieldE(ty, ref) =>
      var b :- BindField(bind, ref, ty, lift);
      ReadField(rt, b.scope, b.slot, b.allowNull, ty)
    case LiteralE(ty, datum) => Checked(ty, datum)
    case ParameterE(ty, name) => ReadParameter(rt, name, ty)
    case UnaryE(ty, op, input) =>
      var x :- Eval(bind, rt, input, op == NullableLift);
      var value :- EvalUnary(op, x, ty);
      Checked(ty, value)
    case BinaryE(ty, op, left, right) =>
      var x :- Eval(bind, rt, left, false);
      if op == Coalesce && x.Val? then Checked(ty, x)
      else
        var y :- Eval(bind, rt, right, false);
        var value :- EvalBinary(rt.host, op, x, y);
        Checked(ty, value)
    case MembershipE(ty, input, candidates, negate) =>
      var x :- Eval(bind, rt, input, false);
      var ys :- EvalAll(bind, rt, candidates);
      Checked(ty, Membership(x, ys, negate, false))
    case ConditionalE(ty, condition, whenTrue, whenFalse) =>
      var c :- Eval(bind, rt, condition, false);
      var t :- AsTruth(c);
      var value :- (if t == True then Eval(bind, rt, whenTrue, false) else Eval(bind, rt, whenFalse, false));
      Checked(ty, value)
    case CallE(ty, f, arguments) =>
      var xs :- EvalAll(bind, rt, arguments);
      var value :- rt.host.call(f, xs, ty);
      Checked(ty, value)
    case ExistsE(ty, subquery) =>
      if subquery !in bind.subqueries then Failure("EXPR-EXISTS-001")
      else
        var t :- rt.exists_(bind.subqueries[subquery]);
        Checked(ty, Val(TruthV(t)))
  }

  function EvalAll(bind: BindContext, rt: Runtime, es: seq<Expr>): (r: Result<seq<Datum>>)
    requires ValidBind(bind)
    ensures r.Success? ==> |r.value| == |es|
    decreases es, 0
  {
    if es == [] then Success([])
    else
      var x :- Eval(bind, rt, es[0], false);
      var xs :- EvalAll(bind, rt, es[1..]);
      Success([x] + xs)
  }

  /** All operands succeed exactly when each of them does, with the values in order. */
  lemma {:induction false} EvalAllMeaning(bind: BindContext, rt: Runtime, es: seq<Expr>)
    requires ValidBind(bind)
    ensures var r := EvalAll(bind, rt, es);
            && (r.Success? <==> forall i | 0 <= i < |es| :: Eval(bind, rt, es[i], false).Success?)
            && (r.Success? ==> forall i | 0 <= i < |es| :: Eval(bind, rt, es[i], false) == Success(r.value[i]))
  {
    if es != [] {
      var rest := es[1..];
      EvalAllMeaning(bind, rt, rest);
      assert forall i | 0 <= i < |rest| :: rest[i] == es[i + 1];
      assert forall i | 0 < i < |es| :: es[i] == rest[i - 1];
    }
  }

  /** Size and depth count every node, a leaf being one. */
  function Size(e: Expr): (n: nat)
    ensures n >= 1
    decreases e, 1
  {
    match e
    case UnaryE(_, _, input) => 1 + Size(input)
    case BinaryE(_, _, left, right) => 1 + Size(left) + Size(right)
    case MembershipE(_, input, candidates, _) => 1 + Size(input) + SizeAll(candidates)
    case ConditionalE(_, c, t, f) => 1 + Size(c) + Size(t) + Size(f)
    case CallE(_, _, arguments) => 1 + SizeAll(arguments)
    case _ => 1
  }

  function SizeAll(es: seq<Expr>): nat
    decreases es, 0
  {
    if es == [] then 0 else Size(es[0]) + SizeAll(es[1..])
  }

  function Max(a: nat, b: nat): nat { if a < b then b else a }

  function Depth(e: Expr): (n: nat)
    ensures n >= 1
    decreases e, 1
  {
    match e
    case UnaryE(_, _, input) => 1 + Depth(input)
    case BinaryE(_, _, left, right) => 1 + Max(Depth(left), Depth(right))
    case MembershipE(_, input, candidates, _) => 1 + Max(Depth(input), DepthAll(candidates))
    case ConditionalE(_, c, t, f) => 1 + Max(Depth(c), Max(Depth(t), Depth(f)))
    case CallE(_, _, arguments) => 1 + DepthAll(arguments)
    case _ => 1
  }

  function DepthAll(es: seq<Expr>): nat
    decreases es, 0
  {
    if es == [] then 0 else Max(Depth(es[0]), DepthAll(es[1..]))
  }
}
