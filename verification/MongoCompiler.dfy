/// Lowering of prepared expressions to (state, value) pairs of aggregation
/// expressions (`engines/mongodb/src/compiler.rs`, expression half).

module MongoCompiler {
  import opened Results
  import opened Semantics
  import opened Models
  import opened Expressions
  import opened Bson

  const STATE_MISSING := 0
  const STATE_NULL := 1
  const STATE_VALUE := 2
  const TRUTH_FALSE := 0
  const TRUTH_TRUE := 1
  const TRUTH_UNKNOWN := 2

  datatype Column = Column(stateField: string, valueField: string, always: bool)

  datatype ScopeLayout = ScopeLayout(modelKey: string, fields: seq<Column>)

  /** A lowered datum; `always` claims that it is never Missing or Null. */
  datatype Lowered = Lowered(state: Agg, value: Agg, ty: TypeDef, always: bool)

  // ----- builders -----

  function TruthLowered(value: Agg): Lowered { Lowered(IntLit(STATE_VALUE), value, TRUTH_TYPE, true) }

  function SameScalarRepr(left: TypeDef, right: TypeDef): Result<ScalarRepr> {
    if !SupportedType(left) || !SupportedType(right) then Failure("MONGODB-CODEC-001")
    else if left.shape == right.shape then Success(left.shape.repr)
    else Failure("MONGODB-COMPILE-013")
  }

  function ValueEqual(left: Lowered, right: Lowered): Result<Agg> {
    var repr :- SameScalarRepr(left.ty, right.ty);
    var equal := EqOp(left.value, right.value);
    Success(if repr.FloatRepr? then MkAnd([NotNaN(left.value), NotNaN(right.value), equal]) else equal)
  }

  function TruthOrderRank(value: Agg): Agg {
    CondOp(EqOp(value, IntLit(TRUTH_TRUE)), IntLit(0), CondOp(EqOp(value, IntLit(TRUTH_FALSE)), IntLit(1), IntLit(2)))
  }

  predicate IsOrder(op: BinaryOp) { op in {Lt, Le, Gt, Ge} }

  function OrderOperator(op: BinaryOp): CompareOp
    requires IsOrder(op)
  {
    match op
    case Lt => CLt
    case Le => CLte
    case Gt => CGt
    case Ge => CGte
  }

  function ValueOrder(op: BinaryOp, left: Lowered, right: Lowered): Result<Agg>
    requires IsOrder(op)
  {
    var repr :- SameScalarRepr(left.ty, right.ty);
    if repr.BytesRepr? then Failure("MONGODB-COMPILE-012")
    else if repr.TruthRepr?
      then Success(Cmp(OrderOperator(op), TruthOrderRank(left.value), TruthOrderRank(right.value)))
    else
      var ordered := Cmp(OrderOperator(op), left.value, right.value);
      Success(if repr.FloatRepr? then MkAnd([NotNaN(left.value), NotNaN(right.value), ordered]) else ordered)
  }

  function ComparisonTruth(left: Lowered, right: Lowered, comparison: Agg): Lowered {
    TruthLowered(CondOp(
                   MkOr([NeOp(left.state, IntLit(STATE_VALUE)), NeOp(right.state, IntLit(STATE_VALUE))]),
                   IntLit(TRUTH_UNKNOWN),
                   CondOp(comparison, IntLit(TRUTH_TRUE), IntLit(TRUTH_FALSE))))
  }

  predicate IsTruthShape(ty: TypeDef) { ty.shape == Scalar(TruthRepr) }

  function RequireTotalTruth(value: Lowered): Result<()> {
    if !IsTruthShape(value.ty) then Failure("MONGODB-COMPILE-015")
    else if value.always then Success(())
    else Failure("MONGODB-COMPILE-014")
  }

  function BoundDatum(ty: TypeDef, datum: Datum): Result<Lowered> {
    if !SupportedType(ty) then Failure("MONGODB-CODEC-001")
    else if !ValidDatum(ty, Optional, datum) then Failure("MONGODB-PARAM-003")
    else
      var encoded :- EncodeDatum(ty, datum);
      Success(Lowered(IntLit(Tag(datum)), Lit(encoded), ty, datum.Val?))
  }

  function Tag(datum: Datum): int {
    match datum
    case Missing => STATE_MISSING
    case Null => STATE_NULL
    case Val(_) => STATE_VALUE
  }

  function CompileUnary(op: UnaryOp, input: Lowered, output: TypeDef): Result<Lowered> {
    match op
    case IsNull =>
      Success(TruthLowered(CondOp(EqOp(input.state, IntLit(STATE_NULL)), IntLit(TRUTH_TRUE), IntLit(TRUTH_FALSE))))
    case IsMissing =>
      Success(TruthLowered(CondOp(EqOp(input.state, IntLit(STATE_MISSING)), IntLit(TRUTH_TRUE), IntLit(TRUTH_FALSE))))
    case IsPresent =>
      Success(TruthLowered(CondOp(EqOp(input.state, IntLit(STATE_MISSING)), IntLit(TRUTH_FALSE), IntLit(TRUTH_TRUE))))
    case NullableLift => Success(input.(ty := output))
    case Not =>
      var _ :- RequireTotalTruth(input);
      Success(TruthLowered(CondOp(EqOp(input.value, IntLit(TRUTH_TRUE)), IntLit(TRUTH_FALSE),
                                  CondOp(EqOp(input.value, IntLit(TRUTH_FALSE)), IntLit(TRUTH_TRUE),
                                         IntLit(TRUTH_UNKNOWN)))))
    case _ => Failure("MONGODB-COMPILE-010")
  }

  /** `dominant` decides the result alone; `other` needs both sides. */
  function Connective(left: Lowered, right: Lowered, dominant: int, other: int): Agg {
    CondOp(MkOr([EqOp(left.value, IntLit(dominant)), EqOp(right.value, IntLit(dominant))]),
           IntLit(dominant),
           CondOp(MkAnd([EqOp(left.value, IntLit(other)), EqOp(right.value, IntLit(other))]),
                  IntLit(other),
                  IntLit(TRUTH_UNKNOWN)))
  }

  function DistinctEqualAgg(left: Lowered, right: Lowered, equal: Agg): Agg {
    MkAnd([EqOp(left.state, right.state),
           CondOp(MkAnd([EqOp(left.state, IntLit(STATE_VALUE)), EqOp(right.state, IntLit(STATE_VALUE))]),
                  equal, Lit(BBool(true)))])
  }

  function CompileBinary(op: BinaryOp, left: Lowered, right: Lowered, output: TypeDef): Result<Lowered> {
    if op == Eq || op == Ne then
      var equal :- ValueEqual(left, right);
      Success(ComparisonTruth(left, right, if op == Eq then equal else NotOp(equal)))
    else if IsOrder(op) then
      var comparison :- ValueOrder(op, left, right);
      Success(ComparisonTruth(left, right, comparison))
    else if op == IsDistinctFrom || op == IsNotDistinctFrom then
      var equal :- ValueEqual(left, right);
      var same := DistinctEqualAgg(left, right, equal);
      Success(TruthLowered(CondOp(if op == IsNotDistinctFrom then same else NotOp(same),
                                  IntLit(TRUTH_TRUE), IntLit(TRUTH_FALSE))))
    else if op == And || op == Or then
      var _ :- RequireTotalTruth(left);
      var _ :- RequireTotalTruth(right);
      Success(TruthLowered(if op == And then Connective(left, right, TRUTH_FALSE, TRUTH_TRUE)
                           else Connective(left, right, TRUTH_TRUE, TRUTH_FALSE)))
    else if op == Coalesce then
      var chooseLeft := EqOp(left.state, IntLit(STATE_VALUE));
      Success(Lowered(CondOp(chooseLeft, left.state, right.state), CondOp(chooseLeft, left.value, right.value),
                      output, left.always || right.always))
    else Failure("MONGODB-COMPILE-011")
  }

  function Comparisons(input: Lowered, candidates: seq<Lowered>): (r: Result<seq<Lowered>>)
    ensures r.Success? ==> |r.value| == |candidates|
  {
    if candidates == [] then Success([])
    else
      var equal :- ValueEqual(input, candidates[0]);
      var rest :- Comparisons(input, candidates[1..]);
      Success([ComparisonTruth(input, candidates[0], equal)] + rest)
  }

  function TagTests(comparisons: seq<Lowered>, tag: int): (r: seq<Agg>)
    ensures |r| == |comparisons| && forall i | 0 <= i < |r| :: r[i] == EqOp(comparisons[i].value, IntLit(tag))
  {
    seq(|comparisons|, i requires 0 <= i < |comparisons| => EqOp(comparisons[i].value, IntLit(tag)))
  }

  function CompileMembership(input: Lowered, candidates: seq<Lowered>, negate: bool): Result<Lowered> {
    var comparisons :- Comparisons(input, candidates);
    var hit, miss := if negate then TRUTH_FALSE else TRUTH_TRUE, if negate then TRUTH_TRUE else TRUTH_FALSE;
    if comparisons == [] then Success(TruthLowered(IntLit(miss)))
    else Success(TruthLowered(CondOp(MkOr(TagTests(comparisons, TRUTH_TRUE)), IntLit(hit),
                                     CondOp(MkOr(TagTests(comparisons, TRUTH_UNKNOWN)), IntLit(TRUTH_UNKNOWN),
                                            IntLit(miss)))))
  }

  function CompileConditional(condition: Lowered, whenTrue: Lowered, whenFalse: Lowered,
      output: TypeDef): Result<Lowered> {
    var _ :- RequireTotalTruth(condition);
    var test := EqOp(condition.value, IntLit(TRUTH_TRUE));
    Success(Lowered(CondOp(test, whenTrue.state, whenFalse.state), CondOp(test, whenTrue.value, whenFalse.value),
                    output, whenTrue.always && whenFalse.always))
  }

  function Operand(values: seq<Lowered>, id: nat): Result<Lowered> {
    if id < |values| then Success(values[id]) else Failure("MONGODB-COMPILE-018")
  }

  function Operands(values: seq<Lowered>, ids: seq<nat>): (r: Result<seq<Lowered>>)
    ensures r.Success? <==> forall i | 0 <= i < |ids| :: ids[i] < |values|
    ensures r.Success? ==> |r.value| == |ids| && forall i | 0 <= i < |ids| :: r.value[i] == values[ids[i]]
  {
    if ids == [] then Success([])
    else
      var x :- Operand(values, ids[0]);
      var xs :- Operands(values, ids[1..]);
      Success([x] + xs)
  }

  /** One node over the nodes already lowered. */
  function LowerNode(node: Node, values: seq<Lowered>, scopes: seq<string>, layouts: seq<ScopeLayout>,
      parameters: Parameters)
    : Result<Lowered>
  {
    match node.kind
    case FieldK(scope, slot, allowNull) =>
      if allowNull then Failure("MONGODB-COMPILE-006")
      else if scope >= |scopes| || scope >= |layouts| then Failure("MONGODB-COMPILE-018")
      else if scopes[scope] != layouts[scope].modelKey then Failure("MONGODB-COMPILE-007")
      else if slot >= |layouts[scope].fields| then Failure("MONGODB-COMPILE-018")
      else
        var column := layouts[scope].fields[slot];
        Success(Lowered(Path(column.stateField), Path(column.valueField), node.ty, column.always))
    case LiteralK(datum) => BoundDatum(node.ty, datum)
    case ParameterK(name) =>
      if name !in parameters then Failure("MONGODB-PARAM-001")
      else if parameters[name].ty != node.ty then Failure("MONGODB-PARAM-002")
      else BoundDatum(node.ty, parameters[name].datum)
    case UnaryK(op, input) =>
      var x :- Operand(values, input);
      CompileUnary(op, x, node.ty)
    case BinaryK(op, left, right) =>
      var x :- Operand(values, left);
      var y :- Operand(values, right);
      CompileBinary(op, x, y, node.ty)
    case MembershipK(input, candidates, negate) =>
      var x :- Operand(values, input);
      var ys :- Operands(values, candidates);
      CompileMembership(x, ys, negate)
    case ConditionalK(condition, whenTrue, whenFalse) =>
      var c :- Operand(values, condition);
      var t :- Operand(values, whenTrue);
      var f :- Operand(values, whenFalse);
      CompileConditional(c, t, f, node.ty)
    case CallK(_, _) => Failure("MONGODB-COMPILE-008")
    case ExistsK(_) => Failure("MONGODB-COMPILE-009")
  }

  /** The first `k` nodes, lowered in index order. */
  function LowerPrefix(p: Prepared, layouts: seq<ScopeLayout>, parameters: Parameters,
      k: nat): (r: Result<seq<Lowered>>)
    requires k <= |p.nodes|
    ensures r.Success? ==> |r.value| == k
  {
    if k == 0 then Success([])
    else
      var values :- LowerPrefix(p, layouts, parameters, k - 1);
      var last :- LowerNode(p.nodes[k - 1], values, p.scopes, layouts, parameters);
      Success(values + [last])
  }

  /** What the expression compiler returns. */
  function LowerExpr(p: Prepared, layouts: seq<ScopeLayout>, parameters: Parameters): Result<Lowered> {
    if p.outerScopes != 0 then Failure("MONGODB-COMPILE-005")
    else
      var values :- LowerPrefix(p, layouts, parameters, |p.nodes|);
      Operand(values, p.root)
  }

  lemma {:induction false} PrefixFails(p: Prepared, layouts: seq<ScopeLayout>, parameters: Parameters, k: nat, n: nat)
    requires k <= n <= |p.nodes| && LowerPrefix(p, layouts, parameters, k).Failure?
    ensures LowerPrefix(p, layouts, parameters, n) == LowerPrefix(p, layouts, parameters, k)
    decreases n
  {
    if k < n {
      PrefixFails(p, layouts, parameters, k, n - 1);
    }
  }

  /** The compiler's pass over the node array. */
  method CompileExpr(p: Prepared, layouts: seq<ScopeLayout>, parameters: Parameters) returns (r: Result<Lowered>)
    ensures r == LowerExpr(p, layouts, parameters)
  {
    if p.outerScopes != 0 {
      return Failure("MONGODB-COMPILE-005");
    }
    var values: seq<Lowered> := [];
    for i := 0 to |p.nodes|
      invariant LowerPrefix(p, layouts, parameters, i) == Success(values)
    {
      var node := LowerNode(p.nodes[i], values, p.scopes, layouts, parameters);
      if node.Failure? {
        assert LowerPrefix(p, layouts, parameters, i + 1) == Failure(node.code);
        PrefixFails(p, layouts, parameters, i + 1, |p.nodes|);
        return node;
      }
      values := values + [node.value];
    }
    return Operand(values, p.root);
  }
}
