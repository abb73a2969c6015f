/// Logical plans, working rows and the meaning of each stage and of a whole plan
/// (dol-core `plan`, `engines/memory/src/executor.rs` and `executor/{row,ops}.rs`).

module Plans {
  import opened Results
  import opened Semantics
  import opened Models
  import opened Expressions

  datatype ProjectionKind = ValueProjection | TupleProjection | RecordProjection

  datatype Projection = Projection(kind: ProjectionKind, expressions: seq<Prepared>, names: seq<string>, ty: TypeDef)

  datatype SetOperator = UnionAll | Union | Intersect | Except

  datatype LogicalNode =
    | Source(model: ModelDef)
    | Filter(input: nat, condition: Prepared)
    | Project(input: nat, projection: Projection)
    | Unnest(input: nat, element: TypeDef)
    | Distinct(input: nat)
    | Slice(input: nat, offset: nat, limit: Option<nat>)
    | SetNode(left: nat, right: nat, operator_: SetOperator)

  datatype PlanOutput = ModelOutput(model: ModelDef) | ValueOutput(ty: TypeDef)

  datatype LogicalPlan = LogicalPlan(nodes: seq<LogicalNode>, root: nat, output: PlanOutput)

  datatype ExecutionRow = ModelRow(row: Row) | ValueRow(datum: Datum)

  /** A bound scope: a record, or the null extension an outer join puts there. */
  datatype ScopeRecord = Present(row: Row) | NullScope(model: ModelDef)

  datatype WorkingRow = WorkingRow(output: ExecutionRow, scopes: seq<ScopeRecord>)

  datatype MemoryTable = MemoryTable(model: ModelDef, rows: seq<Row>)

  type Tables = map<string, MemoryTable>

  /** What an execution reads: it changes none of it. */
  datatype Inputs = Inputs(tables: Tables, plan: LogicalPlan, parameters: Parameters, host: Host)

  /** Answers an existential test of a subquery under the given outer scopes. */
  type Resolver = (seq<ScopeRecord>, nat) -> Result<Truth>

  /** Contexts outside a pipeline answer no existential test. */
  function NoResolver(q: nat): Result<Truth> { Failure("EXPR-EVAL-112") }

  predicate NoExists(e: Prepared) {
    forall i | 0 <= i < |e.nodes| :: !e.nodes[i].kind.ExistsK?
  }

  function Dependencies(node: LogicalNode): seq<nat> {
    match node
    case Source(_) => []
    case SetNode(left, right, _) => [left, right]
    case _ => [node.input]
  }

  function ExpressionsOf(node: LogicalNode): seq<Prepared> {
    match node
    case Filter(_, condition) => [condition]
    case Project(_, projection) => projection.expressions
    case _ => []
  }

  predicate ValidNode(node: LogicalNode, index: nat) {
    && (forall i | 0 <= i < |Dependencies(node)| :: Dependencies(node)[i] < index)
    && (forall i | 0 <= i < |ExpressionsOf(node)| :: WellFormed(ExpressionsOf(node)[i]))
  }

  /** Every node reads only earlier nodes, as the planner emits them. */
  predicate TopologicalPlan(plan: LogicalPlan) {
    forall i | 0 <= i < |plan.nodes| :: ValidNode(plan.nodes[i], i)
  }

  // ----- expressions over working rows -----

  function BindScope(scope: ScopeRecord): Row {
    match scope
    case Present(row) => row
    case NullScope(model) => Row(model, seq(|model.fields|, _ => Datum.Null))
  }

  function MinNat(a: nat, b: nat): nat { if a < b then a else b }

  function VisibleScopes(outer: seq<ScopeRecord>, row: WorkingRow, outerScopes: nat): seq<ScopeRecord> {
    outer[..MinNat(|outer|, outerScopes)] + row.scopes
  }

  function Context(scopes: seq<ScopeRecord>, parameters: Parameters): EvalContext {
    EvalContext(seq(|scopes|, i requires 0 <= i < |scopes| => BindScope(scopes[i])),
                seq(|scopes|, i requires 0 <= i < |scopes| => scopes[i].NullScope?),
                parameters)
  }

  function RuntimeFor(inputs: Inputs, scopes: seq<ScopeRecord>, resolver: Resolver): Runtime {
    Runtime(inputs.host, Context(scopes, inputs.parameters), (q: nat) => resolver(scopes, q))
  }

  function EvaluateExpr(inputs: Inputs, e: Prepared, row: WorkingRow, outer: seq<ScopeRecord>,
      resolver: Resolver): Result<Datum>
    requires WellFormed(e)
  {
    EvaluateDatum(e, RuntimeFor(inputs, VisibleScopes(outer, row, e.outerScopes), resolver))
  }

  function EvaluateAll(inputs: Inputs, es: seq<Prepared>, row: WorkingRow, outer: seq<ScopeRecord>, resolver: Resolver)
    : (r: Result<seq<Datum>>)
    requires forall i | 0 <= i < |es| :: WellFormed(es[i])
    ensures r.Success? ==> |r.value| == |es|
  {
    if es == [] then Success([])
    else
      var x :- EvaluateExpr(inputs, es[0], row, outer, resolver);
      var xs :- EvaluateAll(inputs, es[1..], row, outer, resolver);
      Success([x] + xs)
  }

  function ZipFields(names: seq<string>, values: seq<Datum>): (fields: seq<Field>)
    requires |names| == |values|
    ensures |fields| == |names| && forall i | 0 <= i < |names| :: fields[i] == Field(names[i], values[i])
  {
    seq(|names|, i requires 0 <= i < |names| => Field(names[i], values[i]))
  }

  /** The projected datum, shaped by the projection kind and checked against its type. */
  function ShapeProjection(projection: Projection, values: seq<Datum>): Result<Datum> {
    var datum :- match projection.kind
                 case ValueProjection => (if values == [] then Failure("MEMORY-PROJECT-001") else Success(values[0]))
                 case TupleProjection => Success(Val(TupleV(values)))
                 case RecordProjection =>
                   (if |projection.names| != |values| then Failure("MEMORY-PROJECT-002")
                    else Success(Val(RecordV(ZipFields(projection.names, values)))));
    if ValidDatum(projection.ty, Required, datum) then Success(datum) else Failure("RUNTIME")
  }

  function EvaluateProjection(inputs: Inputs, projection: Projection, row: WorkingRow, outer: seq<ScopeRecord>,
      resolver: Resolver)
    : Result<Datum>
    requires forall i | 0 <= i < |projection.expressions| :: WellFormed(projection.expressions[i])
  {
    var values :- EvaluateAll(inputs, projection.expressions, row, outer, resolver);
    ShapeProjection(projection, values)
  }

  // ----- stages -----

  function AsWorkingRows(rows: seq<Row>): (r: seq<WorkingRow>)
    ensures |r| == |rows| && forall i | 0 <= i < |rows| :: r[i] == WorkingRow(ModelRow(rows[i]), [Present(rows[i])])
  {
    seq(|rows|, i requires 0 <= i < |rows| => WorkingRow(ModelRow(rows[i]), [Present(rows[i])]))
  }

  function SourceRows(tables: Tables, model: ModelDef): Result<seq<WorkingRow>> {
    if model.key !in tables then Failure("MEMORY-SOURCE-001")
    else if tables[model.key].model != model then Failure("MEMORY-SOURCE-002")
    else Success(AsWorkingRows(tables[model.key].rows))
  }

  /** Only True keeps a row; a condition that is not a truth value is an error. */
  function Keeps(datum: Datum): Result<bool> {
    if datum.Val? && datum.value.TruthV? then Success(datum.value.t == True) else Failure("MEMORY-FILTER-001")
  }

  function FilterRow(inputs: Inputs, condition: Prepared, row: WorkingRow, outer: seq<ScopeRecord>, resolver: Resolver)
    : Result<seq<WorkingRow>>
    requires WellFormed(condition)
  {
    var datum :- EvaluateExpr(inputs, condition, row, outer, resolver);
    var keep :- Keeps(datum);
    Success(if keep then [row] else [])
  }

  function ProjectRow(inputs: Inputs, projection: Projection, row: WorkingRow, outer: seq<ScopeRecord>,
      resolver: Resolver)
    : Result<seq<WorkingRow>>
    requires forall i | 0 <= i < |projection.expressions| :: WellFormed(projection.expressions[i])
  {
    var datum :- EvaluateProjection(inputs, projection, row, outer, resolver);
    Success([WorkingRow(ValueRow(datum), [])])
  }

  function Elements(element: TypeDef, items: seq<Datum>): Result<seq<WorkingRow>> {
    if items == [] then Success([])
    else if !ValidDatum(element, Required, items[0]) then Failure("RUNTIME")
    else
      var rest :- Elements(element, items[1..]);
      Success([WorkingRow(ValueRow(items[0]), [])] + rest)
  }

  function UnnestRow(element: TypeDef, row: WorkingRow): Result<seq<WorkingRow>> {
    match row.output
    case ModelRow(_) => Failure("MEMORY-UNNEST-001")
    case ValueRow(Val(ListV(items))) => Elements(element, items)
    case ValueRow(Val(_)) => Failure("MEMORY-UNNEST-002")
    case ValueRow(_) => Success([])
  }

  /** A stage that treats one row at a time, with usable expressions. */
  predicate RowWise(node: LogicalNode) {
    && (node.Filter? || node.Project? || node.Unnest?)
    && forall i | 0 <= i < |ExpressionsOf(node)| :: WellFormed(ExpressionsOf(node)[i])
  }

  /** What a row-at-a-time stage makes of one row. */
  function RowStage(inputs: Inputs, node: LogicalNode, row: WorkingRow, outer: seq<ScopeRecord>, resolver: Resolver)
    : Result<seq<WorkingRow>>
    requires RowWise(node)
  {
    match node
    case Filter(_, condition) =>
      assert ExpressionsOf(node)[0] == condition;
      FilterRow(inputs, condition, row, outer, resolver)
    case Project(_, projection) =>
      assert ExpressionsOf(node) == projection.expressions;
      ProjectRow(inputs, projection, row, outer, resolver)
    case Unnest(_, element) => UnnestRow(element, row)
  }

  function RowStages(inputs: Inputs, node: LogicalNode, rows: seq<WorkingRow>, outer: seq<ScopeRecord>,
      resolver: Resolver)
    : Result<seq<WorkingRow>>
    requires RowWise(node)
  {
    if rows == [] then Success([])
    else
      var first :- RowStage(inputs, node, rows[0], outer, resolver);
      var rest :- RowStages(inputs, node, rows[1..], outer, resolver);
      Success(first + rest)
  }

  function Take<T>(rows: seq<T>, limit: Option<nat>): seq<T> {
    if limit.None? || limit.value >= |rows| then rows else rows[..limit.value]
  }

  function Skip<T>(rows: seq<T>, offset: nat): seq<T> {
    if offset >= |rows| then [] else rows[offset..]
  }

  function SliceRows<T>(rows: seq<T>, offset: nat, limit: Option<nat>): seq<T> {
    Take(Skip(rows, offset), limit)
  }

  predicate DatumsEq(xs: seq<Datum>, ys: seq<Datum>) {
    |xs| == |ys| && forall i | 0 <= i < |xs| :: DatumEq(xs[i], ys[i])
  }

  /** Row equality of the output, with DOL value equality. */
  predicate SameOutput(a: WorkingRow, b: WorkingRow) {
    match (a.output, b.output)
    case (ModelRow(r), ModelRow(s)) => r.model == s.model && DatumsEq(r.values, s.values)
    case (ValueRow(d), ValueRow(e)) => DatumEq(d, e)
    case _ => false
  }

  predicate Occurs(rows: seq<WorkingRow>, row: WorkingRow) {
    exists i | 0 <= i < |rows| :: SameOutput(rows[i], row)
  }

  /** Appends the rows that do not occur yet, in order. */
  function PushUnique(kept: seq<WorkingRow>, rows: seq<WorkingRow>): seq<WorkingRow>
    decreases |rows|
  {
    if rows == [] then kept
    else PushUnique(if Occurs(kept, rows[0]) then kept else kept + [rows[0]], rows[1..])
  }

  function Restrict(rows: seq<WorkingRow>, other: seq<WorkingRow>, present: bool): seq<WorkingRow> {
    if rows == [] then []
    else (if Occurs(other, rows[0]) == present then [rows[0]] else []) + Restrict(rows[1..], other, present)
  }

  function SetRows(operator_: SetOperator, left: seq<WorkingRow>, right: seq<WorkingRow>): seq<WorkingRow> {
    match operator_
    case UnionAll => left + right
    case Union => PushUnique([], left + right)
    case Intersect => PushUnique([], Restrict(left, right, true))
    case Except => PushUnique([], Restrict(left, right, false))
  }

  /** What the caller of a plan receives. */
  function Outputs(rows: seq<WorkingRow>): (r: seq<ExecutionRow>)
    ensures |r| == |rows| && forall k | 0 <= k < |rows| :: r[k] == rows[k].output
  {
    seq(|rows|, k requires 0 <= k < |rows| => rows[k].output)
  }

  // ----- the meaning of a plan -----

  const MAX_EXISTENTIAL_DEPTH: nat := 256

  /** The rows of node `id`, by recursion on the graph; `depth` counts enclosing existential tests. */
  function Meaning(inputs: Inputs, id: nat, outer: seq<ScopeRecord>, depth: nat): Result<seq<WorkingRow>>
    requires TopologicalPlan(inputs.plan) && id < |inputs.plan.nodes| && depth <= MAX_EXISTENTIAL_DEPTH
    decreases MAX_EXISTENTIAL_DEPTH - depth, id + 1, 0
  {
    var node := inputs.plan.nodes[id];
    assert ValidNode(node, id);
    match node
    case Source(model) => SourceRows(inputs.tables, model)
    case SetNode(left, right, operator_) =>
      assert Dependencies(node)[0] == left && Dependencies(node)[1] == right;
      var l :- Meaning(inputs, left, outer, depth);
      var r :- Meaning(inputs, right, outer, depth);
      Success(SetRows(operator_, l, r))
    case Slice(input, offset, limit) =>
      assert Dependencies(node)[0] == input;
      var rows :- Meaning(inputs, input, outer, depth);
      Success(SliceRows(rows, offset, limit))
    case Distinct(input) =>
      assert Dependencies(node)[0] == input;
      var rows :- Meaning(inputs, input, outer, depth);
      Success(PushUnique([], rows))
    case _ =>
      assert Dependencies(node)[0] == node.input;
      var rows :- Meaning(inputs, node.input, outer, depth);
      RowStages(inputs, node, rows, outer, ResolverAt(inputs, depth))
  }

  /** An existential test is True when its subquery has a row; nesting is bounded. */
  function ExistsMeaning(inputs: Inputs, subquery: nat, outer: seq<ScopeRecord>, depth: nat): Result<Truth>
    requires TopologicalPlan(inputs.plan) && depth <= MAX_EXISTENTIAL_DEPTH
    decreases MAX_EXISTENTIAL_DEPTH - depth, 0, 0
  {
    if depth >= MAX_EXISTENTIAL_DEPTH then Failure("MEMORY-EXISTS-001")
    else if subquery >= |inputs.plan.nodes| then Failure("MEMORY-EXEC-005")
    else
      var rows :- Meaning(inputs, subquery, outer, depth + 1);
      Success(if rows == [] then False else True)
  }

  function ResolverAt(inputs: Inputs, depth: nat): Resolver
    requires TopologicalPlan(inputs.plan) && depth <= MAX_EXISTENTIAL_DEPTH
    decreases MAX_EXISTENTIAL_DEPTH - depth, 0, 1
  {
    (scopes, q: nat) => ExistsMeaning(inputs, q, scopes, depth)
  }
}
