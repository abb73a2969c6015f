/// Plans as aggregation pipelines: source, filter, projection and slice stages, the
/// collection preflight, and the row decoder (`engines/mongodb/src/{compiler,codec,mapping}.rs`).

module MongoPipeline {
  import opened Results
  import opened Semantics
  import opened Models
  import opened Expressions
  import opened Plans
  import opened Bson
  import opened MongoCompiler

  // ----- pipelines and what the server does with them -----

  datatype Computed = Computed(name: string, value: Agg)

  datatype Stage =
    | MatchExpr(test: Agg)
    | ProjectDoc(fields: seq<Computed>) // `_id` excluded
    | SkipDocs(count: nat)
    | LimitDocs(count: nat)

  function Lookup(doc: Document, name: string): Bson {
    if name in doc then doc[name] else BMissing
  }

  /** A computed field whose expression is missing is left out. */
  function ComputeFields(fields: seq<Computed>, doc: Document): Result<Document> {
    if fields == [] then Success(map[])
    else
      var value :- EvalAgg(fields[0].value, doc);
      var rest :- ComputeFields(fields[1..], doc);
      Success(if value == BMissing then rest else rest[fields[0].name := value])
  }

  /** With nothing computed, excluding `_id` keeps every other field. */
  function ProjectOne(fields: seq<Computed>, doc: Document): Result<Document> {
    if fields == [] then Success(doc - {"_id"}) else ComputeFields(fields, doc)
  }

  function ProjectDocs(fields: seq<Computed>, docs: seq<Document>): Result<seq<Document>> {
    if docs == [] then Success([])
    else
      var first :- ProjectOne(fields, docs[0]);
      var rest :- ProjectDocs(fields, docs[1..]);
      Success([first] + rest)
  }

  function MatchDocs(test: Agg, docs: seq<Document>): Result<seq<Document>> {
    if docs == [] then Success([])
    else
      var value :- EvalAgg(test, docs[0]);
      var rest :- MatchDocs(test, docs[1..]);
      Success(if Truthy(value) then [docs[0]] + rest else rest)
  }

  function RunStage(stage: Stage, docs: seq<Document>): Result<seq<Document>> {
    match stage
    case MatchExpr(test) => MatchDocs(test, docs)
    case ProjectDoc(fields) => ProjectDocs(fields, docs)
    case SkipDocs(count) => Success(Skip(docs, count))
    case LimitDocs(count) => Success(Take(docs, Some(count)))
  }

  function RunStages(stages: seq<Stage>, docs: seq<Document>): Result<seq<Document>> {
    if stages == [] then Success(docs)
    else
      var before :- RunStages(stages[..|stages| - 1], docs);
      RunStage(stages[|stages| - 1], before)
  }

  /** The server refuses a pipeline with a zero limit before it reads a document. */
  predicate Accepted(stages: seq<Stage>) {
    forall i | 0 <= i < |stages| :: stages[i] != LimitDocs(0)
  }

  function RunPipeline(stages: seq<Stage>, docs: seq<Document>): Result<seq<Document>> {
    if Accepted(stages) then RunStages(stages, docs) else Failure("SERVER-LIMIT-ZERO")
  }

  lemma RunAppend(stages: seq<Stage>, stage: Stage, docs: seq<Document>)
    requires RunStages(stages, docs).Success?
    ensures RunStages(stages + [stage], docs) == RunStage(stage, RunStages(stages, docs).value)
  {
    assert (stages + [stage])[..|stages|] == stages;
  }

  // ----- the catalog -----

  datatype CatalogEntry = CatalogEntry(model: ModelDef, collection: string, fields: map<string, string>)

  type Catalog = map<string, CatalogEntry>

  /** Top-level, not reserved: such a name read as a path is one field. */
  predicate ValidFieldName(name: string) {
    name != [] && '.' !in name && '\0' !in name && name[0] != '$' && !("__dol_" <= name)
  }

  function CheckMapping(entry: CatalogEntry, k: nat): Result<()>
    requires k <= |entry.model.fields|
  {
    if k == 0 then Success(())
    else
      var _ :- CheckMapping(entry, k - 1);
      var key := entry.model.fields[k - 1].key;
      if key !in entry.fields then Failure("MONGODB-MAP-002")
      else if !ValidFieldName(entry.fields[key]) then Failure("MONGODB-MAP-009")
      else if exists j | 0 <= j < k - 1 ::
        entry.model.fields[j].key in entry.fields && entry.fields[entry.model.fields[j].key] == entry.fields[key]
      then Failure("MONGODB-MAP-003")
      else Success(())
  }

  function Collection(catalog: Catalog, model: ModelDef): (r: Result<CatalogEntry>)
    ensures r.Success? ==> model.key in catalog && r.value == catalog[model.key] && r.value.model == model
  {
    if model.key !in catalog then Failure("MONGODB-MAP-006")
    else if catalog[model.key].model != model then Failure("MONGODB-MAP-005")
    else if |catalog[model.key].fields| != |model.fields| then Failure("MONGODB-MAP-001")
    else
      var _ :- CheckMapping(catalog[model.key], |model.fields|);
      Success(catalog[model.key])
  }

  // ----- the source stage and the preflight -----

  function SourceState(value: Agg): Agg {
    SwitchOp([Branch(EqOp(TypeOf(value), Lit(BString("missing"))), BInt32(STATE_MISSING)),
              Branch(EqOp(TypeOf(value), Lit(BString("null"))), BInt32(STATE_NULL))],
             BInt32(STATE_VALUE))
  }

  function PresenceValid(presence: Presence, nullable: bool, state: Agg): Agg {
    match presence
    case Required => if nullable then NeOp(state, IntLit(STATE_MISSING)) else EqOp(state, IntLit(STATE_VALUE))
    case Optional => if nullable then Lit(BBool(true)) else NeOp(state, IntLit(STATE_NULL))
  }

  function TypeIs(value: Agg, name: string): Agg { EqOp(TypeOf(value), Lit(BString(name))) }

  function IntegerTyped(value: Agg): Agg { MkOr([TypeIs(value, "int"), TypeIs(value, "long")]) }

  function Between(value: Agg, low: Bson, high: Bson): Agg {
    MkAnd([Cmp(CGte, value, Lit(low)), Cmp(CLte, value, Lit(high))])
  }

  function SourceValueValid(ty: TypeDef, value: Agg): Result<Agg> {
    if !SupportedType(ty) then Failure("MONGODB-CODEC-001")
    else match ty.shape.repr
      case BoolRepr => Success(TypeIs(value, "bool"))
      case TruthRepr =>
        Success(CondOp(IntegerTyped(value),
                       InOp(value, [BInt32(TRUTH_FALSE), BInt32(TRUTH_TRUE), BInt32(TRUTH_UNKNOWN)]),
                       Lit(BBool(false))))
      case IntRepr(bits) =>
        if bits == 0 then Failure("MONGODB-CODEC-003")
        else Success(CondOp(IntegerTyped(value),
                            Between(value, BInt64(-Pow2(bits - 1)), BInt64(Pow2(bits - 1) - 1)),
                            Lit(BBool(false))))
      case UIntRepr(bits) =>
        if bits == 0 then Failure("MONGODB-CODEC-003")
        else Success(CondOp(TypeIs(value, "decimal"),
                            Between(value, BDecimal(false, 0, 0), BDecimal(false, Pow2(bits) - 1, 0)),
                            Lit(BBool(false))))
      case FloatRepr => Success(TypeIs(value, "double"))
      case CharRepr =>
        Success(CondOp(TypeIs(value, "string"), EqOp(StrLenCP(value), IntLit(1)), Lit(BBool(false))))
      case StringRepr => Success(TypeIs(value, "string"))
      case BytesRepr => Success(TypeIs(value, "binData"))
  }

  function SourceFieldValid(field: FieldDef, state: Agg, value: Agg): Result<Agg> {
    var valueValid :- SourceValueValid(field.ty, value);
    Success(MkAnd([PresenceValid(field.presence, field.ty.nullable, state),
                   CondOp(EqOp(state, IntLit(STATE_VALUE)), valueValid, Lit(BBool(true)))]))
  }

  // ----- relations -----

  datatype OutputField = OutputField(stateField: string, valueField: string, ty: TypeDef)

  datatype Relation = Relation(
    collection: string,
    validation: seq<Stage>,
    pipeline: seq<Stage>,
    scopes: seq<ScopeLayout>,
    fields: seq<OutputField>,
    output: PlanOutput
  )

  /** The state and value expressions of one output position. */
  datatype Pair = Pair(state: Agg, value: Agg, ty: TypeDef)

  function PhysicalName(kind: string, stage: nat, index: nat, part: string): string {
    "__dol_" + kind + Digits(stage) + "_f" + Digits(index) + part
  }

  function StateName(kind: string, stage: nat, index: nat): string { PhysicalName(kind, stage, index, "_state") }

  function ValueName(kind: string, stage: nat, index: nat): string { PhysicalName(kind, stage, index, "_value") }

  function Entries(kind: string, stage: nat, pairs: seq<Pair>): (r: seq<Computed>)
    ensures |r| == 2 * |pairs|
    ensures forall i | 0 <= i < |pairs| ::
              && r[2 * i] == Computed(StateName(kind, stage, i), pairs[i].state)
              && r[2 * i + 1] == Computed(ValueName(kind, stage, i), pairs[i].value)
  {
    seq(2 * |pairs|, j requires 0 <= j < 2 * |pairs| =>
      if j % 2 == 0 then Computed(StateName(kind, stage, j / 2), pairs[j / 2].state)
      else Computed(ValueName(kind, stage, j / 2), pairs[j / 2].value))
  }

  function OutputFields(kind: string, stage: nat, pairs: seq<Pair>): (r: seq<OutputField>)
    ensures |r| == |pairs|
    ensures forall i | 0 <= i < |pairs| ::
              r[i] == OutputField(StateName(kind, stage, i), ValueName(kind, stage, i), pairs[i].ty)
  {
    seq(|pairs|, i requires 0 <= i < |pairs| =>
      OutputField(StateName(kind, stage, i), ValueName(kind, stage, i), pairs[i].ty))
  }

  function SourcePair(entry: CatalogEntry, field: FieldDef): Pair
    requires field.key in entry.fields
  {
    var value := Path(entry.fields[field.key]);
    Pair(SourceState(value), value, field.ty)
  }

  /** Output positions and validity tests of the first `k` fields. */
  function SourceFields(entry: CatalogEntry, k: nat): (r: Result<(seq<Pair>, seq<Agg>)>)
    requires k <= |entry.model.fields|
    ensures r.Success? ==> |r.value.0| == |r.value.1| == k
    ensures r.Success? ==> forall i | 0 <= i < k ::
                             && var field := entry.model.fields[i];
                             && field.key in entry.fields
                             && r.value.0[i] == SourcePair(entry, field)
                             && SourceFieldValid(field, r.value.0[i].state, r.value.0[i].value) == Success(r.value.1[i])
  {
    if k == 0 then Success(([], []))
    else
      var before :- SourceFields(entry, k - 1);
      var field := entry.model.fields[k - 1];
      if field.key !in entry.fields then Failure("MONGODB-MAP-002")
      else
        var pair := SourcePair(entry, field);
        var valid :- SourceFieldValid(field, pair.state, pair.value);
        Success((before.0 + [pair], before.1 + [valid]))
  }

  function SourceColumns(stage: nat, fields: seq<FieldDef>): (r: seq<Column>)
    ensures |r| == |fields|
    ensures forall i | 0 <= i < |fields| ::
              r[i] == Column(StateName("s", stage, i), ValueName("s", stage, i),
                             fields[i].presence == Required && !fields[i].ty.nullable)
  {
    seq(|fields|, i requires 0 <= i < |fields| =>
      Column(StateName("s", stage, i), ValueName("s", stage, i),
             fields[i].presence == Required && !fields[i].ty.nullable))
  }

  function CompileSource(catalog: Catalog, model: ModelDef, stage: nat): Result<Relation> {
    var entry :- Collection(catalog, model);
    var parts :- SourceFields(entry, |model.fields|);
    Success(Relation(entry.collection,
                     [MatchExpr(NotOp(MkAnd(parts.1))), LimitDocs(1), ProjectDoc([Computed("_id", Path("_id"))])],
                     [ProjectDoc(Entries("s", stage, parts.0))],
                     [ScopeLayout(model.key, SourceColumns(stage, model.fields))],
                     OutputFields("s", stage, parts.0),
                     ModelOutput(model)))
  }

  function CompileFilter(input: Relation, condition: Prepared, parameters: Parameters): Result<Relation> {
    if !IsTruthShape(condition.ty) then Failure("MONGODB-COMPILE-015")
    else
      var truth :- LowerExpr(condition, input.scopes, parameters);
      if !truth.always then Failure("MONGODB-COMPILE-003")
      else
        var test := MkAnd([EqOp(truth.state, IntLit(STATE_VALUE)), EqOp(truth.value, IntLit(TRUTH_TRUE))]);
        Success(input.(pipeline := input.pipeline + [MatchExpr(test)]))
  }

  function LowerProjection(es: seq<Prepared>, scopes: seq<ScopeLayout>, parameters: Parameters): (r: Result<seq<Pair>>)
    ensures r.Success? ==> |r.value| == |es|
  {
    if es == [] then Success([])
    else if !SupportedType(es[0].ty) then Failure("MONGODB-CODEC-001")
    else
      var datum :- LowerExpr(es[0], scopes, parameters);
      var rest :- LowerProjection(es[1..], scopes, parameters);
      Success([Pair(datum.state, datum.value, es[0].ty)] + rest)
  }

  lemma {:induction false} ProjectionLowered(es: seq<Prepared>, scopes: seq<ScopeLayout>, parameters: Parameters)
    requires LowerProjection(es, scopes, parameters).Success?
    ensures forall i | 0 <= i < |es| ::
              && SupportedType(es[i].ty)
              && var datum := LowerExpr(es[i], scopes, parameters);
              && datum.Success?
              && LowerProjection(es, scopes, parameters).value[i]
                   == Pair(datum.value.state, datum.value.value, es[i].ty)
  {
    hide SupportedType, LowerExpr;
    if es != [] {
      ProjectionLowered(es[1..], scopes, parameters);
      assert forall i | 0 < i < |es| :: es[i] == es[1..][i - 1];
    }
  }

  function CompileProject(input: Relation, projection: Projection, parameters: Parameters,
      stage: nat): Result<Relation> {
    var pairs :- LowerProjection(projection.expressions, input.scopes, parameters);
    if projection.kind == ValueProjection && |pairs| != 1 then Failure("MONGODB-COMPILE-004")
    else Success(input.(pipeline := input.pipeline + [ProjectDoc(Entries("p", stage, pairs))],
                        scopes := [],
                        fields := OutputFields("p", stage, pairs),
                        output := ValueOutput(projection.ty)))
  }

  const I64_MAX: nat := 0x7fff_ffff_ffff_ffff

  function SliceStages(offset: nat, limit: Option<nat>): seq<Stage> {
    (if offset != 0 then [SkipDocs(offset)] else []) + (if limit.Some? then [LimitDocs(limit.value)] else [])
  }

  function CompileSlice(input: Relation, offset: nat, limit: Option<nat>): Result<Relation> {
    if offset > I64_MAX || (limit.Some? && limit.value > I64_MAX) then Failure("MONGODB-COMPILE-017")
    else Success(input.(pipeline := input.pipeline + SliceStages(offset, limit)))
  }

  function Input(relations: seq<Relation>, id: nat): Result<Relation> {
    if id < |relations| then Success(relations[id]) else Failure("MONGODB-COMPILE-016")
  }

  function CompileStage(catalog: Catalog, node: LogicalNode, relations: seq<Relation>, parameters: Parameters,
      index: nat)
    : Result<Relation>
  {
    match node
    case Source(model) => CompileSource(catalog, model, index)
    case Filter(input, condition) =>
      var relation :- Input(relations, input);
      CompileFilter(relation, condition, parameters)
    case Project(input, projection) =>
      var relation :- Input(relations, input);
      CompileProject(relation, projection, parameters, index)
    case Slice(input, offset, limit) =>
      var relation :- Input(relations, input);
      CompileSlice(relation, offset, limit)
    case _ => Failure("MONGODB-COMPILE-001")
  }

  function CompilePrefix(catalog: Catalog, plan: LogicalPlan, parameters: Parameters,
      k: nat): (r: Result<seq<Relation>>)
    requires k <= |plan.nodes|
    ensures r.Success? ==> |r.value| == k
  {
    if k == 0 then Success([])
    else
      var relations :- CompilePrefix(catalog, plan, parameters, k - 1);
      var last :- CompileStage(catalog, plan.nodes[k - 1], relations, parameters, k - 1);
      Success(relations + [last])
  }

  /** What compiling a whole plan returns. */
  function CompilePlan(catalog: Catalog, plan: LogicalPlan, parameters: Parameters): Result<Relation> {
    var relations :- CompilePrefix(catalog, plan, parameters, |plan.nodes|);
    var relation :- Input(relations, plan.root);
    if relation.output != plan.output then Failure("MONGODB-COMPILE-002") else Success(relation)
  }

  lemma {:induction false} CompileFails(catalog: Catalog, plan: LogicalPlan, parameters: Parameters, k: nat, n: nat)
    requires k <= n <= |plan.nodes| && CompilePrefix(catalog, plan, parameters, k).Failure?
    ensures CompilePrefix(catalog, plan, parameters, n) == CompilePrefix(catalog, plan, parameters, k)
    decreases n
  {
    hide CompileStage;
    if k < n {
      CompileFails(catalog, plan, parameters, k, n - 1);
    }
  }

  /** The compiler's pass over the plan, which never recurses however deep the plan is. */
  method Compile(catalog: Catalog, plan: LogicalPlan, parameters: Parameters) returns (r: Result<Relation>)
    ensures r == CompilePlan(catalog, plan, parameters)
  {
    hide CompileStage;
    var relations: seq<Relation> := [];
    for index := 0 to |plan.nodes|
      invariant CompilePrefix(catalog, plan, parameters, index) == Success(relations)
    {
      var relation := CompileStage(catalog, plan.nodes[index], relations, parameters, index);
      if relation.Failure? {
        assert CompilePrefix(catalog, plan, parameters, index + 1) == Failure(relation.code);
        CompileFails(catalog, plan, parameters, index + 1, |plan.nodes|);
        return relation;
      }
      relations := relations + [relation.value];
    }
    var relation := Input(relations, plan.root);
    if relation.Success? && relation.value.output != plan.output {
      return Failure("MONGODB-COMPILE-002");
    }
    return relation;
  }

  /** Earlier relations are not touched by later nodes. */
  lemma {:induction false} PrefixRelation(catalog: Catalog, plan: LogicalPlan, parameters: Parameters, id: nat, n: nat)
    requires id < n <= |plan.nodes| && CompilePrefix(catalog, plan, parameters, n).Success?
    ensures CompilePrefix(catalog, plan, parameters, id).Success?
    ensures CompilePrefix(catalog, plan, parameters, n).value[..id]
              == CompilePrefix(catalog, plan, parameters, id).value
    ensures CompileStage(catalog, plan.nodes[id], CompilePrefix(catalog, plan, parameters, id).value, parameters, id)
         == Success(CompilePrefix(catalog, plan, parameters, n).value[id])
    decreases n
  {
    hide CompileStage;
    var relations := CompilePrefix(catalog, plan, parameters, n).value;
    var before := CompilePrefix(catalog, plan, parameters, n - 1).value;
    assert relations[..n - 1] == before;
    if id < n - 1 {
      PrefixRelation(catalog, plan, parameters, id, n - 1);
      assert relations[..id] == before[..id];
    }
  }

  // ----- the row decoder -----

  function DecodeState(b: Bson): Result<int> {
    match b
    case BInt32(i) => Success(i)
    case BInt64(i) => if -0x8000_0000 <= i <= 0x7fff_ffff then Success(i) else Failure("MONGODB-DECODE-001")
    case _ => Failure("MONGODB-DECODE-001")
  }

  function DecodeField(doc: Document, field: OutputField): Result<Datum> {
    var state :- DecodeState(Lookup(doc, field.stateField));
    if state == STATE_MISSING then Success(Missing)
    else if state == STATE_NULL then Success(Datum.Null)
    else if state == STATE_VALUE then
      var b := Lookup(doc, field.valueField);
      if b == BMissing then Failure("MONGODB-DECODE-002")
      else
        var value :- DecodeValue(field.ty, b);
        Success(Val(value))
    else Failure("MONGODB-DECODE-001")
  }

  function DecodeFields(doc: Document, fields: seq<OutputField>): (r: Result<seq<Datum>>)
    ensures r.Success? ==> |r.value| == |fields|
  {
    if fields == [] then Success([])
    else
      var first :- DecodeField(doc, fields[0]);
      var rest :- DecodeFields(doc, fields[1..]);
      Success([first] + rest)
  }

  function AssembleValue(ty: TypeDef, datums: seq<Datum>): Result<Datum> {
    match ty.shape
    case Scalar(_) => if |datums| == 1 then Success(datums[0]) else Failure("MONGODB-DECODE-003")
    case TupleOf(elements) =>
      if |elements| == |datums| then Success(Val(TupleV(datums))) else Failure("MONGODB-DECODE-003")
    case RecordOf(fields) =>
      if |fields| == |datums| then Success(Val(RecordV(ZipFields(FieldNames(fields), datums))))
      else Failure("MONGODB-DECODE-003")
    case _ => Failure("MONGODB-DECODE-003")
  }

  function FieldNames(fields: seq<RecordField>): (names: seq<string>)
    ensures |names| == |fields| && forall i | 0 <= i < |fields| :: names[i] == fields[i].name
  {
    seq(|fields|, i requires 0 <= i < |fields| => fields[i].name)
  }

  function DecodeOutput(output: PlanOutput, datums: seq<Datum>): Result<ExecutionRow> {
    match output
    case ModelOutput(model) =>
      if |datums| != |model.fields| then Failure("MONGODB-DECODE-003")
      else if ValidRow(Row(model, datums)) then Success(ModelRow(Row(model, datums))) else Failure("RUNTIME")
    case ValueOutput(ty) =>
      var datum :- AssembleValue(ty, datums);
      if ValidDatum(ty, Required, datum) then Success(ValueRow(datum)) else Failure("MONGODB-DECODE-004")
  }

  function DecodeRow(doc: Document, fields: seq<OutputField>, output: PlanOutput): Result<ExecutionRow> {
    var datums :- DecodeFields(doc, fields);
    DecodeOutput(output, datums)
  }

  function DecodeRows(docs: seq<Document>, fields: seq<OutputField>, output: PlanOutput): Result<seq<ExecutionRow>> {
    if docs == [] then Success([])
    else
      var first :- DecodeRow(docs[0], fields, output);
      var rest :- DecodeRows(docs[1..], fields, output);
      Success([first] + rest)
  }
}
