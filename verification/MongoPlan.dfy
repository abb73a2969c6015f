/// Whole-plan preservation: the compiled pipeline, run on the stored documents and decoded,
/// gives the rows of the stage-at-a-time meaning (`engines/mongodb/src/compiler.rs` and
/// `codec.rs` against `engines/memory/src/executor.rs`).

module MongoPlan {
  import opened Results
  import opened Semantics
  import opened Models
  import opened Expressions
  import opened Plans
  import opened Bson
  import opened MongoCompiler
  import opened MongoLowering
  import opened MongoPipeline
  import opened MongoPreflight
  import opened MongoTotality

  /** A filter the capability analysis supports is never rejected for a partial condition. */
  lemma SupportedFilterCompiles(input: Relation, condition: Prepared, parameters: Parameters)
    requires Support(condition) == Some(true)
    ensures var r := CompileFilter(input, condition, parameters);
            r.Failure? ==> !RejectsPartial(r.code)
  {
    SupportAgrees(condition, input.scopes, parameters);
  }

  // ----- what the planner guarantees about projections -----

  predicate Aligned(projection: Projection) {
    var es, ty := projection.expressions, projection.ty;
    && (forall i | 0 <= i < |es| :: WellFormed(es[i]) && es[i].ty == es[i].nodes[es[i].root].ty)
    && match projection.kind
       case ValueProjection => |es| == 1 && es[0].ty == ty
       case TupleProjection =>
         && ty.shape.TupleOf?
         && |ty.shape.elements| == |es|
         && forall i | 0 <= i < |es| :: ty.shape.elements[i] == es[i].ty
       case RecordProjection =>
         && ty.shape.RecordOf?
         && |ty.shape.fields| == |es| == |projection.names|
         && forall i | 0 <= i < |es| ::
              ty.shape.fields[i].name == projection.names[i] && ty.shape.fields[i].ty == es[i].ty
  }

  /** Plans as the planner emits them. */
  predicate Planned(plan: LogicalPlan) {
    && TopologicalPlan(plan)
    && forall i | 0 <= i < |plan.nodes| :: plan.nodes[i].Project? ==> Aligned(plan.nodes[i].projection)
  }

  // ----- documents that hold rows -----

  function RowRecords(row: WorkingRow): seq<Row> {
    seq(|row.scopes|, i requires 0 <= i < |row.scopes| => BindScope(row.scopes[i]))
  }

  /** The document decodes to the row's output and its columns hold the row's scopes. */
  ghost predicate DocHolds(r: Relation, doc: Document, row: WorkingRow) {
    && DecodeRow(doc, r.fields, r.output) == Success(row.output)
    && DocumentHolds(doc, r.scopes, RowRecords(row))
  }

  ghost predicate RowsHold(r: Relation, docs: seq<Document>, rows: seq<WorkingRow>) {
    |docs| == |rows| && forall k | 0 <= k < |docs| :: DocHolds(r, docs[k], rows[k])
  }

  lemma ExprHolds(inputs: Inputs, r: Relation, doc: Document, row: WorkingRow, e: Prepared, resolver: Resolver)
    requires WellFormed(e) && DocumentHolds(doc, r.scopes, RowRecords(row))
    requires LowerExpr(e, r.scopes, inputs.parameters).Success?
    requires EvaluateExpr(inputs, e, row, [], resolver).Success?
    ensures Represents(doc, LowerExpr(e, r.scopes, inputs.parameters).value,
                       EvaluateExpr(inputs, e, row, [], resolver).value)
  {
    hide Represents, DocumentHolds, EvaluateDatum;
    var scopes := VisibleScopes([], row, e.outerScopes);
    assert scopes == row.scopes;
    var rt := RuntimeFor(inputs, scopes, resolver);
    assert rt.ctx.records == RowRecords(row);
    LoweringPreservesMeaning(doc, rt, e, r.scopes);
  }

  // ----- source -----

  lemma CompiledModel(catalog: Catalog, model: ModelDef, stage: nat)
    requires CompileSource(catalog, model, stage).Success?
    ensures model.key in catalog && catalog[model.key].model == model
    ensures CompileSource(catalog, model, stage).value.collection == catalog[model.key].collection
  {
  }

  lemma StoredColumn(entry: CatalogEntry, doc: Document, i: nat, stage: nat, out: Document)
    requires Mapped(entry) && i < |entry.model.fields| && FieldConforms(entry.model.fields[i], StoredAt(entry, doc, i))
    requires Lookup(out, StateName("s", stage, i)) == BInt32(PhysicalTag(StoredAt(entry, doc, i)))
    requires Lookup(out, ValueName("s", stage, i)) == StoredAt(entry, doc, i)
    ensures var field := entry.model.fields[i];
            var d := StoredDatum(field.ty, StoredAt(entry, doc, i)).value;
            && ColumnHolds(out, SourceColumns(stage, entry.model.fields)[i], d)
            && DecodeField(out, OutputField(StateName("s", stage, i), ValueName("s", stage, i), field.ty)) == Success(d)
  {
    hide ValidValue, Carries, DecodeValue, StateName, ValueName;
    var field := entry.model.fields[i];
    var b := StoredAt(entry, doc, i);
    if PhysicalTag(b) == STATE_VALUE {
      DecodeSound(field.ty, b);
    }
  }

  lemma {:induction false} FieldsDecode(doc: Document, fields: seq<OutputField>, datums: seq<Datum>)
    requires |fields| == |datums|
    requires forall i | 0 <= i < |fields| :: DecodeField(doc, fields[i]) == Success(datums[i])
    ensures DecodeFields(doc, fields) == Success(datums)
  {
    hide DecodeField;
    if fields != [] {
      forall i | 0 <= i < |fields[1..]| ensures DecodeField(doc, fields[1..][i]) == Success(datums[1..][i]) {
        assert fields[1..][i] == fields[i + 1] && datums[1..][i] == datums[i + 1];
      }
      FieldsDecode(doc, fields[1..], datums[1..]);
      assert datums == [datums[0]] + datums[1..];
    }
  }

  lemma PairEvaluates(entry: CatalogEntry, doc: Document, i: nat)
    requires Mapped(entry) && i < |entry.model.fields|
    ensures var pair := SourcePair(entry, entry.model.fields[i]);
            && EvalAgg(pair.state, doc) == Success(BInt32(PhysicalTag(StoredAt(entry, doc, i))))
            && EvalAgg(pair.value, doc) == Success(StoredAt(entry, doc, i))
  {
    var value := Path(entry.fields[entry.model.fields[i].key]);
    PathIs(value.name, doc);
    hide EvalAgg;
    SourceStateIs(value, doc, StoredAt(entry, doc, i));
  }

  /** The source projection of a conforming document decodes to its row and binds it as the only scope. */
  lemma SourceHolds(catalog: Catalog, model: ModelDef, stage: nat, doc: Document)
    requires CompileSource(catalog, model, stage).Success?
    requires Mapped(catalog[model.key]) && DocumentConforms(catalog[model.key], doc)
    ensures var entry := catalog[model.key];
            var row := StoredRow(entry, doc);
            var out := ProjectOne(Entries("s", stage, SourceFields(entry, |model.fields|).value.0), doc);
            out.Success? && DocHolds(CompileSource(catalog, model, stage).value, out.value,
                                     WorkingRow(ModelRow(row), [Present(row)]))
  {
    hide EvalAgg, FieldConforms, StoredDatum, StateName, ValueName, Lookup, ColumnHolds, DecodeField, ValidDatum,
      StoredAt, Entries, ProjectOne, DecodeFields;
    var entry := catalog[model.key];
    var pairs := SourceFields(entry, |model.fields|).value.0;
    var row := StoredRow(entry, doc);
    var r := CompileSource(catalog, model, stage).value;
    SourceColumnsHold(catalog, model, stage, doc);
    var out := ProjectOne(Entries("s", stage, pairs), doc).value;
    FieldsDecode(out, r.fields, row.values);
    assert RowRecords(WorkingRow(ModelRow(row), [Present(row)])) == [row];
  }

  lemma SourceColumnsHold(catalog: Catalog, model: ModelDef, stage: nat, doc: Document)
    requires CompileSource(catalog, model, stage).Success?
    requires Mapped(catalog[model.key]) && DocumentConforms(catalog[model.key], doc)
    ensures var entry := catalog[model.key];
            var r := CompileSource(catalog, model, stage).value;
            var values := StoredRow(entry, doc).values;
            var out := ProjectOne(Entries("s", stage, SourceFields(entry, |model.fields|).value.0), doc);
            && out.Success? && |r.fields| == |values| == |r.scopes[0].fields|
            && forall i | 0 <= i < |values| ::
                 ColumnHolds(out.value, r.scopes[0].fields[i], values[i])
                   && DecodeField(out.value, r.fields[i]) == Success(values[i])
  {
    hide EvalAgg, FieldConforms, StoredDatum, StateName, ValueName, Lookup, ColumnHolds, DecodeField, ValidDatum,
      StoredAt, ProjectOne;
    var entry := catalog[model.key];
    var pairs := SourceFields(entry, |model.fields|).value.0;
    var row := StoredRow(entry, doc);
    var r := CompileSource(catalog, model, stage).value;
    forall i | 0 <= i < |pairs|
      ensures EvalAgg(pairs[i].state, doc) == Success(BInt32(PhysicalTag(StoredAt(entry, doc, i))))
      ensures EvalAgg(pairs[i].value, doc) == Success(StoredAt(entry, doc, i))
    {
      PairEvaluates(entry, doc, i);
    }
    ProjectionLookup("s", stage, pairs, doc);
    var out := ProjectOne(Entries("s", stage, pairs), doc).value;
    forall i | 0 <= i < |pairs|
      ensures ColumnHolds(out, r.scopes[0].fields[i], row.values[i])
      ensures DecodeField(out, r.fields[i]) == Success(row.values[i])
    {
      StoredColumn(entry, doc, i, stage, out);
    }
  }

  lemma {:induction false} SourcesHold(catalog: Catalog, model: ModelDef, stage: nat, docs: seq<Document>)
    requires CompileSource(catalog, model, stage).Success? && Mapped(catalog[model.key])
    requires forall k | 0 <= k < |docs| :: DocumentConforms(catalog[model.key], docs[k])
    ensures var entry := catalog[model.key];
            var out := ProjectDocs(Entries("s", stage, SourceFields(entry, |model.fields|).value.0), docs);
            out.Success? && RowsHold(CompileSource(catalog, model, stage).value, out.value,
                                     AsWorkingRows(StoredRows(entry, docs)))
  {
    hide DocHolds, ProjectOne, DocumentConforms, StoredRow, CompileSource, SourceFields, Entries;
    if docs != [] {
      CompiledModel(catalog, model, stage);
      var entry := catalog[model.key];
      SourcesHold(catalog, model, stage, docs[1..]);
      SourceHolds(catalog, model, stage, docs[0]);
      var rows, rest := AsWorkingRows(StoredRows(entry, docs)), AsWorkingRows(StoredRows(entry, docs[1..]));
      forall k | 0 < k < |rows| ensures rows[k] == rest[k - 1] {
        assert docs[k] == docs[1..][k - 1];
      }
    }
  }

  // ----- filter -----

  /** The compiled test accepts a document exactly when the condition keeps its row. */
  lemma FilterHolds(inputs: Inputs, r: Relation, condition: Prepared, doc: Document, row: WorkingRow,
      resolver: Resolver)
    requires WellFormed(condition) && DocumentHolds(doc, r.scopes, RowRecords(row))
    requires LowerExpr(condition, r.scopes, inputs.parameters).Success?
    requires FilterRow(inputs, condition, row, [], resolver).Success?
    ensures var truth := LowerExpr(condition, r.scopes, inputs.parameters).value;
            var test := MkAnd([EqOp(truth.state, IntLit(STATE_VALUE)), EqOp(truth.value, IntLit(TRUTH_TRUE))]);
            Computes(test, doc, FilterRow(inputs, condition, row, [], resolver).value != [])
  {
    var truth := LowerExpr(condition, r.scopes, inputs.parameters).value;
    hide DocumentHolds, LowerExpr, EvaluateExpr;
    var d := EvaluateExpr(inputs, condition, row, [], resolver).value;
    ExprHolds(inputs, r, doc, row, condition, resolver);
    StateIs(doc, truth, d, STATE_VALUE);
    TruthIs(doc, truth.value, d.value.t, True);
    hide EvalAgg;
    AndTwo(doc, EqOp(truth.state, IntLit(STATE_VALUE)), EqOp(truth.value, IntLit(TRUTH_TRUE)), true, d.value.t == True);
  }

  lemma {:induction false} FiltersHold(inputs: Inputs, r: Relation, node: LogicalNode, docs: seq<Document>,
      rows: seq<WorkingRow>, resolver: Resolver)
    requires node.Filter? && RowWise(node) && RowsHold(r, docs, rows)
    requires LowerExpr(node.condition, r.scopes, inputs.parameters).Success?
    requires RowStages(inputs, node, rows, [], resolver).Success?
    ensures var truth := LowerExpr(node.condition, r.scopes, inputs.parameters).value;
            var test := MkAnd([EqOp(truth.state, IntLit(STATE_VALUE)), EqOp(truth.value, IntLit(TRUTH_TRUE))]);
            var out := MatchDocs(test, docs);
            out.Success? && RowsHold(r, out.value, RowStages(inputs, node, rows, [], resolver).value)
    decreases |docs|
  {
    hide LowerExpr, DecodeRow, DocumentHolds, EvaluateExpr;
    if docs != [] {
      assert ExpressionsOf(node)[0] == node.condition;
      assert DocHolds(r, docs[0], rows[0]);
      FilterHolds(inputs, r, node.condition, docs[0], rows[0], resolver);
      forall k | 0 <= k < |docs[1..]| ensures DocHolds(r, docs[1..][k], rows[1..][k]) {
        assert docs[1..][k] == docs[k + 1] && rows[1..][k] == rows[k + 1];
      }
      FiltersHold(inputs, r, node, docs[1..], rows[1..], resolver);
    }
  }

  // ----- projection -----

  lemma {:induction false} EvaluateAllMeaning(inputs: Inputs, es: seq<Prepared>, row: WorkingRow, resolver: Resolver)
    requires forall i | 0 <= i < |es| :: WellFormed(es[i])
    requires EvaluateAll(inputs, es, row, [], resolver).Success?
    ensures forall i | 0 <= i < |es| ::
              EvaluateExpr(inputs, es[i], row, [], resolver)
                == Success(EvaluateAll(inputs, es, row, [], resolver).value[i])
  {
    hide EvaluateExpr;
    if es != [] {
      EvaluateAllMeaning(inputs, es[1..], row, resolver);
      forall i | 0 <= i < |es|
        ensures EvaluateExpr(inputs, es[i], row, [], resolver)
                  == Success(EvaluateAll(inputs, es, row, [], resolver).value[i])
      {
        if i > 0 { assert es[i] == es[1..][i - 1]; }
      }
    }
  }

  /** What a lowered expression of the projected type represents is what its output position decodes to. */
  lemma PositionDecodes(doc: Document, out: Document, c: Lowered, d: Datum, field: OutputField)
    requires Represents(doc, c, d) && SupportedType(field.ty)
    requires d.Val? ==> ValidValue(field.ty, d.value)
    requires Lookup(out, field.stateField) == EvalAgg(c.state, doc).value
    requires Lookup(out, field.valueField) == EvalAgg(c.value, doc).value
    ensures DecodeField(out, field) == Success(d)
  {
    hide EvalAgg, ValidValue, SupportedType, DecodeValue;
    if d.Val? {
      CodecRoundTrip(field.ty, d.value, Lookup(out, field.valueField));
    }
  }

  lemma ExprTyped(inputs: Inputs, e: Prepared, row: WorkingRow, resolver: Resolver)
    requires WellFormed(e) && e.ty == e.nodes[e.root].ty
    ensures var d := EvaluateExpr(inputs, e, row, [], resolver);
            d.Success? && d.value.Val? ==> ValidValue(e.ty, d.value.value)
  {
    hide EvalNode, ValidValue;
    EvalNodeConforms(RuntimeFor(inputs, VisibleScopes([], row, e.outerScopes), resolver), e.nodes, e.root);
  }

  lemma ShapesAgree(projection: Projection, datums: seq<Datum>, pairs: seq<Pair>)
    requires Aligned(projection) && |datums| == |projection.expressions|
    requires forall i | 0 <= i < |datums| :: SupportedType(projection.expressions[i].ty)
    requires ShapeProjection(projection, datums).Success?
    ensures DecodeOutput(ValueOutput(projection.ty), datums)
              == Success(ValueRow(ShapeProjection(projection, datums).value))
  {
    hide ValidDatum, WellFormed;
    if projection.kind == RecordProjection {
      assert FieldNames(projection.ty.shape.fields) == projection.names;
    } else if projection.kind == ValueProjection {
      assert SupportedType(projection.expressions[0].ty);
    }
  }

  lemma ProjectHolds(inputs: Inputs, r: Relation, projection: Projection, stage: nat, doc: Document, row: WorkingRow,
      resolver: Resolver)
    requires Aligned(projection) && DocumentHolds(doc, r.scopes, RowRecords(row))
    requires CompileProject(r, projection, inputs.parameters, stage).Success?
    requires ProjectRow(inputs, projection, row, [], resolver).Success?
    ensures var pairs := LowerProjection(projection.expressions, r.scopes, inputs.parameters).value;
            var out := ProjectOne(Entries("p", stage, pairs), doc);
            out.Success?
            && DocHolds(CompileProject(r, projection, inputs.parameters, stage).value, out.value,
                        ProjectRow(inputs, projection, row, [], resolver).value[0])
  {
    hide EvalAgg, LowerExpr, EvaluateExpr, StateName, ValueName, Lookup, DecodeField, SupportedType, ValidValue,
         ShapeProjection, DecodeOutput, WellFormed;
    var es := projection.expressions;
    var pairs := LowerProjection(es, r.scopes, inputs.parameters).value;
    var values := EvaluateAll(inputs, es, row, [], resolver).value;
    ProjectionLowered(es, r.scopes, inputs.parameters);
    EvaluateAllMeaning(inputs, es, row, resolver);
    forall i | 0 <= i < |es| ensures Represents(doc, LowerExpr(es[i], r.scopes, inputs.parameters).value, values[i]) {
      hide DocumentHolds, Represents;
      ExprHolds(inputs, r, doc, row, es[i], resolver);
    }
    ProjectionLookup("p", stage, pairs, doc);
    var out := ProjectOne(Entries("p", stage, pairs), doc).value;
    var r' := CompileProject(r, projection, inputs.parameters, stage).value;
    forall i | 0 <= i < |es| ensures DecodeField(out, r'.fields[i]) == Success(values[i]) {
      hide Represents;
      ExprTyped(inputs, es[i], row, resolver);
      PositionDecodes(doc, out, LowerExpr(es[i], r.scopes, inputs.parameters).value, values[i], r'.fields[i]);
    }
    FieldsDecode(out, r'.fields, values);
    ShapesAgree(projection, values, pairs);
  }

  lemma {:induction false} ProjectsHold(inputs: Inputs, r: Relation, node: LogicalNode, stage: nat,
      docs: seq<Document>, rows: seq<WorkingRow>, resolver: Resolver)
    requires node.Project? && RowWise(node) && Aligned(node.projection) && RowsHold(r, docs, rows)
    requires CompileProject(r, node.projection, inputs.parameters, stage).Success?
    requires RowStages(inputs, node, rows, [], resolver).Success?
    ensures var pairs := LowerProjection(node.projection.expressions, r.scopes, inputs.parameters).value;
            var out := ProjectDocs(Entries("p", stage, pairs), docs);
            out.Success?
            && RowsHold(CompileProject(r, node.projection, inputs.parameters, stage).value, out.value,
                        RowStages(inputs, node, rows, [], resolver).value)
    decreases |docs|
  {
    hide DocumentHolds, DecodeRow, EvaluateProjection, ProjectOne, CompileProject, LowerProjection, Entries, Aligned;
    if docs != [] {
      assert DocHolds(r, docs[0], rows[0]);
      ProjectHolds(inputs, r, node.projection, stage, docs[0], rows[0], resolver);
      forall k | 0 <= k < |docs[1..]| ensures DocHolds(r, docs[1..][k], rows[1..][k]) {
        assert docs[1..][k] == docs[k + 1] && rows[1..][k] == rows[k + 1];
      }
      ProjectsHold(inputs, r, node, stage, docs[1..], rows[1..], resolver);
    }
  }

  // ----- slice -----

  lemma SlicesHold(r: Relation, stages: seq<Stage>, docs: seq<Document>, out: seq<Document>, rows: seq<WorkingRow>,
      offset: nat, limit: Option<nat>)
    requires RunStages(stages, docs) == Success(out) && RowsHold(r, out, rows)
    ensures RunStages(stages + SliceStages(offset, limit), docs) == Success(SliceRows(out, offset, limit))
    ensures RowsHold(r, SliceRows(out, offset, limit), SliceRows(rows, offset, limit))
  {
    hide DocHolds;
    var skipped := if offset != 0 then stages + [SkipDocs(offset)] else stages;
    if offset != 0 {
      RunAppend(stages, SkipDocs(offset), docs);
    } else {
      assert Skip(out, 0) == out;
    }
    if limit.Some? {
      RunAppend(skipped, LimitDocs(limit.value), docs);
      assert stages + SliceStages(offset, limit) == skipped + [LimitDocs(limit.value)];
    } else {
      assert stages + SliceStages(offset, limit) == skipped;
    }
  }

  // ----- chains -----

  type Database = map<string, seq<Document>>

  function DocsOf(db: Database, collection: string): seq<Document> {
    if collection in db then db[collection] else []
  }

  /** The model a chain of filters, projections and slices reads. */
  function SourceOf(plan: LogicalPlan, id: nat): Option<ModelDef>
    requires TopologicalPlan(plan) && id < |plan.nodes|
  {
    assert ValidNode(plan.nodes[id], id);
    match plan.nodes[id]
    case Source(model) => Some(model)
    case SetNode(_, _, _) => None
    case _ =>
      assert Dependencies(plan.nodes[id])[0] == plan.nodes[id].input;
      SourceOf(plan, plan.nodes[id].input)
  }

  /** Whether the chain below a node has a slice that takes no rows. */
  predicate TakesNothing(plan: LogicalPlan, id: nat)
    requires TopologicalPlan(plan) && id < |plan.nodes|
  {
    var node := plan.nodes[id];
    assert ValidNode(node, id);
    if node.Source? || node.SetNode? then false
    else
      assert Dependencies(node)[0] == node.input;
      (node.Slice? && node.limit == Some(0)) || TakesNothing(plan, node.input)
  }

  /** The memory engine holds, for this model, the rows its collection stores. */
  ghost predicate SameData(catalog: Catalog, db: Database, tables: Tables, model: ModelDef) {
    && model.key in catalog
    && var entry := catalog[model.key];
       var docs := DocsOf(db, entry.collection);
       && entry.model == model
       && Mapped(entry)
       && (forall k | 0 <= k < |docs| :: DocumentConforms(entry, docs[k]))
       && model.key in tables
       && tables[model.key] == MemoryTable(model, StoredRows(entry, docs))
  }

  /** The relation reads and checks the collection of this model. */
  ghost predicate Reads(catalog: Catalog, r: Relation, model: ModelDef) {
    exists stage ::
      var source := CompileSource(catalog, model, stage);
      source.Success? && r.validation == source.value.validation && r.collection == source.value.collection
  }

  /** Its pipeline, run on the stored documents, gives documents that hold the rows. */
  ghost predicate Delivers(r: Relation, docs: seq<Document>, rows: seq<WorkingRow>) {
    var out := RunStages(r.pipeline, docs);
    out.Success? && RowsHold(r, out.value, rows)
  }

  /** What the relation compiled for a node promises. */
  ghost predicate RelationHolds(catalog: Catalog, db: Database, inputs: Inputs, r: Relation, id: nat)
    requires TopologicalPlan(inputs.plan) && id < |inputs.plan.nodes|
  {
    var model := SourceOf(inputs.plan, id);
    && model.Some?
    && Reads(catalog, r, model.value)
    && (Accepted(r.pipeline) <==> !TakesNothing(inputs.plan, id))
    && (SameData(catalog, db, inputs.tables, model.value) && Meaning(inputs, id, [], 0).Success? ==>
          Delivers(r, DocsOf(db, r.collection), Meaning(inputs, id, [], 0).value))
  }

  lemma SourceDelivers(catalog: Catalog, model: ModelDef, stage: nat, r: Relation, docs: seq<Document>)
    requires CompileSource(catalog, model, stage) == Success(r) && Mapped(catalog[model.key])
    requires forall k | 0 <= k < |docs| :: DocumentConforms(catalog[model.key], docs[k])
    ensures Delivers(r, docs, AsWorkingRows(StoredRows(catalog[model.key], docs)))
  {
    hide RowsHold, StoredRows, DocumentConforms, ProjectDocs, Entries;
    SourcesHold(catalog, model, stage, docs);
    assert RunStages([], docs) == Success(docs);
    RunAppend([], r.pipeline[0], docs);
    assert [] + [r.pipeline[0]] == r.pipeline;
  }

  lemma SourceRelation(catalog: Catalog, db: Database, inputs: Inputs, r: Relation, id: nat)
    requires TopologicalPlan(inputs.plan) && id < |inputs.plan.nodes| && inputs.plan.nodes[id].Source?
    requires CompileSource(catalog, inputs.plan.nodes[id].model, id) == Success(r)
    ensures RelationHolds(catalog, db, inputs, r, id)
  {
    hide Delivers, StoredRows, DocumentConforms, AsWorkingRows, SourceFields, Mapped;
    var model := inputs.plan.nodes[id].model;
    assert CompileSource(catalog, model, id).Success?;
    if SameData(catalog, db, inputs.tables, model) {
      SourceDelivers(catalog, model, id, r, DocsOf(db, r.collection));
    }
  }

  /** Holding a row depends on the layout of a relation only. */
  lemma SameLayout(before: Relation, r: Relation, docs: seq<Document>, rows: seq<WorkingRow>)
    requires RowsHold(before, docs, rows)
    requires r.fields == before.fields && r.output == before.output && r.scopes == before.scopes
    ensures RowsHold(r, docs, rows)
  {
    hide DecodeRow, DocumentHolds;
    forall k | 0 <= k < |docs| ensures DocHolds(r, docs[k], rows[k]) {
      assert DocHolds(before, docs[k], rows[k]);
    }
  }

  lemma FilterDelivers(inputs: Inputs, docs: seq<Document>, before: Relation, r: Relation, node: LogicalNode,
      rows: seq<WorkingRow>, resolver: Resolver)
    requires node.Filter? && RowWise(node)
    requires CompileFilter(before, node.condition, inputs.parameters) == Success(r)
    requires Delivers(before, docs, rows)
    requires RowStages(inputs, node, rows, [], resolver).Success?
    ensures Delivers(r, docs, RowStages(inputs, node, rows, [], resolver).value)
  {
    hide RowStages, RowsHold, LowerExpr;
    var out := RunStages(before.pipeline, docs).value;
    FiltersHold(inputs, before, node, out, rows, resolver);
    var stage := r.pipeline[|before.pipeline|];
    assert r.pipeline == before.pipeline + [stage];
    RunAppend(before.pipeline, stage, docs);
    SameLayout(before, r, RunStages(r.pipeline, docs).value, RowStages(inputs, node, rows, [], resolver).value);
  }

  lemma ProjectDelivers(inputs: Inputs, docs: seq<Document>, before: Relation, r: Relation, node: LogicalNode,
      stage: nat, rows: seq<WorkingRow>, resolver: Resolver)
    requires node.Project? && RowWise(node) && Aligned(node.projection)
    requires CompileProject(before, node.projection, inputs.parameters, stage) == Success(r)
    requires Delivers(before, docs, rows)
    requires RowStages(inputs, node, rows, [], resolver).Success?
    ensures Delivers(r, docs, RowStages(inputs, node, rows, [], resolver).value)
  {
    hide RowStages, RowsHold, LowerProjection, Aligned;
    var out := RunStages(before.pipeline, docs).value;
    ProjectsHold(inputs, before, node, stage, out, rows, resolver);
    var last := r.pipeline[|before.pipeline|];
    assert r.pipeline == before.pipeline + [last];
    RunAppend(before.pipeline, last, docs);
  }

  lemma SliceDelivers(docs: seq<Document>, before: Relation, r: Relation, offset: nat, limit: Option<nat>,
      rows: seq<WorkingRow>)
    requires CompileSlice(before, offset, limit) == Success(r)
    requires Delivers(before, docs, rows)
    ensures Delivers(r, docs, SliceRows(rows, offset, limit))
  {
    hide RowsHold, SliceRows;
    var out := RunStages(before.pipeline, docs).value;
    SlicesHold(before, before.pipeline, docs, out, rows, offset, limit);
    SameLayout(before, r, SliceRows(out, offset, limit), SliceRows(rows, offset, limit));
  }

  /** One node over the relation of its input. */
  lemma StageRelation(catalog: Catalog, db: Database, inputs: Inputs, before: Relation, r: Relation, id: nat)
    requires TopologicalPlan(inputs.plan) && id < |inputs.plan.nodes| && ValidNode(inputs.plan.nodes[id], id)
    requires var node := inputs.plan.nodes[id]; (node.Filter? || node.Project? || node.Slice?) && node.input < id
    requires RelationHolds(catalog, db, inputs, before, inputs.plan.nodes[id].input)
    requires match inputs.plan.nodes[id]
             case Filter(_, condition) => CompileFilter(before, condition, inputs.parameters) == Success(r)
             case Project(_, projection) =>
               Aligned(projection) && CompileProject(before, projection, inputs.parameters, id) == Success(r)
             case Slice(_, offset, limit) => CompileSlice(before, offset, limit) == Success(r)
    ensures RelationHolds(catalog, db, inputs, r, id)
  {
    hide SameData, Delivers, LowerExpr, LowerProjection, CompileSource, RowStages, Aligned, SliceRows, Accepted,
      SliceStages;
    var node := inputs.plan.nodes[id];
    var model := SourceOf(inputs.plan, id).value;
    var docs := DocsOf(db, r.collection);
    if SameData(catalog, db, inputs.tables, model) && Meaning(inputs, id, [], 0).Success? {
      var rows := Meaning(inputs, node.input, [], 0).value;
      match node {
        case Filter(_, _) => FilterDelivers(inputs, docs, before, r, node, rows, ResolverAt(inputs, 0));
        case Project(_, _) => ProjectDelivers(inputs, docs, before, r, node, id, rows, ResolverAt(inputs, 0));
        case Slice(_, offset, limit) => SliceDelivers(docs, before, r, offset, limit, rows);
      }
    }
    if node.Slice? {
      AppendAccepted(before.pipeline, SliceStages(node.offset, node.limit));
      SliceAccepted(node.offset, node.limit);
    } else {
      var last := r.pipeline[|before.pipeline|];
      assert r.pipeline == before.pipeline + [last];
      OneAccepted(last);
      AppendAccepted(before.pipeline, [last]);
    }
  }

  lemma OneAccepted(stage: Stage)
    requires stage != LimitDocs(0)
    ensures Accepted([stage])
  {
  }

  lemma SliceAccepted(offset: nat, limit: Option<nat>)
    ensures Accepted(SliceStages(offset, limit)) <==> limit != Some(0)
  {
    var stages := SliceStages(offset, limit);
    if limit.Some? {
      assert stages[|stages| - 1] == LimitDocs(limit.value);
    }
  }

  lemma AppendAccepted(stages: seq<Stage>, more: seq<Stage>)
    ensures Accepted(stages + more) <==> Accepted(stages) && Accepted(more)
  {
    if Accepted(stages + more) {
      forall i | 0 <= i < |stages| ensures stages[i] != LimitDocs(0) { assert (stages + more)[i] == stages[i]; }
      forall i | 0 <= i < |more| ensures more[i] != LimitDocs(0) { assert (stages + more)[|stages| + i] == more[i]; }
    }
  }

  /** Every relation the compiler makes keeps its promise. */
  lemma {:induction false} CompiledHolds(catalog: Catalog, db: Database, inputs: Inputs, id: nat)
    requires Planned(inputs.plan) && id < |inputs.plan.nodes|
    requires CompilePrefix(catalog, inputs.plan, inputs.parameters, |inputs.plan.nodes|).Success?
    ensures RelationHolds(catalog, db, inputs,
                          CompilePrefix(catalog, inputs.plan, inputs.parameters, |inputs.plan.nodes|).value[id], id)
  {
    hide RelationHolds, CompileSource, CompileFilter, CompileProject, CompileSlice, CompilePrefix, Aligned;
    var node := inputs.plan.nodes[id];
    var relations := CompilePrefix(catalog, inputs.plan, inputs.parameters, |inputs.plan.nodes|).value;
    PrefixRelation(catalog, inputs.plan, inputs.parameters, id, |inputs.plan.nodes|);
    assert ValidNode(node, id);
    if node.Filter? || node.Project? || node.Slice? {
      assert Dependencies(node)[0] == node.input;
      CompiledHolds(catalog, db, inputs, node.input);
      var before := relations[..id];
      assert before[node.input] == relations[node.input];
      StageRelation(catalog, db, inputs, relations[node.input], relations[id], id);
    } else if node.Source? {
      SourceRelation(catalog, db, inputs, relations[id], id);
    }
  }

  // ----- the whole execution -----

  /** Preflight, pipeline and decoder, in the order a stream runs them. */
  function Execute(db: Database, r: Relation): Result<seq<ExecutionRow>> {
    var docs := DocsOf(db, r.collection);
    var offenders :- RunPipeline(r.validation, docs);
    if offenders != [] then Failure("MONGODB-DECODE-006")
    else
      var out :- RunPipeline(r.pipeline, docs);
      DecodeRows(out, r.fields, r.output)
  }

  lemma {:induction false} RowsDecode(r: Relation, docs: seq<Document>, rows: seq<WorkingRow>)
    requires RowsHold(r, docs, rows)
    ensures DecodeRows(docs, r.fields, r.output) == Success(Outputs(rows))
    decreases |docs|
  {
    hide DecodeRow, DocumentHolds;
    if docs != [] {
      assert DocHolds(r, docs[0], rows[0]);
      forall k | 0 <= k < |docs[1..]| ensures DocHolds(r, docs[1..][k], rows[1..][k]) {
        assert docs[1..][k] == docs[k + 1] && rows[1..][k] == rows[k + 1];
      }
      RowsDecode(r, docs[1..], rows[1..]);
      assert Outputs(rows) == [rows[0].output] + Outputs(rows[1..]);
    }
  }

  /**
   * For every plan the compiler accepts and every collection of canonical documents: a document
   * that breaks the model's contract stops the execution; otherwise, on the same data and an
   * error-free evaluation, the execution returns exactly the memory engine's rows, unless a
   * slice takes nothing, which the server refuses.
   */
  lemma CompiledPlanRefinesMemory(catalog: Catalog, db: Database, inputs: Inputs, r: Relation)
    requires Planned(inputs.plan)
    requires CompilePlan(catalog, inputs.plan, inputs.parameters) == Success(r)
    ensures inputs.plan.root < |inputs.plan.nodes| && SourceOf(inputs.plan, inputs.plan.root).Some?
    ensures var model := SourceOf(inputs.plan, inputs.plan.root).value;
            && model.key in catalog && catalog[model.key].model == model
            && (Mapped(catalog[model.key]) ==>
                  var entry := catalog[model.key];
                  var docs := DocsOf(db, r.collection);
                  (forall k | 0 <= k < |docs| :: DocumentCanonical(entry, docs[k])) ==>
                    && ((exists k | 0 <= k < |docs| :: !DocumentConforms(entry, docs[k]))
                        ==> Execute(db, r) == Failure("MONGODB-DECODE-006"))
                    && (SameData(catalog, db, inputs.tables, model) && Meaning(inputs, inputs.plan.root, [], 0).Success?
                        ==> if TakesNothing(inputs.plan, inputs.plan.root) then Execute(db, r).Failure?
                            else Execute(db, r) == Success(Outputs(Meaning(inputs, inputs.plan.root, [], 0).value))))
  {
    hide DocumentConforms, DocumentCanonical, Meaning, RunStages, DecodeRows, RowsHold;
    var root := inputs.plan.root;
    CompiledHolds(catalog, db, inputs, root);
    var model := SourceOf(inputs.plan, root).value;
    var stage :| CompileSource(catalog, model, stage).Success?
                 && r.validation == CompileSource(catalog, model, stage).value.validation
                 && r.collection == CompileSource(catalog, model, stage).value.collection;
    hide RunPipeline, CompileSource;
    assert model.key in catalog && catalog[model.key].model == model by { CompiledModel(catalog, model, stage); }
    var docs := DocsOf(db, r.collection);
    if Mapped(catalog[model.key]) && forall k | 0 <= k < |docs| :: DocumentCanonical(catalog[model.key], docs[k]) {
      PreflightContract(catalog, model, stage, docs);
      if SameData(catalog, db, inputs.tables, model) && Meaning(inputs, root, [], 0).Success? {
        PipelineRuns(r.pipeline, docs);
        CompiledModel(catalog, model, stage);
        RowsDecode(r, RunStages(r.pipeline, docs).value, Meaning(inputs, root, [], 0).value);
      }
    }
  }

  /** A compiled plan reads the collection of its source. */
  lemma CompiledCollection(catalog: Catalog, db: Database, inputs: Inputs, r: Relation)
    requires Planned(inputs.plan) && inputs.plan.root < |inputs.plan.nodes|
    requires CompilePlan(catalog, inputs.plan, inputs.parameters) == Success(r)
    ensures SourceOf(inputs.plan, inputs.plan.root).Some?
    ensures var model := SourceOf(inputs.plan, inputs.plan.root).value;
            model.key in catalog && r.collection == catalog[model.key].collection
  {
    hide Meaning, RunStages, RowsHold;
    CompiledHolds(catalog, db, inputs, inputs.plan.root);
    var model := SourceOf(inputs.plan, inputs.plan.root).value;
    var stage :| CompileSource(catalog, model, stage).Success?
                 && r.collection == CompileSource(catalog, model, stage).value.collection;
    CompiledModel(catalog, model, stage);
  }

  lemma PipelineRuns(stages: seq<Stage>, docs: seq<Document>)
    ensures if Accepted(stages) then RunPipeline(stages, docs) == RunStages(stages, docs)
            else RunPipeline(stages, docs).Failure?
  {
  }

  // ----- a collection of one flag, sliced -----

  const FLAG_TYPE := TypeDef("dol/bool", Scalar(BoolRepr), false)

  const FLAGS := ModelDef("flags", [FieldDef("flag", FLAG_TYPE, Required)], None, [], [])

  const FLAG_ENTRY := CatalogEntry(FLAGS, "flags", map["flag" := "flag"])

  const FLAG_CATALOG: Catalog := map["flags" := FLAG_ENTRY]

  const FLAG_DOCUMENT: Document := map["flag" := BBool(true)]

  const FLAG_DATABASE: Database := map["flags" := [FLAG_DOCUMENT]]

  const FLAG_ROW := Row(FLAGS, [Val(BoolV(true))])

  /** The first rows of the flags, at most `limit` of them. */
  function FirstFlags(limit: nat): LogicalPlan {
    LogicalPlan([Source(FLAGS), Slice(0, 0, Some(limit))], 1, ModelOutput(FLAGS))
  }

  function FlagInputs(limit: nat, parameters: Parameters, host: Host): Inputs {
    Inputs(map["flags" := MemoryTable(FLAGS, [FLAG_ROW])], FirstFlags(limit), parameters, host)
  }

  lemma FlagsPlanned(limit: nat)
    ensures Planned(FirstFlags(limit))
    ensures SourceOf(FirstFlags(limit), 1) == Some(FLAGS)
    ensures TakesNothing(FirstFlags(limit), 1) <==> limit == 0
  {
    var plan := FirstFlags(limit);
    assert Dependencies(plan.nodes[1]) == [0] && ExpressionsOf(plan.nodes[1]) == [] == ExpressionsOf(plan.nodes[0]);
    assert ValidNode(plan.nodes[0], 0) && ValidNode(plan.nodes[1], 1);
    assert !TakesNothing(plan, 0) && SourceOf(plan, 0) == Some(FLAGS);
  }

  lemma FlagsCompile(limit: nat, parameters: Parameters)
    requires limit <= I64_MAX
    ensures CompilePlan(FLAG_CATALOG, FirstFlags(limit), parameters).Success?
    ensures CompilePlan(FLAG_CATALOG, FirstFlags(limit), parameters).value.collection == "flags"
  {
    var plan := FirstFlags(limit);
    FlagSource();
    hide CompileSource;
    var source := CompileSource(FLAG_CATALOG, FLAGS, 0).value;
    assert CompilePrefix(FLAG_CATALOG, plan, parameters, 0) == Success([]);
    assert CompilePrefix(FLAG_CATALOG, plan, parameters, 1) == Success([source]) by {
      assert CompileStage(FLAG_CATALOG, plan.nodes[0], [], parameters, 0) == Success(source);
      assert [] + [source] == [source];
    }
    var sliced := CompileSlice(source, 0, Some(limit)).value;
    assert CompileStage(FLAG_CATALOG, plan.nodes[1], [source], parameters, 1) == Success(sliced);
    assert CompilePrefix(FLAG_CATALOG, plan, parameters, 2) == Success([source] + [sliced]);
  }

  lemma FlagSource()
    ensures var r := CompileSource(FLAG_CATALOG, FLAGS, 0);
            r.Success? && r.value.collection == "flags" && r.value.output == ModelOutput(FLAGS)
  {
    hide SourceFieldValid, SourceState;
    assert CheckMapping(FLAG_ENTRY, 0) == Success(());
    assert CheckMapping(FLAG_ENTRY, 1) == Success(());
    assert SourceFields(FLAG_ENTRY, 0) == Success(([], []));
    var field := FLAGS.fields[0];
    var pair := SourcePair(FLAG_ENTRY, field);
    FlagTest(pair.state, pair.value);
    assert SourceFields(FLAG_ENTRY, 1).Success?;
  }

  lemma FlagTest(state: Agg, value: Agg)
    ensures SourceFieldValid(FLAGS.fields[0], state, value).Success?
  {
  }

  lemma FlagsStored()
    ensures Mapped(FLAG_ENTRY) && DocumentConforms(FLAG_ENTRY, FLAG_DOCUMENT)
              && DocumentCanonical(FLAG_ENTRY, FLAG_DOCUMENT)
    ensures StoredRows(FLAG_ENTRY, [FLAG_DOCUMENT]) == [FLAG_ROW]
  {
    assert StoredAt(FLAG_ENTRY, FLAG_DOCUMENT, 0) == BBool(true);
    assert StoredDatum(FLAG_TYPE, BBool(true)) == Success(Val(BoolV(true)));
    assert StoredRow(FLAG_ENTRY, FLAG_DOCUMENT) == FLAG_ROW;
  }

  lemma FlagsMeaning(limit: nat, parameters: Parameters, host: Host)
    requires TopologicalPlan(FirstFlags(limit))
    ensures Meaning(FlagInputs(limit, parameters, host), 1, [], 0)
         == Success(if limit == 0 then [] else AsWorkingRows([FLAG_ROW]))
  {
    var inputs := FlagInputs(limit, parameters, host);
    assert Meaning(inputs, 0, [], 0) == Success(AsWorkingRows([FLAG_ROW]));
    assert Dependencies(inputs.plan.nodes[1])[0] == 0;
  }

  /**
   * On the same data the memory engine takes any number of flags; the server gives the flag when at
   * least one is asked for, and refuses the compiled plan when none is.
   */
  lemma ZeroLimitRefused(limit: nat, parameters: Parameters, host: Host)
    requires limit <= I64_MAX
    ensures var inputs := FlagInputs(limit, parameters, host);
            var compiled := CompilePlan(FLAG_CATALOG, inputs.plan, parameters);
            && Planned(inputs.plan) && compiled.Success?
            && (TakesNothing(inputs.plan, 1) <==> limit == 0)
            && Meaning(inputs, 1, [], 0) == Success(if limit == 0 then [] else AsWorkingRows([FLAG_ROW]))
            && (if limit == 0 then Execute(FLAG_DATABASE, compiled.value).Failure?
                else Execute(FLAG_DATABASE, compiled.value) == Success([ModelRow(FLAG_ROW)]))
  {
    hide Execute, CompilePlan, Meaning, StoredRows, DocumentConforms, DocumentCanonical, TakesNothing, SourceOf;
    var inputs := FlagInputs(limit, parameters, host);
    FlagsPlanned(limit);
    FlagsCompile(limit, parameters);
    FlagsStored();
    FlagsMeaning(limit, parameters, host);
    var r := CompilePlan(FLAG_CATALOG, inputs.plan, parameters).value;
    var docs := DocsOf(FLAG_DATABASE, "flags");
    assert docs == [FLAG_DOCUMENT];
    assert SameData(FLAG_CATALOG, FLAG_DATABASE, inputs.tables, FLAGS);
    CompiledPlanRefinesMemory(FLAG_CATALOG, FLAG_DATABASE, inputs, r);
    assert Outputs(AsWorkingRows([FLAG_ROW])) == [ModelRow(FLAG_ROW)];
  }
}
