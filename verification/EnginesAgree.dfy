/// One language, several executors: what follows for an authored expression and for a whole
/// plan when the results about each engine are put together.

module EnginesAgree {
  import opened Results
  import opened Semantics
  import opened Models
  import opened Expressions
  import opened Plans
  import opened Bson
  import opened MongoCompiler
  import opened MongoLowering
  import opened MongoPipeline
  import MongoPlan
  import MongoPreflight
  import LineReader
  import JsonlOperators
  import JsonlPlan
  import JsonlStream
  import Normalize
  import Prepare

  /** From the authored tree through normalization, flattening and lowering to the server: the datum is the same. */
  lemma AuthoredMeaningOnServer(doc: Document, rt: Runtime, fp: Normalize.Fingerprint, bind: BindContext, e: Expr,
      outer: nat, p: Prepared, layouts: seq<ScopeLayout>)
    requires ValidBind(bind) && Prepare.Lower(rt.host, fp, bind, e, outer) == Success(p)
    requires ScopesMatch(p, rt.ctx) && DocumentHolds(doc, layouts, rt.ctx.records)
    requires LowerExpr(p, layouts, rt.ctx.parameters).Success?
    requires Eval(bind, rt, e, false).Success?
    ensures Represents(doc, LowerExpr(p, layouts, rt.ctx.parameters).value, Eval(bind, rt, e, false).value)
  {
    hide Represents, DocumentHolds, Eval, EvaluateDatum;
    Prepare.LowerCorrect(fp, bind, e, outer, rt, p);
    LoweringPreservesMeaning(doc, rt, p, layouts);
  }

  /** The file and the collection hold the rows of the memory table of this model. */
  ghost predicate SameRows(catalog: Catalog, db: MongoPlan.Database, c: JsonlStream.Config, bytes: seq<Byte>,
      tables: Tables, model: ModelDef) {
    && MongoPlan.SameData(catalog, db, tables, model)
    && JsonlStream.DecodeAll(c, LineReader.Lines(bytes)) == Success(tables[model.key].rows)
  }

  /** Both front ends find the same source. */
  lemma {:induction false} OneSource(plan: LogicalPlan, id: nat)
    requires TopologicalPlan(plan) && id < |plan.nodes| && JsonlPlan.OpsOf(plan, id).Success?
    ensures MongoPlan.SourceOf(plan, id) == Some(JsonlPlan.OpsOf(plan, id).value.1)
  {
    var node := plan.nodes[id];
    assert ValidNode(node, id);
    if !node.Source? {
      assert Dependencies(node)[0] == node.input;
      OneSource(plan, node.input);
    }
  }

  /**
   * A plan both engines accept, over the same rows, with an error-free meaning: the server's rows
   * and the stream's rows are the memory engine's, so they are each other's; without limits, and with
   * lines and line count within bounds, the stream delivers them.
   */
  lemma EnginesAgree(catalog: Catalog, db: MongoPlan.Database, inputs: Inputs, r: Relation, c: JsonlStream.Config,
      bytes: seq<Byte>)
    requires MongoPlan.Planned(inputs.plan) && CompilePlan(catalog, inputs.plan, inputs.parameters) == Success(r)
    requires inputs.plan.root < |inputs.plan.nodes| && JsonlPlan.OpsOf(inputs.plan, inputs.plan.root).Success?
    requires c.setting.host == inputs.host && c.setting.parameters == inputs.parameters
    requires SameRows(catalog, db, c, bytes, inputs.tables, JsonlPlan.OpsOf(inputs.plan, inputs.plan.root).value.1)
    requires Meaning(inputs, inputs.plan.root, [], 0).Success?
    requires !MongoPlan.TakesNothing(inputs.plan, inputs.plan.root)
    ensures var rows := Outputs(Meaning(inputs, inputs.plan.root, [], 0).value);
            var ops := JsonlPlan.OpsOf(inputs.plan, inputs.plan.root).value.0;
            var lines := LineReader.Lines(bytes);
            var stream := JsonlStream.StreamRows(c, ops, lines, 0);
            && MongoPlan.Execute(db, r) == Success(rows)
            && (stream.Success? ==> stream.value == rows)
            && (c.setting == JsonlOperators.Unlimited(c.setting)
                && (forall line | line in lines :: |line| <= c.maxLineBytes)
                && |lines| <= c.maxScannedRows
                ==> stream == Success(rows))
  {
    hide Meaning, MongoPlan.Execute, JsonlStream.StreamRows, LineReader.Lines, JsonlStream.DecodeAll,
         MongoPreflight.DocumentConforms, MongoPreflight.DocumentCanonical, MongoPreflight.Mapped,
           MongoPreflight.StoredRows;
    var root := inputs.plan.root;
    OneSource(inputs.plan, root);
    MongoPlan.CompiledPlanRefinesMemory(catalog, db, inputs, r);
    var model := MongoPlan.SourceOf(inputs.plan, root).value;
    var entry := catalog[model.key];
    MongoPlan.CompiledCollection(catalog, db, inputs, r);
    forall k | 0 <= k < |MongoPlan.DocsOf(db, r.collection)|
      ensures MongoPreflight.DocumentCanonical(entry, MongoPlan.DocsOf(db, r.collection)[k])
    {
      MongoPreflight.DocumentContract(entry, MongoPlan.DocsOf(db, r.collection)[k]);
    }
    JsonlStream.StreamRefinesMemory(inputs, c, bytes);
  }
}
