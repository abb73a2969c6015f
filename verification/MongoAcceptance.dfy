/// Which expressions and plans the server compiler accepts, told from the plan alone
/// (`engines/mongodb/src/compiler.rs`, `mapping.rs` and `codec.rs`).

module MongoAcceptance {
  import opened Results
  import opened Semantics
  import opened Models
  import opened Expressions
  import opened Plans
  import opened Bson
  import opened MongoCompiler
  import opened MongoTotality
  import opened MongoPipeline

  // ----- types and results -----

  /** Shapes with a wire representation: scalars, and of the integers those up to 64 bits. */
  predicate Storable(shape: TypeShape) {
    shape.Scalar? && (shape.repr.IntRepr? || shape.repr.UIntRepr? ==> shape.repr.bits <= 64)
  }

  /** Operations that give a truth, whatever their node is declared as. */
  predicate GivesTruth(kind: Kind) {
    match kind
    case UnaryK(op, _) => op in {Not, IsNull, IsMissing, IsPresent}
    case BinaryK(op, _, _) => op != Coalesce
    case MembershipK(_, _, _) => true
    case _ => false
  }

  function ResultShape(node: Node): TypeShape {
    if GivesTruth(node.kind) then Scalar(TruthRepr) else node.ty.shape
  }

  /** What is known of a scope before any row is read: its model, and which fields are never absent. */
  datatype Scope = Scope(modelKey: string, always: seq<bool>)

  function Seen(layouts: seq<ScopeLayout>): (scopes: seq<Scope>)
    ensures |scopes| == |layouts|
    ensures forall i | 0 <= i < |layouts| ::
              && scopes[i].modelKey == layouts[i].modelKey && |scopes[i].always| == |layouts[i].fields|
              && forall j | 0 <= j < |layouts[i].fields| :: scopes[i].always[j] == layouts[i].fields[j].always
  {
    seq(|layouts|, i requires 0 <= i < |layouts| =>
      Scope(layouts[i].modelKey, seq(|layouts[i].fields|, j requires 0 <= j < |layouts[i].fields| =>
        layouts[i].fields[j].always)))
  }

  /** Leaves that hold a value in every row. */
  function Known(scopes: seq<Scope>, parameters: Parameters): Node -> bool {
    (node: Node) =>
      match node.kind
      case FieldK(scope, slot, _) => scope < |scopes| && slot < |scopes[scope].always| && scopes[scope].always[slot]
      case LiteralK(datum) => datum.Val?
      case ParameterK(name) => name in parameters && parameters[name].datum.Val?
      case _ => false
  }

  /** Leaves known to hold a value before fields and parameters are. */
  function KnownLiterals(): Node -> bool {
    (node: Node) => node.kind.LiteralK? && node.kind.datum.Val?
  }

  /** A node that holds a value whenever its leaves do as told. */
  predicate Certain(p: Prepared, known: Node -> bool, id: nat)
    requires id < |p.nodes|
  {
    match p.nodes[id].kind
    case UnaryK(NullableLift, input) => input < id && Certain(p, known, input)
    case UnaryK(_, _) => true
    case BinaryK(Coalesce, left, right) =>
      (left < id && Certain(p, known, left)) || (right < id && Certain(p, known, right))
    case BinaryK(_, _, _) => true
    case MembershipK(_, _, _) => true
    case ConditionalK(_, whenTrue, whenFalse) =>
      whenTrue < id && whenFalse < id && Certain(p, known, whenTrue) && Certain(p, known, whenFalse)
    case _ => known(p.nodes[id])
  }

  // ----- which expressions are lowered -----

  predicate Bindable(ty: TypeDef, datum: Datum) {
    Storable(ty.shape) && ValidDatum(ty, Optional, datum)
  }

  /** Two operands of one scalar shape. */
  predicate Alike(p: Prepared, i: nat, j: nat)
    requires i < |p.nodes| && j < |p.nodes|
  {
    Storable(ResultShape(p.nodes[i])) && ResultShape(p.nodes[i]) == ResultShape(p.nodes[j])
  }

  /** A truth that is never absent. */
  predicate TotalTruth(p: Prepared, known: Node -> bool, id: nat)
    requires id < |p.nodes|
  {
    ResultShape(p.nodes[id]) == Scalar(TruthRepr) && Certain(p, known, id)
  }

  predicate NodeLowerable(p: Prepared, scopes: seq<Scope>, parameters: Parameters, id: nat)
    requires id < |p.nodes|
  {
    var ty, known := p.nodes[id].ty, Known(scopes, parameters);
    match p.nodes[id].kind
    case FieldK(scope, slot, allowNull) =>
      && !allowNull && scope < |p.scopes| && scope < |scopes|
      && p.scopes[scope] == scopes[scope].modelKey && slot < |scopes[scope].always|
    case LiteralK(datum) => Bindable(ty, datum)
    case ParameterK(name) => name in parameters && parameters[name].ty == ty && Bindable(ty, parameters[name].datum)
    case UnaryK(op, input) =>
      && input < id && op in {IsNull, IsMissing, IsPresent, NullableLift, Not}
      && (op == Not ==> TotalTruth(p, known, input))
    case BinaryK(op, left, right) =>
      && left < id && right < id && op !in {Add, Sub, Mul, Div, Rem}
      && (op in {And, Or} ==> TotalTruth(p, known, left) && TotalTruth(p, known, right))
      && (op in {Eq, Ne, Lt, Le, Gt, Ge, IsDistinctFrom, IsNotDistinctFrom} ==> Alike(p, left, right))
      && (op in {Lt, Le, Gt, Ge} ==> ResultShape(p.nodes[left]) != Scalar(BytesRepr))
    case MembershipK(input, candidates, _) =>
      input < id && forall i | 0 <= i < |candidates| :: candidates[i] < id && Alike(p, input, candidates[i])
    case ConditionalK(condition, whenTrue, whenFalse) =>
      condition < id && whenTrue < id && whenFalse < id && TotalTruth(p, known, condition)
    case CallK(_, _) => false
    case ExistsK(_) => false
  }

  /** No outer scope, no operation outside the server's, operands of one shape, and no absent truth. */
  predicate Lowerable(p: Prepared, scopes: seq<Scope>, parameters: Parameters) {
    && p.outerScopes == 0 && p.root < |p.nodes|
    && forall id | 0 <= id < |p.nodes| :: NodeLowerable(p, scopes, parameters, id)
  }

  lemma StorableSupported(ty: TypeDef)
    ensures Storable(ty.shape) <==> SupportedType(ty)
  {
  }

  lemma BindableBound(ty: TypeDef, datum: Datum)
    ensures BoundDatum(ty, datum).Success? <==> Bindable(ty, datum)
    ensures BoundDatum(ty, datum).Success? ==>
              BoundDatum(ty, datum).value.ty == ty && BoundDatum(ty, datum).value.always == datum.Val?
  {
    StorableSupported(ty);
    if Bindable(ty, datum) && datum.Val? {
      CodecRoundTrip(ty, datum.value, BNull);
    }
  }

  /** Lowered values have the shapes and the certainty told from their nodes. */
  ghost predicate Told(p: Prepared, known: Node -> bool, values: seq<Lowered>) {
    |values| <= |p.nodes|
    && forall i | 0 <= i < |values| ::
         values[i].ty.shape == ResultShape(p.nodes[i]) && values[i].always == Certain(p, known, i)
  }

  lemma AlikeCompares(p: Prepared, known: Node -> bool, values: seq<Lowered>, i: nat, j: nat)
    requires Told(p, known, values) && i < |values| && j < |values|
    ensures SameScalarRepr(values[i].ty, values[j].ty).Success? <==> Alike(p, i, j)
    ensures ValueEqual(values[i], values[j]).Success? <==> Alike(p, i, j)
    ensures forall op | op in {Lt, Le, Gt, Ge} ::
              ValueOrder(op, values[i], values[j]).Success?
              <==> Alike(p, i, j) && ResultShape(p.nodes[i]) != Scalar(BytesRepr)
  {
    StorableSupported(values[i].ty);
    StorableSupported(values[j].ty);
  }

  lemma TotalTruthRequired(p: Prepared, known: Node -> bool, values: seq<Lowered>, i: nat)
    requires Told(p, known, values) && i < |values|
    ensures RequireTotalTruth(values[i]).Success? <==> TotalTruth(p, known, i)
  {
    hide Certain;
  }

  lemma {:induction false} CandidatesCompare(p: Prepared, known: Node -> bool, values: seq<Lowered>, input: nat,
      candidates: seq<nat>, ys: seq<Lowered>)
    requires Told(p, known, values) && input < |values| && |ys| == |candidates|
    requires forall i | 0 <= i < |ys| :: candidates[i] < |values| && ys[i] == values[candidates[i]]
    ensures Comparisons(values[input], ys).Success? <==> forall i | 0 <= i < |candidates| ::
              Alike(p, input, candidates[i])
    decreases |ys|
  {
    hide Told, Alike, ValueEqual;
    if ys != [] {
      AlikeCompares(p, known, values, input, candidates[0]);
      assert forall i | 0 < i < |candidates| :: candidates[i] == candidates[1..][i - 1];
      CandidatesCompare(p, known, values, input, candidates[1..], ys[1..]);
    }
  }

  /** The node that comes next: accepted as told, and then of the shape and certainty told. */
  ghost predicate NodeTold(p: Prepared, scopes: seq<Scope>, parameters: Parameters, id: nat, r: Result<Lowered>)
    requires id < |p.nodes|
  {
    && (r.Success? <==> NodeLowerable(p, scopes, parameters, id))
    && (r.Success? ==> r.value.ty.shape == ResultShape(p.nodes[id])
                       && r.value.always == Certain(p, Known(scopes, parameters), id))
  }

  lemma UnaryTold(p: Prepared, layouts: seq<ScopeLayout>, parameters: Parameters, values: seq<Lowered>)
    requires Told(p, Known(Seen(layouts), parameters), values) && |values| < |p.nodes|
    requires p.nodes[|values|].kind.UnaryK?
    ensures NodeTold(p, Seen(layouts), parameters, |values|,
                     LowerNode(p.nodes[|values|], values, p.scopes, layouts, parameters))
  {
    var input := p.nodes[|values|].kind.input;
    if input < |values| {
      TotalTruthRequired(p, Known(Seen(layouts), parameters), values, input);
    }
  }

  /** When a binary operation over two lowered operands is accepted, and what of. */
  lemma BinaryAccepted(op: BinaryOp, x: Lowered, y: Lowered, ty: TypeDef)
    ensures var r := CompileBinary(op, x, y, ty);
            && (r.Success? <==>
                && op !in {Add, Sub, Mul, Div, Rem}
                && (op in {And, Or} ==> RequireTotalTruth(x).Success? && RequireTotalTruth(y).Success?)
                && (op in {Eq, Ne, IsDistinctFrom, IsNotDistinctFrom} ==> ValueEqual(x, y).Success?)
                && (op in {Lt, Le, Gt, Ge} ==> ValueOrder(op, x, y).Success?))
            && (r.Success? ==> r.value.ty == (if op == Coalesce then ty else TRUTH_TYPE)
                               && r.value.always == (op != Coalesce || x.always || y.always))
  {
    hide ValueEqual, ValueOrder, RequireTotalTruth;
  }

  lemma BinaryTold(p: Prepared, layouts: seq<ScopeLayout>, parameters: Parameters, values: seq<Lowered>)
    requires Told(p, Known(Seen(layouts), parameters), values) && |values| < |p.nodes|
    requires p.nodes[|values|].kind.BinaryK?
    ensures NodeTold(p, Seen(layouts), parameters, |values|,
                     LowerNode(p.nodes[|values|], values, p.scopes, layouts, parameters))
  {
    hide ValueEqual, ValueOrder, RequireTotalTruth, TotalTruth, Alike, CompileBinary;
    var BinaryK(op, left, right) := p.nodes[|values|].kind;
    if left < |values| && right < |values| {
      BinaryAccepted(op, values[left], values[right], p.nodes[|values|].ty);
      AlikeCompares(p, Known(Seen(layouts), parameters), values, left, right);
      TotalTruthRequired(p, Known(Seen(layouts), parameters), values, left);
      TotalTruthRequired(p, Known(Seen(layouts), parameters), values, right);
    }
  }

  lemma MembershipTold(p: Prepared, layouts: seq<ScopeLayout>, parameters: Parameters, values: seq<Lowered>)
    requires Told(p, Known(Seen(layouts), parameters), values) && |values| < |p.nodes|
    requires p.nodes[|values|].kind.MembershipK?
    ensures NodeTold(p, Seen(layouts), parameters, |values|,
                     LowerNode(p.nodes[|values|], values, p.scopes, layouts, parameters))
  {
    hide Alike, Comparisons, TagTests;
    var MembershipK(input, candidates, _) := p.nodes[|values|].kind;
    if input < |values| && Operands(values, candidates).Success? {
      CandidatesCompare(p, Known(Seen(layouts), parameters), values, input, candidates,
                        Operands(values, candidates).value);
    }
  }

  lemma ConditionalTold(p: Prepared, layouts: seq<ScopeLayout>, parameters: Parameters, values: seq<Lowered>)
    requires Told(p, Known(Seen(layouts), parameters), values) && |values| < |p.nodes|
    requires p.nodes[|values|].kind.ConditionalK?
    ensures NodeTold(p, Seen(layouts), parameters, |values|,
                     LowerNode(p.nodes[|values|], values, p.scopes, layouts, parameters))
  {
    hide RequireTotalTruth, TotalTruth;
    var condition := p.nodes[|values|].kind.condition;
    if condition < |values| {
      TotalTruthRequired(p, Known(Seen(layouts), parameters), values, condition);
    }
  }

  lemma LeafTold(p: Prepared, layouts: seq<ScopeLayout>, parameters: Parameters, values: seq<Lowered>)
    requires |values| < |p.nodes|
    requires var kind := p.nodes[|values|].kind;
             kind.FieldK? || kind.LiteralK? || kind.ParameterK? || kind.CallK? || kind.ExistsK?
    ensures NodeTold(p, Seen(layouts), parameters, |values|,
                     LowerNode(p.nodes[|values|], values, p.scopes, layouts, parameters))
  {
    hide BoundDatum, Bindable;
    var node := p.nodes[|values|];
    match node.kind
    case LiteralK(datum) => BindableBound(node.ty, datum);
    case ParameterK(name) =>
      if name in parameters {
        BindableBound(node.ty, parameters[name].datum);
      }
    case _ =>
  }

  lemma {:induction false} PrefixTold(p: Prepared, layouts: seq<ScopeLayout>, parameters: Parameters, k: nat)
    requires k <= |p.nodes|
    ensures var values := LowerPrefix(p, layouts, parameters, k);
            && (values.Success? <==> forall id | 0 <= id < k :: NodeLowerable(p, Seen(layouts), parameters, id))
            && (values.Success? ==> Told(p, Known(Seen(layouts), parameters), values.value))
  {
    hide LowerNode, NodeLowerable, Certain, ResultShape;
    if k > 0 {
      PrefixTold(p, layouts, parameters, k - 1);
      if LowerPrefix(p, layouts, parameters, k - 1).Success? {
        var values := LowerPrefix(p, layouts, parameters, k - 1).value;
        match p.nodes[k - 1].kind
        case UnaryK(_, _) => UnaryTold(p, layouts, parameters, values);
        case BinaryK(_, _, _) => BinaryTold(p, layouts, parameters, values);
        case MembershipK(_, _, _) => MembershipTold(p, layouts, parameters, values);
        case ConditionalK(_, _, _) => ConditionalTold(p, layouts, parameters, values);
        case _ => LeafTold(p, layouts, parameters, values);
      }
    }
  }

  /** The expression compiler accepts exactly the lowerable expressions. */
  lemma LoweredExactly(p: Prepared, layouts: seq<ScopeLayout>, parameters: Parameters)
    ensures var r := LowerExpr(p, layouts, parameters);
            && (r.Success? <==> Lowerable(p, Seen(layouts), parameters))
            && (r.Success? ==> r.value.ty.shape == ResultShape(p.nodes[p.root])
                               && r.value.always == Certain(p, Known(Seen(layouts), parameters), p.root))
  {
    hide LowerPrefix, NodeLowerable, Certain, ResultShape;
    PrefixTold(p, layouts, parameters, |p.nodes|);
  }

  // ----- which expressions the capability analysis supports -----

  predicate NodeAnalyzable(p: Prepared, id: nat)
    requires id < |p.nodes|
  {
    var known := KnownLiterals();
    && Storable(p.nodes[id].ty.shape)
    && match p.nodes[id].kind
       case FieldK(_, _, allowNull) => !allowNull
       case LiteralK(_) => true
       case ParameterK(_) => true
       case UnaryK(op, input) =>
         || op in {IsNull, IsMissing, IsPresent}
         || (op == NullableLift && input < id)
         || (op == Not && input < id && Certain(p, known, input))
       case BinaryK(op, left, right) =>
         && left < id && right < id && op !in {Add, Sub, Mul, Div, Rem}
         && (op in {And, Or} ==> Certain(p, known, left) && Certain(p, known, right))
       case MembershipK(input, candidates, _) => input < id && forall i | 0 <= i < |candidates| :: candidates[i] < id
       case ConditionalK(condition, whenTrue, whenFalse) =>
         condition < id && whenTrue < id && whenFalse < id && Certain(p, known, condition)
       case CallK(_, _) => false
       case ExistsK(_) => false
  }

  lemma {:induction false} FlagsTold(p: Prepared, k: nat)
    requires k <= |p.nodes|
    ensures var flags := SupportPrefix(p, k);
            && (flags.Some? <==> forall id | 0 <= id < k :: NodeAnalyzable(p, id))
            && (flags.Some? ==> forall id | 0 <= id < k :: flags.value[id] == Certain(p, KnownLiterals(), id))
    decreases k
  {
    hide SupportNode, NodeAnalyzable, Certain;
    if k > 0 {
      FlagsTold(p, k - 1);
      if SupportPrefix(p, k - 1).Some? {
        FlagTold(p, SupportPrefix(p, k - 1).value);
      }
    }
  }

  lemma FlagTold(p: Prepared, flags: seq<bool>)
    requires |flags| < |p.nodes| && forall id | 0 <= id < |flags| :: flags[id] == Certain(p, KnownLiterals(), id)
    ensures var flag := SupportNode(p.nodes[|flags|], flags);
            && (flag.Some? <==> NodeAnalyzable(p, |flags|))
            && (flag.Some? ==> flag.value == Certain(p, KnownLiterals(), |flags|))
  {
    StorableSupported(p.nodes[|flags|].ty);
  }

  /** The analysis supports exactly the analyzable expressions, and calls total what its literals make certain. */
  lemma SupportedExactly(p: Prepared)
    ensures Support(p).Some? <==>
              p.outerScopes == 0 && p.root < |p.nodes| && forall id | 0 <= id < |p.nodes| :: NodeAnalyzable(p, id)
    ensures Support(p).Some? ==> Support(p).value == Certain(p, KnownLiterals(), p.root)
  {
    hide SupportPrefix, NodeAnalyzable, Certain;
    FlagsTold(p, |p.nodes|);
  }

  // ----- which plans are compiled -----

  /** A top-level name outside the compiler's own. */
  predicate PlainName(name: string) {
    && 0 < |name| && name[0] != '$' && !(|name| >= 6 && name[..6] == "__dol_")
    && forall i | 0 <= i < |name| :: name[i] != '.' && name[i] != '\0'
  }

  /** A registered model whose fields have distinct plain names and types of some width on the wire. */
  predicate Stored(catalog: Catalog, model: ModelDef) {
    && model.key in catalog
    && var entry := catalog[model.key];
    && entry.model == model && |entry.fields| == |model.fields|
    && (forall i | 0 <= i < |model.fields| ::
          && model.fields[i].key in entry.fields && PlainName(entry.fields[model.fields[i].key])
          && WiredType(model.fields[i].ty.shape))
    && forall i, j | 0 <= i < j < |model.fields| ::
         entry.fields[model.fields[i].key] != entry.fields[model.fields[j].key]
  }

  predicate WiredType(shape: TypeShape) {
    Storable(shape) && (shape.repr.IntRepr? || shape.repr.UIntRepr? ==> shape.repr.bits > 0)
  }

  /** The scopes the expressions over a node see: those of its source, until something is projected. */
  function ScopesAt(plan: LogicalPlan, id: nat): seq<Scope> {
    if id >= |plan.nodes| then []
    else match plan.nodes[id]
      case Source(model) =>
        [Scope(model.key, seq(|model.fields|, i requires 0 <= i < |model.fields| =>
          model.fields[i].presence == Required && !model.fields[i].ty.nullable))]
      case Filter(input, _) => if input < id then ScopesAt(plan, input) else []
      case Slice(input, _, _) => if input < id then ScopesAt(plan, input) else []
      case _ => []
  }

  /** What a node's rows are, when it is a source, a filter, a projection or a slice. */
  function OutputAt(plan: LogicalPlan, id: nat): Option<PlanOutput> {
    if id >= |plan.nodes| then None
    else match plan.nodes[id]
      case Source(model) => Some(ModelOutput(model))
      case Project(_, projection) => Some(ValueOutput(projection.ty))
      case Filter(input, _) => if input < id then OutputAt(plan, input) else None
      case Slice(input, _, _) => if input < id then OutputAt(plan, input) else None
      case _ => None
  }

  predicate NodeCompilable(catalog: Catalog, plan: LogicalPlan, parameters: Parameters, id: nat)
    requires id < |plan.nodes|
  {
    match plan.nodes[id]
    case Source(model) => Stored(catalog, model)
    case Filter(input, condition) =>
      && input < id && condition.ty.shape == Scalar(TruthRepr)
      && Lowerable(condition, ScopesAt(plan, input), parameters)
      && Certain(condition, Known(ScopesAt(plan, input), parameters), condition.root)
    case Project(input, projection) =>
      && input < id && (projection.kind == ValueProjection ==> |projection.expressions| == 1)
      && forall i | 0 <= i < |projection.expressions| ::
           Projectable(projection.expressions[i], ScopesAt(plan, input), parameters)
    case Slice(input, offset, limit) =>
      input < id && offset <= 0x7fff_ffff_ffff_ffff && (limit.Some? ==> limit.value <= 0x7fff_ffff_ffff_ffff)
    case _ => false
  }

  predicate Projectable(e: Prepared, scopes: seq<Scope>, parameters: Parameters) {
    Storable(e.ty.shape) && Lowerable(e, scopes, parameters)
  }

  predicate PlanCompilable(catalog: Catalog, plan: LogicalPlan, parameters: Parameters) {
    && (forall id | 0 <= id < |plan.nodes| :: NodeCompilable(catalog, plan, parameters, id))
    && OutputAt(plan, plan.root) == Some(plan.output)
  }

  lemma PlainNames(name: string)
    ensures PlainName(name) <==> ValidFieldName(name)
  {
  }

  lemma {:induction false} MappingChecked(entry: CatalogEntry, k: nat)
    requires k <= |entry.model.fields|
    ensures CheckMapping(entry, k).Success? <==>
              && (forall i | 0 <= i < k ::
                    entry.model.fields[i].key in entry.fields && PlainName(entry.fields[entry.model.fields[i].key]))
              && (forall i, j | 0 <= i < j < k ::
                    entry.fields[entry.model.fields[i].key] != entry.fields[entry.model.fields[j].key])
    decreases k
  {
    hide PlainName, ValidFieldName;
    if k > 0 {
      MappingChecked(entry, k - 1);
      var key := entry.model.fields[k - 1].key;
      if key in entry.fields {
        PlainNames(entry.fields[key]);
      }
    }
  }

  lemma TypeWired(field: FieldDef, state: Agg, value: Agg)
    ensures SourceFieldValid(field, state, value).Success? <==> WiredType(field.ty.shape)
  {
    StorableSupported(field.ty);
  }

  lemma {:induction false} FieldsSourced(entry: CatalogEntry, k: nat)
    requires k <= |entry.model.fields|
    requires forall i | 0 <= i < k :: entry.model.fields[i].key in entry.fields
    ensures SourceFields(entry, k).Success? <==> forall i | 0 <= i < k :: WiredType(entry.model.fields[i].ty.shape)
    decreases k
  {
    hide SourceFieldValid, SourcePair, WiredType;
    if k > 0 {
      FieldsSourced(entry, k - 1);
      var field := entry.model.fields[k - 1];
      var pair := SourcePair(entry, field);
      TypeWired(field, pair.state, pair.value);
    }
  }

  lemma SourceAccepted(catalog: Catalog, model: ModelDef, stage: nat)
    ensures CompileSource(catalog, model, stage).Success? <==> Stored(catalog, model)
  {
    hide PlainName, WiredType, SourceFields, Entries, SourceColumns, OutputFields, CheckMapping;
    if model.key in catalog && catalog[model.key].model == model {
      MappingChecked(catalog[model.key], |model.fields|);
      if CheckMapping(catalog[model.key], |model.fields|).Success? {
        FieldsSourced(catalog[model.key], |model.fields|);
      }
    }
  }

  lemma SourceSeen(model: ModelDef, stage: nat, plan: LogicalPlan, id: nat)
    requires id < |plan.nodes| && plan.nodes[id] == Source(model)
    ensures Seen([ScopeLayout(model.key, SourceColumns(stage, model.fields))]) == ScopesAt(plan, id)
  {
    hide StateName, ValueName;
    var scope := Seen([ScopeLayout(model.key, SourceColumns(stage, model.fields))])[0];
    assert scope.always == ScopesAt(plan, id)[0].always;
  }

  lemma SourceCompiles(catalog: Catalog, plan: LogicalPlan, parameters: Parameters, id: nat)
    requires id < |plan.nodes| && plan.nodes[id].Source?
    ensures StageTold(catalog, plan, parameters, id, CompileSource(catalog, plan.nodes[id].model, id))
  {
    hide Stored, SourceFields, Entries, SourceColumns, OutputFields, Seen, Collection;
    var model := plan.nodes[id].model;
    SourceAccepted(catalog, model, id);
    SourceSeen(model, id, plan, id);
  }

  /** A compiled node: accepted as told, and then seeing the scopes and giving the output told. */
  ghost predicate StageTold(catalog: Catalog, plan: LogicalPlan, parameters: Parameters, id: nat, r: Result<Relation>)
    requires id < |plan.nodes|
  {
    && (r.Success? <==> NodeCompilable(catalog, plan, parameters, id))
    && (r.Success? ==> RelationTold(plan, id, r.value))
  }

  ghost predicate RelationTold(plan: LogicalPlan, id: nat, r: Relation) {
    Seen(r.scopes) == ScopesAt(plan, id) && OutputAt(plan, id) == Some(r.output)
  }

  lemma {:induction false} ProjectionLowers(es: seq<Prepared>, layouts: seq<ScopeLayout>, parameters: Parameters)
    ensures LowerProjection(es, layouts, parameters).Success? <==>
            forall i | 0 <= i < |es| :: Projectable(es[i], Seen(layouts), parameters)
  {
    hide LowerExpr, Lowerable, SupportedType, Storable, ResultShape, Certain;
    if es != [] {
      StorableSupported(es[0].ty);
      LoweredExactly(es[0], layouts, parameters);
      ProjectionLowers(es[1..], layouts, parameters);
      assert forall i | 0 < i < |es| :: es[i] == es[1..][i - 1];
    }
  }

  lemma NodeCompiles(catalog: Catalog, plan: LogicalPlan, parameters: Parameters, id: nat, relations: seq<Relation>)
    requires id < |plan.nodes| && |relations| == id
    requires forall i | 0 <= i < id :: RelationTold(plan, i, relations[i])
    ensures StageTold(catalog, plan, parameters, id, CompileStage(catalog, plan.nodes[id], relations, parameters, id))
  {
    hide LowerExpr, Lowerable, Certain, LowerProjection, Projectable, ResultShape, Stored;
    match plan.nodes[id]
    case Source(_) => SourceCompiles(catalog, plan, parameters, id);
    case Filter(input, condition) =>
      if input < id {
        LoweredExactly(condition, relations[input].scopes, parameters);
      }
    case Project(input, projection) =>
      if input < id {
        ProjectionLowers(projection.expressions, relations[input].scopes, parameters);
      }
    case _ =>
  }

  lemma {:induction false} PrefixCompiles(catalog: Catalog, plan: LogicalPlan, parameters: Parameters, k: nat)
    requires k <= |plan.nodes|
    ensures var relations := CompilePrefix(catalog, plan, parameters, k);
            && (relations.Success? <==> forall id | 0 <= id < k :: NodeCompilable(catalog, plan, parameters, id))
            && (relations.Success? ==> forall id | 0 <= id < k :: RelationTold(plan, id, relations.value[id]))
    decreases k
  {
    hide CompileStage, NodeCompilable, RelationTold;
    if k > 0 {
      PrefixCompiles(catalog, plan, parameters, k - 1);
      if CompilePrefix(catalog, plan, parameters, k - 1).Success? {
        NodeCompiles(catalog, plan, parameters, k - 1, CompilePrefix(catalog, plan, parameters, k - 1).value);
      }
    }
  }

  /** The plan compiler accepts exactly the plans whose every node is compilable and whose output is their root's. */
  lemma CompiledExactly(catalog: Catalog, plan: LogicalPlan, parameters: Parameters)
    ensures CompilePlan(catalog, plan, parameters).Success? <==> PlanCompilable(catalog, plan, parameters)
  {
    hide CompilePrefix, NodeCompilable, ScopesAt;
    PrefixCompiles(catalog, plan, parameters, |plan.nodes|);
  }
}
