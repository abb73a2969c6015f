/// The capability analysis that decides which filters may be lowered
/// (`engines/mongodb/src/compiler.rs`, `expression_support`).

module MongoTotality {
  import opened Results
  import opened Semantics
  import opened Models
  import opened Expressions
  import opened Bson
  import opened MongoCompiler

  function Flag(flags: seq<bool>, id: nat): Option<bool> {
    if id < |flags| then Some(flags[id]) else None
  }

  /** Whether one node is supported and, if so, whether it is always a value. */
  function SupportNode(node: Node, flags: seq<bool>): Option<bool> {
    if !SupportedType(node.ty) && !IsTruthShape(node.ty) then None
    else match node.kind
      case FieldK(_, _, allowNull) => if allowNull then None else Some(false)
      case LiteralK(datum) => Some(datum.Val?)
      case ParameterK(_) => Some(false)
      case UnaryK(op, input) =>
        if op in {IsNull, IsMissing, IsPresent} then Some(true)
        else if op == NullableLift then Flag(flags, input)
        else if op == Not then if Flag(flags, input) == Some(true) then Some(true) else None
        else None
      case BinaryK(op, left, right) =>
        var l, r := Flag(flags, left), Flag(flags, right);
        if l.None? || r.None? then None
        else if op in {Eq, Ne, Lt, Le, Gt, Ge, IsDistinctFrom, IsNotDistinctFrom} then Some(true)
        else if op == And || op == Or then if l.value && r.value then Some(true) else None
        else if op == Coalesce then Some(l.value || r.value)
        else None
      case MembershipK(input, candidates, _) =>
        if input < |flags| && forall i | 0 <= i < |candidates| :: candidates[i] < |flags| then Some(true) else None
      case ConditionalK(condition, whenTrue, whenFalse) =>
        var t, f := Flag(flags, whenTrue), Flag(flags, whenFalse);
        if Flag(flags, condition) != Some(true) || t.None? || f.None? then None
        else Some(t.value && f.value)
      case _ => None
  }

  function SupportPrefix(p: Prepared, k: nat): (r: Option<seq<bool>>)
    requires k <= |p.nodes|
    ensures r.Some? ==> |r.value| == k
  {
    if k == 0 then Some([])
    else
      var flags := SupportPrefix(p, k - 1);
      if flags.None? then None
      else
        var last := SupportNode(p.nodes[k - 1], flags.value);
        if last.None? then None else Some(flags.value + [last.value])
  }

  function Support(p: Prepared): Option<bool> {
    if p.outerScopes != 0 then None
    else
      var flags := SupportPrefix(p, |p.nodes|);
      if flags.None? then None else Flag(flags.value, p.root)
  }

  lemma {:induction false} PrefixNone(p: Prepared, k: nat, n: nat)
    requires k <= n <= |p.nodes| && SupportPrefix(p, k).None?
    ensures SupportPrefix(p, n).None?
    decreases n
  {
    if k < n {
      PrefixNone(p, k, n - 1);
    }
  }

  /** The analysis pass over the node array. */
  method ExpressionSupport(p: Prepared) returns (r: Option<bool>)
    ensures r == Support(p)
  {
    if p.outerScopes != 0 {
      return None;
    }
    var flags: seq<bool> := [];
    for i := 0 to |p.nodes|
      invariant SupportPrefix(p, i) == Some(flags)
    {
      var flag := SupportNode(p.nodes[i], flags);
      if flag.None? {
        assert SupportPrefix(p, i + 1).None?;
        PrefixNone(p, i + 1, |p.nodes|);
        return None;
      }
      flags := flags + [flag.value];
    }
    return Flag(flags, p.root);
  }

  // ----- soundness over rows -----

  ghost predicate FlagsSound(rt: Runtime, p: Prepared, flags: seq<bool>)
    requires Topological(p.nodes) && |flags| <= |p.nodes|
  {
    forall id | 0 <= id < |flags| ::
      flags[id] && EvalNode(rt, p.nodes, id).Success? ==> EvalNode(rt, p.nodes, id).value.Val?
  }

  lemma NodeSound(rt: Runtime, p: Prepared, flags: seq<bool>, id: nat)
    requires Topological(p.nodes) && id < |p.nodes| && |flags| == id
    requires FlagsSound(rt, p, flags)
    requires SupportNode(p.nodes[id], flags) == Some(true)
    requires EvalNode(rt, p.nodes, id).Success?
    ensures EvalNode(rt, p.nodes, id).value.Val?
  {
    if p.nodes[id].kind.MembershipK? {
      var MembershipK(input, candidates, negate) := p.nodes[id].kind;
      MembershipMeaning(EvalNode(rt, p.nodes, input).value, EvalNodes(rt, p.nodes, candidates, id).value, negate,
                        false);
    }
  }

  lemma {:induction false} PrefixSound(rt: Runtime, p: Prepared, k: nat)
    requires Topological(p.nodes) && k <= |p.nodes| && SupportPrefix(p, k).Some?
    ensures FlagsSound(rt, p, SupportPrefix(p, k).value)
    decreases k
  {
    hide EvalNode;
    if k > 0 {
      PrefixSound(rt, p, k - 1);
      var flags := SupportPrefix(p, k - 1).value;
      if SupportPrefix(p, k).value[k - 1] && EvalNode(rt, p.nodes, k - 1).Success? {
        NodeSound(rt, p, flags, k - 1);
      }
    }
  }

  /** A filter the analysis calls total never evaluates to Missing or Null, over any row and parameters. */
  lemma SupportSound(rt: Runtime, p: Prepared)
    requires WellFormed(p) && Support(p) == Some(true)
    requires EvaluateDatum(p, rt).Success?
    ensures EvaluateDatum(p, rt).value.Val?
  {
    hide EvalNode;
    PrefixSound(rt, p, |p.nodes|);
  }

  // ----- agreement with the compiler -----

  /** The two rejections of an expression that may be Missing or Null. */
  predicate RejectsPartial(code: string) {
    code == "MONGODB-COMPILE-003" || code == "MONGODB-COMPILE-014"
  }

  ghost predicate NoMoreOptimistic(flags: seq<bool>, values: seq<Lowered>) {
    |flags| == |values| && forall i | 0 <= i < |flags| :: flags[i] ==> values[i].always
  }

  lemma ComparisonsNotTotality(c: Lowered, candidates: seq<Lowered>)
    ensures Comparisons(c, candidates).Failure? ==> !RejectsPartial(Comparisons(c, candidates).code)
  {
  }

  lemma OperandsNotTotality(values: seq<Lowered>, ids: seq<nat>)
    ensures Operands(values, ids).Failure? ==> !RejectsPartial(Operands(values, ids).code)
  {
  }

  lemma ComparisonNotTotality(op: BinaryOp, l: Lowered, r: Lowered)
    ensures ValueEqual(l, r).Failure? ==> !RejectsPartial(ValueEqual(l, r).code)
    ensures IsOrder(op) && ValueOrder(op, l, r).Failure? ==> !RejectsPartial(ValueOrder(op, l, r).code)
  {
  }

  lemma BoundNotTotality(ty: TypeDef, d: Datum)
    ensures BoundDatum(ty, d).Failure? ==> !RejectsPartial(BoundDatum(ty, d).code)
  {
  }

  lemma TotalNotTotality(c: Lowered)
    requires c.always
    ensures RequireTotalTruth(c).Failure? ==> !RejectsPartial(RequireTotalTruth(c).code)
  {
  }

  lemma UnaryAgrees(op: UnaryOp, x: Lowered, ty: TypeDef)
    requires op == Not ==> x.always
    ensures var r := CompileUnary(op, x, ty);
            if r.Success? then r.value.always || (op == NullableLift && r.value.always == x.always)
            else !RejectsPartial(r.code)
  {
    if x.always { TotalNotTotality(x); }
  }

  lemma BinaryAgrees(op: BinaryOp, x: Lowered, y: Lowered, ty: TypeDef)
    requires op == And || op == Or ==> x.always && y.always
    ensures var r := CompileBinary(op, x, y, ty);
            if r.Success? then r.value.always || (op == Coalesce && r.value.always == (x.always || y.always))
            else !RejectsPartial(r.code)
  {
    ComparisonNotTotality(op, x, y);
    if x.always { TotalNotTotality(x); }
    if y.always { TotalNotTotality(y); }
  }

  lemma NodeAgrees(p: Prepared, layouts: seq<ScopeLayout>, parameters: Parameters, flags: seq<bool>,
      values: seq<Lowered>, id: nat)
    requires id < |p.nodes| && |flags| == id
    requires NoMoreOptimistic(flags, values)
    requires SupportNode(p.nodes[id], flags).Some?
    ensures var r := LowerNode(p.nodes[id], values, p.scopes, layouts, parameters);
            if r.Success? then SupportNode(p.nodes[id], flags).value ==> r.value.always else !RejectsPartial(r.code)
  {
    hide CompileUnary, CompileBinary, BoundDatum, Comparisons, Operands, TagTests;
    match p.nodes[id].kind
    case LiteralK(d) => BoundNotTotality(p.nodes[id].ty, d); BoundAlways(p.nodes[id].ty, d);
    case ParameterK(name) =>
      if name in parameters { BoundNotTotality(p.nodes[id].ty, parameters[name].datum); }
    case UnaryK(op, input) =>
      if input < |values| { UnaryAgrees(op, values[input], p.nodes[id].ty); }
    case BinaryK(op, left, right) =>
      BinaryAgrees(op, values[left], values[right], p.nodes[id].ty);
    case MembershipK(input, candidates, _) =>
      OperandsNotTotality(values, candidates);
      ComparisonsNotTotality(values[input], Operands(values, candidates).value);
    case ConditionalK(condition, _, _) =>
      TotalNotTotality(values[condition]);
    case _ =>
  }

  lemma BoundAlways(ty: TypeDef, d: Datum)
    ensures BoundDatum(ty, d).Success? ==> BoundDatum(ty, d).value.always == d.Val?
  {
  }

  lemma {:induction false} PrefixAgrees(p: Prepared, layouts: seq<ScopeLayout>, parameters: Parameters, k: nat)
    requires k <= |p.nodes| && SupportPrefix(p, k).Some?
    ensures var r := LowerPrefix(p, layouts, parameters, k);
            if r.Success? then NoMoreOptimistic(SupportPrefix(p, k).value, r.value) else !RejectsPartial(r.code)
    decreases k
  {
    hide LowerNode, SupportNode;
    if k > 0 {
      PrefixAgrees(p, layouts, parameters, k - 1);
      var before := LowerPrefix(p, layouts, parameters, k - 1);
      if before.Success? {
        NodeAgrees(p, layouts, parameters, SupportPrefix(p, k - 1).value, before.value, k - 1);
      }
    }
  }

  /** The analysis is never more optimistic than the compiler, which never rejects it for partial truth. */
  lemma SupportAgrees(p: Prepared, layouts: seq<ScopeLayout>, parameters: Parameters)
    requires Support(p).Some?
    ensures var r := LowerExpr(p, layouts, parameters);
            if r.Success? then Support(p).value ==> r.value.always else !RejectsPartial(r.code)
  {
    PrefixAgrees(p, layouts, parameters, |p.nodes|);
  }
}
