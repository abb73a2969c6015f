/// Row-at-a-time operators with mutable slice counters, seen as a transducer over rows
/// (`engines/jsonl/src/stream.rs`, operator half), and their agreement with whole stages.

module JsonlOperators {
  import opened Results
  import opened Semantics
  import opened Models
  import opened Expressions
  import opened Plans
  import opened Streams

  datatype StreamOp =
    | FilterOp(condition: Prepared)
    | ProjectOp(projection: Projection)
    | UnnestOp(element: TypeDef)
    | SliceOp(offsetRemaining: nat, limitRemaining: Option<nat>)

  datatype Setting = Setting(host: Host, parameters: Parameters, limits: Limits)

  predicate UsableOp(op: StreamOp) {
    match op
    case FilterOp(condition) => WellFormed(condition)
    case ProjectOp(projection) => forall i | 0 <= i < |projection.expressions| :: WellFormed(projection.expressions[i])
    case _ => true
  }

  predicate Usable(ops: seq<StreamOp>) {
    forall i | 0 <= i < |ops| :: UsableOp(ops[i])
  }

  function Unlimited(s: Setting): Setting {
    s.(limits := s.limits.(maxRows := None, maxBytes := None))
  }

  // ----- one row through one operator -----

  /** A closed scope leaves no record; more than one scope is never bound here. */
  function StreamContext(s: Setting, e: Prepared, row: ExecutionRow): Result<EvalContext> {
    if |e.scopes| == 0 then Success(EvalContext([], [], s.parameters))
    else if |e.scopes| > 1 then Failure("JSONL-EXPR-002")
    else if row.ModelRow? then Success(EvalContext([row.row], [false], s.parameters))
    else Failure("JSONL-EXPR-001")
  }

  function StreamExpr(s: Setting, e: Prepared, row: ExecutionRow): Result<Datum>
    requires WellFormed(e)
  {
    var ctx :- StreamContext(s, e, row);
    EvaluateDatum(e, Runtime(s.host, ctx, NoResolver))
  }

  function StreamAll(s: Setting, es: seq<Prepared>, row: ExecutionRow): (r: Result<seq<Datum>>)
    requires forall i | 0 <= i < |es| :: WellFormed(es[i])
    ensures r.Success? ==> |r.value| == |es|
  {
    if es == [] then Success([])
    else
      var x :- StreamExpr(s, es[0], row);
      var xs :- StreamAll(s, es[1..], row);
      Success([x] + xs)
  }

  function StreamElements(s: Setting, element: TypeDef, items: seq<Datum>): Result<seq<ExecutionRow>> {
    if items == [] then Success([])
    else if !ValidDatum(element, Required, items[0]) then Failure("RUNTIME")
    else
      var rest :- StreamElements(s, element, items[1..]);
      Success([ValueRow(items[0])] + rest)
  }

  /** The operator after one row, and the rows it pushed. */
  function StepOp(s: Setting, op: StreamOp, row: ExecutionRow): (r: Result<(StreamOp, seq<ExecutionRow>)>)
    requires UsableOp(op)
    ensures r.Success? ==> UsableOp(r.value.0)
  {
    match op
    case FilterOp(condition) =>
      var datum :- StreamExpr(s, condition, row);
      var keep :- Keeps(datum);
      Success((op, if keep then [row] else []))
    case ProjectOp(projection) =>
      var values :- StreamAll(s, projection.expressions, row);
      var datum :- ShapeProjection(projection, values);
      Success((op, [ValueRow(datum)]))
    case UnnestOp(element) =>
      (match row
       case ModelRow(_) => Failure("JSONL-UNNEST-001")
       case ValueRow(Val(ListV(items))) =>
         var rows :- StreamElements(s, element, items);
         Success((op, rows))
       case ValueRow(Val(_)) => Failure("JSONL-UNNEST-002")
       case ValueRow(_) => Success((op, [])))
    case SliceOp(offset, limit) =>
      if offset > 0 then Success((SliceOp(offset - 1, limit), []))
      else match limit
        case None => Success((op, [row]))
        case Some(n) => if n == 0 then Success((op, [])) else Success((SliceOp(0, Some(n - 1)), [row]))
  }

  /** Rows through one operator, its counters carried from row to row. */
  function RunOp(s: Setting, op: StreamOp, rows: seq<ExecutionRow>): (r: Result<(StreamOp, seq<ExecutionRow>)>)
    requires UsableOp(op)
    ensures r.Success? ==> UsableOp(r.value.0)
    decreases |rows|
  {
    if rows == [] then Success((op, []))
    else
      var (op', first) :- StepOp(s, op, rows[0]);
      var (op'', rest) :- RunOp(s, op', rows[1..]);
      Success((op'', first + rest))
  }

  /** Rows through all operators in order, each output within the limits. */
  function RunOps(s: Setting, ops: seq<StreamOp>, rows: seq<ExecutionRow>): (r: Result<(seq<StreamOp>,
      seq<ExecutionRow>)>)
    requires Usable(ops)
    ensures r.Success? ==> Usable(r.value.0) && |r.value.0| == |ops|
    decreases |ops|
  {
    if ops == [] then Success(([], rows))
    else
      var (op, next) :- RunOp(s, ops[0], rows);
      if !Within(s.limits, next) then Failure("ENGINE-LIMIT")
      else
        var (rest, out) :- RunOps(s, ops[1..], next);
        Success(([op] + rest, out))
  }

  // ----- the transducer splits anywhere -----

  lemma {:induction false} RunOpSplits(s: Setting, op: StreamOp, xs: seq<ExecutionRow>, ys: seq<ExecutionRow>)
    requires UsableOp(op)
    ensures var a := RunOp(s, op, xs);
            var whole := RunOp(s, op, xs + ys);
            if a.Failure? then whole.Failure?
            else
              var b := RunOp(s, a.value.0, ys);
              if b.Failure? then whole.Failure? else whole == Success((b.value.0, a.value.1 + b.value.1))
    decreases |xs|
  {
    hide StepOp;
    if xs == [] {
      assert xs + ys == ys;
      assert RunOp(s, op, ys).Success? ==> [] + RunOp(s, op, ys).value.1 == RunOp(s, op, ys).value.1;
    } else {
      assert (xs + ys)[1..] == xs[1..] + ys;
      var step := StepOp(s, op, xs[0]);
      if step.Success? {
        RunOpSplits(s, step.value.0, xs[1..], ys);
        var a := RunOp(s, step.value.0, xs[1..]);
        if a.Success? && RunOp(s, a.value.0, ys).Success? {
          var b := RunOp(s, a.value.0, ys).value.1;
          assert step.value.1 + (a.value.1 + b) == (step.value.1 + a.value.1) + b;
        }
      }
    }
  }

  /** Without limits, a prefix of the rows can be run first and the rest through the operators it leaves. */
  lemma {:induction false} RunOpsSplits(s: Setting, ops: seq<StreamOp>, xs: seq<ExecutionRow>, ys: seq<ExecutionRow>)
    requires Usable(ops) && s.limits.maxRows.None? && s.limits.maxBytes.None?
    ensures var a := RunOps(s, ops, xs);
            var whole := RunOps(s, ops, xs + ys);
            if a.Failure? then whole.Failure?
            else
              var b := RunOps(s, a.value.0, ys);
              if b.Failure? then whole.Failure? else whole == Success((b.value.0, a.value.1 + b.value.1))
    decreases |ops|
  {
    hide RunOp;
    if ops != [] {
      RunOpSplits(s, ops[0], xs, ys);
      var a := RunOp(s, ops[0], xs);
      if a.Success? {
        var b := RunOp(s, a.value.0, ys);
        if b.Success? {
          RunOpsSplits(s, ops[1..], a.value.1, b.value.1);
        } else {
          RunOpsSplits(s, ops[1..], a.value.1, []);
        }
        RunTail(s, ops, xs, ys);
      }
    }
  }

  /** The operators left behind, one level down. */
  lemma RunTail(s: Setting, ops: seq<StreamOp>, xs: seq<ExecutionRow>, ys: seq<ExecutionRow>)
    requires Usable(ops) && ops != [] && s.limits.maxRows.None? && s.limits.maxBytes.None?
    ensures RunOps(s, ops, xs).Success? ==>
              var left := RunOps(s, ops, xs).value.0;
              && left[0] == RunOp(s, ops[0], xs).value.0
              && left[1..] == RunOps(s, ops[1..], RunOp(s, ops[0], xs).value.1).value.0
  {
    hide RunOp;
    if RunOps(s, ops, xs).Success? {
      var left := RunOps(s, ops, xs).value.0;
      var tail := RunOps(s, ops[1..], RunOp(s, ops[0], xs).value.1).value.0;
      assert left == [RunOp(s, ops[0], xs).value.0] + tail;
    }
  }

  /** No rows in, no rows out, nothing changed. */
  lemma {:induction false} RunOpsEmpty(s: Setting, ops: seq<StreamOp>)
    requires Usable(ops)
    ensures RunOps(s, ops, []) == Success((ops, []))
    decreases |ops|
  {
    if ops != [] {
      RunOpsEmpty(s, ops[1..]);
      assert [ops[0]] + ops[1..] == ops;
    }
  }

  /** Whatever operators give is within the limits, in rows and in bytes. */
  lemma {:induction false} RunWithinLimits(s: Setting, ops: seq<StreamOp>, rows: seq<ExecutionRow>)
    requires Usable(ops) && ops != [] && RunOps(s, ops, rows).Success?
    ensures s.limits.maxRows.Some? ==> |RunOps(s, ops, rows).value.1| <= s.limits.maxRows.value
    ensures s.limits.maxBytes.Some? ==>
              TotalSize(s.limits.size, RunOps(s, ops, rows).value.1) <= s.limits.maxBytes.value
    decreases |ops|
  {
    hide RunOp;
    if |ops| > 1 {
      RunWithinLimits(s, ops[1..], RunOp(s, ops[0], rows).value.1);
    }
  }

  /** What every operator gives fits the limits. */
  ghost predicate OutputsFit(s: Setting, ops: seq<StreamOp>, rows: seq<ExecutionRow>)
    requires Usable(ops)
    decreases |ops|
  {
    ops != [] && RunOp(s, ops[0], rows).Success? ==>
      var next := RunOp(s, ops[0], rows).value.1;
      && (s.limits.maxRows.Some? ==> |next| <= s.limits.maxRows.value)
      && (s.limits.maxBytes.Some? ==> TotalSize(s.limits.size, next) <= s.limits.maxBytes.value)
      && OutputsFit(s, ops[1..], next)
  }

  /** A limited run succeeds exactly when the unlimited run does and all its outputs fit. */
  lemma {:induction false} LimitsExactly(s: Setting, ops: seq<StreamOp>, rows: seq<ExecutionRow>)
    requires Usable(ops)
    ensures RunOps(s, ops, rows).Success? <==> RunOps(Unlimited(s), ops, rows).Success? && OutputsFit(s, ops, rows)
    decreases |ops|
  {
    hide RunOp;
    if ops != [] {
      RunOpUnlimited(s, ops[0], rows);
      var next := RunOp(s, ops[0], rows);
      if next.Success? {
        LimitsExactly(s, ops[1..], next.value.1);
      }
    }
  }

  /** Limits only refuse: what passes them is what an unlimited run gives. */
  lemma {:induction false} LimitsOnlyRefuse(s: Setting, ops: seq<StreamOp>, rows: seq<ExecutionRow>)
    requires Usable(ops)
    ensures RunOps(s, ops, rows).Success? ==> RunOps(Unlimited(s), ops, rows) == RunOps(s, ops, rows)
    decreases |ops|
  {
    hide RunOp;
    if ops != [] {
      RunOpUnlimited(s, ops[0], rows);
      var next := RunOp(s, ops[0], rows);
      if next.Success? {
        LimitsOnlyRefuse(s, ops[1..], next.value.1);
      }
    }
  }

  lemma {:induction false} RunOpUnlimited(s: Setting, op: StreamOp, rows: seq<ExecutionRow>)
    requires UsableOp(op)
    ensures RunOp(Unlimited(s), op, rows) == RunOp(s, op, rows)
    decreases |rows|
  {
    if rows != [] {
      StepOpUnlimited(s, op, rows[0]);
      hide StepOp;
      var step := StepOp(s, op, rows[0]);
      if step.Success? {
        RunOpUnlimited(s, step.value.0, rows[1..]);
      }
    }
  }

  lemma StepOpUnlimited(s: Setting, op: StreamOp, row: ExecutionRow)
    requires UsableOp(op)
    ensures StepOp(Unlimited(s), op, row) == StepOp(s, op, row)
  {
    match op
    case ProjectOp(projection) => StreamAllUnlimited(s, projection.expressions, row);
    case UnnestOp(element) =>
      if row.ValueRow? && row.datum.Val? && row.datum.value.ListV? {
        ElementsUnlimited(s, element, row.datum.value.items);
      }
    case _ =>
  }

  lemma {:induction false} StreamAllUnlimited(s: Setting, es: seq<Prepared>, row: ExecutionRow)
    requires forall i | 0 <= i < |es| :: WellFormed(es[i])
    ensures StreamAll(Unlimited(s), es, row) == StreamAll(s, es, row)
  {
    if es != [] {
      StreamAllUnlimited(s, es[1..], row);
    }
  }

  lemma {:induction false} ElementsUnlimited(s: Setting, element: TypeDef, items: seq<Datum>)
    ensures StreamElements(Unlimited(s), element, items) == StreamElements(s, element, items)
  {
    if items != [] {
      ElementsUnlimited(s, element, items[1..]);
    }
  }

  // ----- early stop -----

  predicate Exhausted(op: StreamOp) { op.SliceOp? && op.limitRemaining == Some(0) }

  predicate AnyExhausted(ops: seq<StreamOp>) {
    exists i | 0 <= i < |ops| :: Exhausted(ops[i])
  }

  lemma {:induction false} ExhaustedOp(s: Setting, op: StreamOp, rows: seq<ExecutionRow>)
    requires UsableOp(op) && Exhausted(op)
    ensures RunOp(s, op, rows).Success? && RunOp(s, op, rows).value.1 == []
    decreases |rows|
  {
    if rows != [] {
      ExhaustedOp(s, StepOp(s, op, rows[0]).value.0, rows[1..]);
    }
  }

  /** Once a slice is used up, no further row could contribute. */
  lemma {:induction false} ExhaustedGivesNothing(s: Setting, ops: seq<StreamOp>, rows: seq<ExecutionRow>)
    requires Usable(ops) && AnyExhausted(ops)
    ensures RunOps(s, ops, rows).Success? ==> RunOps(s, ops, rows).value.1 == []
    decreases |ops|
  {
    hide RunOp;
    var i :| 0 <= i < |ops| && Exhausted(ops[i]);
    if i == 0 {
      ExhaustedOp(s, ops[0], rows);
      RunOpsEmpty(s, ops[1..]);
    } else {
      assert Exhausted(ops[1..][i - 1]);
      var next := RunOp(s, ops[0], rows);
      if next.Success? {
        ExhaustedGivesNothing(s, ops[1..], next.value.1);
      }
    }
  }

  // ----- agreement with whole stages -----

  lemma SliceHead(rows: seq<ExecutionRow>, offset: nat, limit: Option<nat>)
    requires rows != []
    ensures SliceRows(rows, offset, limit) ==
            if offset > 0 then SliceRows(rows[1..], offset - 1, limit)
            else if limit == Some(0) then []
            else [rows[0]] + SliceRows(rows[1..], 0, if limit.Some? then Some(limit.value - 1) else None)
    ensures SliceRows(rows, 0, Some(0)) == []
  {
    assert Skip(rows, 0) == rows && Skip(rows[1..], 0) == rows[1..];
    if offset > 0 {
      assert Skip(rows, offset) == Skip(rows[1..], offset - 1);
    }
  }

  /** A slice operator run over all rows takes the slice of them. */
  lemma {:induction false} SliceOpTakes(s: Setting, offset: nat, limit: Option<nat>, rows: seq<ExecutionRow>)
    ensures var r := RunOp(s, SliceOp(offset, limit), rows);
            r.Success? && r.value.1 == SliceRows(rows, offset, limit)
    decreases |rows|
  {
    if rows != [] {
      var (op, first) := StepOp(s, SliceOp(offset, limit), rows[0]).value;
      SliceOpTakes(s, op.offsetRemaining, op.limitRemaining, rows[1..]);
      hide SliceRows;
      SliceHead(rows, offset, limit);
      assert [] + SliceRows(rows[1..], op.offsetRemaining, op.limitRemaining)
        == SliceRows(rows[1..], op.offsetRemaining, op.limitRemaining);
    }
  }

  /** The working row of the staged executor that a streamed row stands for. */
  function Staged(row: ExecutionRow): WorkingRow {
    WorkingRow(row, if row.ModelRow? then [Present(row.row)] else [])
  }

  function StagedRows(rows: seq<ExecutionRow>): (r: seq<WorkingRow>)
    ensures |r| == |rows| && forall i | 0 <= i < |rows| :: r[i] == Staged(rows[i])
  {
    seq(|rows|, i requires 0 <= i < |rows| => Staged(rows[i]))
  }

  /** Without existential nodes the resolver is never asked. */
  lemma {:induction false} ResolverUnused(rt: Runtime, resolver: nat -> Result<Truth>, nodes: seq<Node>, id: nat)
    requires Topological(nodes) && id < |nodes| && forall i | 0 <= i < |nodes| :: !nodes[i].kind.ExistsK?
    ensures EvalNode(rt.(exists_ := resolver), nodes, id) == EvalNode(rt, nodes, id)
    decreases id + 1, 0
  {
    hide EvalNodes;
    match nodes[id].kind
    case UnaryK(_, input) => ResolverUnused(rt, resolver, nodes, input);
    case BinaryK(_, left, right) =>
      ResolverUnused(rt, resolver, nodes, left);
      ResolverUnused(rt, resolver, nodes, right);
    case MembershipK(input, candidates, _) =>
      ResolverUnused(rt, resolver, nodes, input);
      ResolverUnusedAll(rt, resolver, nodes, candidates, id);
    case ConditionalK(condition, whenTrue, whenFalse) =>
      ResolverUnused(rt, resolver, nodes, condition);
      ResolverUnused(rt, resolver, nodes, whenTrue);
      ResolverUnused(rt, resolver, nodes, whenFalse);
    case CallK(_, arguments) => ResolverUnusedAll(rt, resolver, nodes, arguments, id);
    case _ =>
  }

  lemma {:induction false} ResolverUnusedAll(rt: Runtime, resolver: nat -> Result<Truth>, nodes: seq<Node>,
      ids: seq<nat>, bound: nat)
    requires Topological(nodes) && bound <= |nodes| && forall i | 0 <= i < |nodes| :: !nodes[i].kind.ExistsK?
    requires forall i | 0 <= i < |ids| :: ids[i] < bound
    ensures EvalNodes(rt.(exists_ := resolver), nodes, ids, bound) == EvalNodes(rt, nodes, ids, bound)
    decreases bound, |ids|
  {
    hide EvalNode;
    if ids != [] {
      ResolverUnused(rt, resolver, nodes, ids[0]);
      ResolverUnusedAll(rt, resolver, nodes, ids[1..], bound);
    }
  }

  /** Where the staged evaluation succeeds, the streamed one gives the same datum. */
  lemma ExprAgrees(inputs: Inputs, s: Setting, e: Prepared, row: ExecutionRow, resolver: Resolver)
    requires WellFormed(e) && NoExists(e) && s.host == inputs.host && s.parameters == inputs.parameters
    requires EvaluateExpr(inputs, e, Staged(row), [], resolver).Success?
    ensures StreamExpr(s, e, row) == EvaluateExpr(inputs, e, Staged(row), [], resolver)
  {
    hide EvalNode;
    var scopes := VisibleScopes([], Staged(row), e.outerScopes);
    assert scopes == Staged(row).scopes;
    var rt := RuntimeFor(inputs, scopes, resolver);
    var ctx := StreamContext(s, e, row).value;
    assert rt.ctx.records == ctx.records && rt.ctx.nullExtended == ctx.nullExtended;
    ResolverUnused(rt, NoResolver, e.nodes, e.root);
    assert rt.(exists_ := NoResolver) == Runtime(s.host, ctx, NoResolver);
  }

  lemma {:induction false} AllAgrees(inputs: Inputs, s: Setting, es: seq<Prepared>, row: ExecutionRow,
      resolver: Resolver)
    requires forall i | 0 <= i < |es| :: WellFormed(es[i]) && NoExists(es[i])
    requires s.host == inputs.host && s.parameters == inputs.parameters
    requires EvaluateAll(inputs, es, Staged(row), [], resolver).Success?
    ensures StreamAll(s, es, row) == EvaluateAll(inputs, es, Staged(row), [], resolver)
  {
    hide StreamExpr, EvaluateExpr;
    if es != [] {
      ExprAgrees(inputs, s, es[0], row, resolver);
      AllAgrees(inputs, s, es[1..], row, resolver);
    }
  }

  lemma {:induction false} ElementsAgree(s: Setting, element: TypeDef, items: seq<Datum>)
    requires Elements(element, items).Success?
    ensures StreamElements(s, element, items).Success?
    ensures StagedRows(StreamElements(s, element, items).value) == Elements(element, items).value
  {
    if items != [] {
      ElementsAgree(s, element, items[1..]);
    }
  }

  predicate Corresponds(op: StreamOp, node: LogicalNode) {
    match (op, node)
    case (FilterOp(c), Filter(_, d)) => c == d && NoExists(c)
    case (ProjectOp(p), Project(_, q)) =>
      p == q && forall i | 0 <= i < |p.expressions| :: NoExists(p.expressions[i])
    case (UnnestOp(e), Unnest(_, f)) => e == f
    case _ => false
  }

  lemma StepAgrees(inputs: Inputs, s: Setting, op: StreamOp, node: LogicalNode, row: ExecutionRow, resolver: Resolver)
    requires RowWise(node) && Corresponds(op, node) && UsableOp(op)
    requires s.host == inputs.host && s.parameters == inputs.parameters
    requires RowStage(inputs, node, Staged(row), [], resolver).Success?
    ensures var r := StepOp(s, op, row);
            r.Success? && r.value.0 == op
              && StagedRows(r.value.1) == RowStage(inputs, node, Staged(row), [], resolver).value
  {
    hide StreamExpr, EvaluateExpr;
    match op
    case FilterOp(condition) => ExprAgrees(inputs, s, condition, row, resolver);
    case ProjectOp(projection) => AllAgrees(inputs, s, projection.expressions, row, resolver);
    case UnnestOp(element) =>
      if row.datum.Val? {
        ElementsAgree(s, element, row.datum.value.items);
      }
  }

  /** An operator run over all rows is the whole stage. */
  lemma {:induction false} OpIsStage(inputs: Inputs, s: Setting, op: StreamOp, node: LogicalNode,
      rows: seq<ExecutionRow>, resolver: Resolver)
    requires RowWise(node) && Corresponds(op, node) && UsableOp(op)
    requires s.host == inputs.host && s.parameters == inputs.parameters
    requires RowStages(inputs, node, StagedRows(rows), [], resolver).Success?
    ensures var r := RunOp(s, op, rows);
            r.Success? && StagedRows(r.value.1) == RowStages(inputs, node, StagedRows(rows), [], resolver).value
    decreases |rows|
  {
    hide StepOp, RowStage, Corresponds;
    if rows != [] {
      assert StagedRows(rows)[1..] == StagedRows(rows[1..]);
      StepAgrees(inputs, s, op, node, rows[0], resolver);
      OpIsStage(inputs, s, op, node, rows[1..], resolver);
      var first := StepOp(s, op, rows[0]).value.1;
      var rest := RunOp(s, op, rows[1..]).value.1;
      assert StagedRows(first + rest) == StagedRows(first) + StagedRows(rest);
    }
  }
}
