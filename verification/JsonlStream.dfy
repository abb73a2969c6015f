/// The lazy pull stream over one bounded JSONL source: plan compilation, row-at-a-time
/// execution with early stop, and byte-bounded batches (`engines/jsonl/src/stream.rs`).

module JsonlPlan {
  import opened Results
  import opened Semantics
  import opened Models
  import opened Expressions
  import opened Plans
  import opened Streams
  import opened JsonlOperators

  /** The operator of a node, or why there is none. */
  function OpOf(node: LogicalNode): Result<StreamOp> {
    match node
    case Filter(_, condition) =>
      if NoExists(condition) then Success(FilterOp(condition)) else Failure("JSONL-UNSUPPORTED-001")
    case Project(_, projection) =>
      if forall i | 0 <= i < |projection.expressions| :: NoExists(projection.expressions[i])
      then Success(ProjectOp(projection)) else Failure("JSONL-UNSUPPORTED-001")
    case Unnest(_, element) => Success(UnnestOp(element))
    case Slice(_, offset, limit) => Success(SliceOp(offset, limit))
    case _ => Failure("JSONL-UNSUPPORTED-001")
  }

  /** Operators from the source up to a node, and the model at the source. */
  function OpsOf(plan: LogicalPlan, id: nat): (r: Result<(seq<StreamOp>, ModelDef)>)
    requires TopologicalPlan(plan) && id < |plan.nodes|
    ensures r.Success? ==> Usable(r.value.0)
  {
    var node := plan.nodes[id];
    assert ValidNode(node, id);
    if node.Source? then Success(([], node.model))
    else
      var op :- OpOf(node);
      assert Dependencies(node)[0] == node.input;
      assert UsableOp(op) by { NodeUsable(node, op); }
      var (ops, model) :- OpsOf(plan, node.input);
      Success((ops + [op], model))
  }

  lemma NodeUsable(node: LogicalNode, op: StreamOp)
    requires forall i | 0 <= i < |ExpressionsOf(node)| :: WellFormed(ExpressionsOf(node)[i])
    requires OpOf(node) == Success(op)
    ensures UsableOp(op)
  {
    if node.Filter? {
      assert ExpressionsOf(node)[0] == node.condition;
    } else if node.Project? {
      assert ExpressionsOf(node) == node.projection.expressions;
    }
  }

  /** A chain of filters, projections, unnestings and slices over one source, without existential tests. */
  predicate Streamable(plan: LogicalPlan, id: nat)
    requires TopologicalPlan(plan) && id < |plan.nodes|
  {
    var node := plan.nodes[id];
    assert ValidNode(node, id);
    match node
    case Source(_) => true
    case Distinct(_) => false
    case SetNode(_, _, _) => false
    case _ =>
      assert Dependencies(node)[0] == node.input;
      && (forall i | 0 <= i < |ExpressionsOf(node)| :: TestsNothing(ExpressionsOf(node)[i]))
      && Streamable(plan, node.input)
  }

  predicate TestsNothing(e: Prepared) {
    forall i | 0 <= i < |e.nodes| :: !e.nodes[i].kind.ExistsK?
  }

  /** The source at the bottom of such a chain. */
  function BottomOf(plan: LogicalPlan, id: nat): ModelDef
    requires TopologicalPlan(plan) && id < |plan.nodes| && Streamable(plan, id)
  {
    var node := plan.nodes[id];
    assert ValidNode(node, id);
    if node.Source? then node.model
    else
      assert Dependencies(node)[0] == node.input;
      BottomOf(plan, node.input)
  }

  /** Every streamable chain has operators, and no other plan has. */
  lemma {:induction false} StreamableExactly(plan: LogicalPlan, id: nat)
    requires TopologicalPlan(plan) && id < |plan.nodes|
    ensures OpsOf(plan, id).Success? <==> Streamable(plan, id)
    ensures OpsOf(plan, id).Success? ==> OpsOf(plan, id).value.1 == BottomOf(plan, id)
    decreases id
  {
    var node := plan.nodes[id];
    assert ValidNode(node, id);
    if !node.Source? && !node.SetNode? && !node.Distinct? {
      assert Dependencies(node)[0] == node.input;
      StreamableExactly(plan, node.input);
      if node.Filter? {
        assert ExpressionsOf(node)[0] == node.condition;
      } else if node.Project? {
        assert ExpressionsOf(node) == node.projection.expressions;
      }
    }
  }

  function Reverse(ops: seq<StreamOp>): (r: seq<StreamOp>)
    ensures |r| == |ops|
  {
    if ops == [] then [] else Reverse(ops[1..]) + [ops[0]]
  }

  lemma {:induction false} ReverseAppend(ops: seq<StreamOp>, op: StreamOp)
    ensures Reverse(ops + [op]) == [op] + Reverse(ops)
  {
    if ops != [] {
      assert (ops + [op])[1..] == ops[1..] + [op];
      ReverseAppend(ops[1..], op);
    } else {
      assert [op][1..] == [] && [] + [op] == [op];
    }
  }

  ghost predicate Walked(whole: Result<(seq<StreamOp>, ModelDef)>, below: Result<(seq<StreamOp>, ModelDef)>,
      above: seq<StreamOp>) {
    && (whole.Success? <==> below.Success?)
    && (whole.Success? ==> whole.value == (below.value.0 + above, below.value.1))
  }

  lemma WalkDown(whole: Result<(seq<StreamOp>, ModelDef)>, plan: LogicalPlan, id: nat, above: seq<StreamOp>)
    requires TopologicalPlan(plan) && id < |plan.nodes|
    requires Walked(whole, OpsOf(plan, id), above)
    ensures var node := plan.nodes[id];
            if node.Source? then whole == Success((above, node.model))
            else if OpOf(node).Failure? then whole.Failure?
            else node.input < id && Walked(whole, OpsOf(plan, node.input), [OpOf(node).value] + above)
  {
    var node := plan.nodes[id];
    assert ValidNode(node, id);
    if node.Source? {
      assert [] + above == above;
    } else if OpOf(node).Success? {
      assert Dependencies(node)[0] == node.input;
      var below := OpsOf(plan, node.input);
      if below.Success? {
        assert (below.value.0 + [OpOf(node).value]) + above == below.value.0 + ([OpOf(node).value] + above);
      }
    }
  }

  /** Walks from the root down to the source, collecting operators in reverse. */
  method CompilePlan(sources: map<string, ModelDef>, plan: LogicalPlan) returns (r: Result<(seq<StreamOp>, ModelDef)>)
    requires TopologicalPlan(plan)
    ensures r.Success? <==> plan.root < |plan.nodes| && OpsOf(plan, plan.root).Success?
                            && var model := OpsOf(plan, plan.root).value.1;
                               model.key in sources && sources[model.key] == model
    ensures r.Success? ==> r == OpsOf(plan, plan.root)
    ensures r.Success? <==>
              && plan.root < |plan.nodes| && Streamable(plan, plan.root)
              && BottomOf(plan, plan.root).key in sources
              && sources[BottomOf(plan, plan.root).key] == BottomOf(plan, plan.root)
  {
    if plan.root < |plan.nodes| {
      StreamableExactly(plan, plan.root);
    }
    hide Streamable, BottomOf;
    if plan.root >= |plan.nodes| {
      return Failure("JSONL-EXEC-002");
    }
    hide OpsOf, OpOf, Walked, Reverse;
    var current: nat := plan.root;
    var reversed: seq<StreamOp> := [];
    ghost var whole := OpsOf(plan, plan.root);
    assert Walked(whole, OpsOf(plan, current), Reverse(reversed)) by { WalkStart(whole); }
    while !plan.nodes[current].Source?
      invariant current < |plan.nodes|
      invariant Walked(whole, OpsOf(plan, current), Reverse(reversed))
      decreases current
    {
      var node := plan.nodes[current];
      WalkDown(whole, plan, current, Reverse(reversed));
      var op := OpOf(node);
      if op.Failure? {
        return Failure(op.code);
      }
      ReverseAppend(reversed, op.value);
      reversed := reversed + [op.value];
      current := node.input;
    }
    WalkDown(whole, plan, current, Reverse(reversed));
    var model := plan.nodes[current].model;
    if model.key !in sources {
      return Failure("JSONL-SOURCE-006");
    }
    if sources[model.key] != model {
      return Failure("JSONL-SOURCE-007");
    }
    return Success((Reverse(reversed), model));
  }

  lemma WalkStart(whole: Result<(seq<StreamOp>, ModelDef)>)
    ensures Walked(whole, whole, Reverse([]))
  {
    assert Reverse([]) == [];
    if whole.Success? {
      assert whole.value.0 + [] == whole.value.0;
    }
  }

  // ----- operators against the recursive meaning -----

  lemma {:induction false} RunOpsAppend(s: Setting, ops: seq<StreamOp>, op: StreamOp, rows: seq<ExecutionRow>)
    requires Usable(ops) && UsableOp(op) && s.limits.maxRows.None? && s.limits.maxBytes.None?
    requires RunOps(s, ops, rows).Success? && RunOp(s, op, RunOps(s, ops, rows).value.1).Success?
    ensures RunOps(s, ops + [op], rows).Success?
    ensures RunOps(s, ops + [op], rows).value.1 == RunOp(s, op, RunOps(s, ops, rows).value.1).value.1
    decreases |ops|
  {
    hide RunOp;
    if ops == [] {
      assert [] + [op] == [op];
      assert [op][1..] == [];
    } else {
      assert (ops + [op])[1..] == ops[1..] + [op];
      RunOpsAppend(s, ops[1..], op, RunOp(s, ops[0], rows).value.1);
    }
  }

  function ModelRows(rows: seq<Row>): (r: seq<ExecutionRow>)
    ensures |r| == |rows| && forall i | 0 <= i < |rows| :: r[i] == ModelRow(rows[i])
  {
    seq(|rows|, i requires 0 <= i < |rows| => ModelRow(rows[i]))
  }

  lemma SliceStaged(rows: seq<ExecutionRow>, offset: nat, limit: Option<nat>)
    ensures StagedRows(SliceRows(rows, offset, limit)) == SliceRows(StagedRows(rows), offset, limit)
  {
    assert StagedRows(Skip(rows, offset)) == Skip(StagedRows(rows), offset);
  }

  /** Running the operators of a plan over the table gives the recursive meaning of the plan. */
  lemma {:induction false} OpsAreStages(inputs: Inputs, s: Setting, id: nat, rows: seq<Row>)
    requires TopologicalPlan(inputs.plan) && id < |inputs.plan.nodes|
    requires OpsOf(inputs.plan, id).Success?
    requires s.host == inputs.host && s.parameters == inputs.parameters && s.limits.maxRows.None?
               && s.limits.maxBytes.None?
    requires var model := OpsOf(inputs.plan, id).value.1;
             model.key in inputs.tables && inputs.tables[model.key].rows == rows
    requires Meaning(inputs, id, [], 0).Success?
    ensures var run := RunOps(s, OpsOf(inputs.plan, id).value.0, ModelRows(rows));
            run.Success? && StagedRows(run.value.1) == Meaning(inputs, id, [], 0).value
  {
    hide RunOp, RowStages, SliceRows;
    var node := inputs.plan.nodes[id];
    assert ValidNode(node, id);
    if node.Source? {
      assert StagedRows(ModelRows(rows)) == AsWorkingRows(rows);
    } else {
      assert Dependencies(node)[0] == node.input;
      OpsAreStages(inputs, s, node.input, rows);
      var ops := OpsOf(inputs.plan, node.input).value.0;
      var op := OpOf(node).value;
      NodeUsable(node, op);
      var below := RunOps(s, ops, ModelRows(rows)).value.1;
      hide RunOps;
      if node.Slice? {
        SliceOpTakes(s, node.offset, node.limit, below);
        SliceStaged(below, node.offset, node.limit);
      } else {
        OpIsStage(inputs, s, op, node, below, ResolverAt(inputs, 0));
      }
      RunOpsAppend(s, ops, op, ModelRows(rows));
    }
  }
}

module JsonlStream {
  import opened Results
  import opened Semantics
  import opened Models
  import opened Expressions
  import opened Plans
  import opened LineReader
  import opened Streams
  import opened JsonlOperators
  import opened JsonlPlan

  const CR: Byte := 13

  /** What a stream is opened with; `decode` turns the bytes of one record into a model row. */
  datatype Config = Config(setting: Setting, decode: seq<Byte> -> Result<Row>, maxLineBytes: nat, maxScannedRows: nat,
                           batchRows: nat)

  function DecodeLine(c: Config, line: seq<Byte>): Result<Row> {
    var content := if line != [] && line[|line| - 1] == CR then line[..|line| - 1] else line;
    if content == [] then Failure("JSONL-DECODE-002") else c.decode(content)
  }

  /** The rows a stream still produces, by recursion on the records it has not read. */
  function StreamRows(c: Config, ops: seq<StreamOp>, lines: seq<seq<Byte>>, scanned: nat): Result<seq<ExecutionRow>>
    requires Usable(ops)
    decreases |lines|
  {
    if AnyExhausted(ops) || lines == [] then Success([])
    else if |lines[0]| > c.maxLineBytes then Failure("JSONL-LIMIT-002")
    else if scanned + 1 > c.maxScannedRows then Failure("JSONL-LIMIT-003")
    else
      var row :- DecodeLine(c, lines[0]);
      if !Within(c.setting.limits, [ModelRow(row)]) then Failure("ENGINE-LIMIT")
      else
        var (ops', out) :- RunOps(c.setting, ops, [ModelRow(row)]);
        var rest :- StreamRows(c, ops', lines[1..], scanned + 1);
        Success(out + rest)
  }

  function DecodeAll(c: Config, lines: seq<seq<Byte>>): (r: Result<seq<Row>>)
    ensures r.Success? ==> |r.value| == |lines|
  {
    if lines == [] then Success([])
    else
      var row :- DecodeLine(c, lines[0]);
      var rest :- DecodeAll(c, lines[1..]);
      Success([row] + rest)
  }

  // ----- streaming refines staging -----

  /** One row at a time with early stop gives what all rows at once give; the rows never read add nothing. */
  lemma {:induction false} StreamingIsStaging(c: Config, ops: seq<StreamOp>, lines: seq<seq<Byte>>, scanned: nat,
      rows: seq<Row>)
    requires Usable(ops)
    requires DecodeAll(c, lines) == Success(rows)
    requires RunOps(Unlimited(c.setting), ops, ModelRows(rows)).Success?
    requires StreamRows(c, ops, lines, scanned).Success?
    ensures StreamRows(c, ops, lines, scanned).value == RunOps(Unlimited(c.setting), ops, ModelRows(rows)).value.1
    decreases |lines|
  {
    hide RunOps, DecodeLine, AnyExhausted, Within;
    var u := Unlimited(c.setting);
    if AnyExhausted(ops) {
      ExhaustedGivesNothing(u, ops, ModelRows(rows));
    } else if lines == [] {
      assert ModelRows(rows) == [];
      RunOpsEmpty(u, ops);
    } else {
      RowsSplit(u, ops, rows);
      LimitsOnlyRefuse(c.setting, ops, [ModelRow(rows[0])]);
      StreamingIsStaging(c, RunOps(u, ops, [ModelRow(rows[0])]).value.0, lines[1..], scanned + 1, rows[1..]);
    }
  }

  /** The first row through the operators, then the others through what it leaves of them. */
  lemma RowsSplit(u: Setting, ops: seq<StreamOp>, rows: seq<Row>)
    requires Usable(ops) && u == Unlimited(u) && rows != []
    requires RunOps(u, ops, ModelRows(rows)).Success?
    ensures var first := RunOps(u, ops, [ModelRow(rows[0])]);
            && first.Success?
            && var rest := RunOps(u, first.value.0, ModelRows(rows[1..]));
               rest.Success? && RunOps(u, ops, ModelRows(rows)).value.1 == first.value.1 + rest.value.1
  {
    hide RunOps;
    assert ModelRows(rows) == [ModelRow(rows[0])] + ModelRows(rows[1..]);
    RunOpsSplits(u, ops, [ModelRow(rows[0])], ModelRows(rows[1..]));
  }

  /** Without limits, and with records and counts in bounds, a stream succeeds whenever staging does. */
  lemma {:induction false} StreamingSucceeds(c: Config, ops: seq<StreamOp>, lines: seq<seq<Byte>>, scanned: nat,
      rows: seq<Row>)
    requires Usable(ops)
    requires DecodeAll(c, lines) == Success(rows)
    requires RunOps(c.setting, ops, ModelRows(rows)).Success?
    requires c.setting == Unlimited(c.setting) && scanned + |lines| <= c.maxScannedRows
    requires forall i | 0 <= i < |lines| :: |lines[i]| <= c.maxLineBytes
    ensures StreamRows(c, ops, lines, scanned).Success?
    decreases |lines|
  {
    hide RunOps, DecodeLine, AnyExhausted;
    if !AnyExhausted(ops) && lines != [] {
      RowsSplit(c.setting, ops, rows);
      StreamingSucceeds(c, RunOps(c.setting, ops, [ModelRow(rows[0])]).value.0, lines[1..], scanned + 1, rows[1..]);
    }
  }

  // ----- how far a stream reads -----

  /** A slice that may let no further row through. */
  lemma StreamStops(c: Config, ops: seq<StreamOp>, lines: seq<seq<Byte>>, scanned: nat)
    requires Usable(ops)
    requires exists i | 0 <= i < |ops| :: ops[i].SliceOp? && ops[i].limitRemaining == Some(0)
    ensures StreamRows(c, ops, lines, scanned) == Success([])
  {
    var i :| 0 <= i < |ops| && ops[i].SliceOp? && ops[i].limitRemaining == Some(0);
    assert Exhausted(ops[i]);
  }

  /** After the first `k` records, run all at once, nothing more is to be read. */
  ghost predicate Suffices(c: Config, ops: seq<StreamOp>, lines: seq<seq<Byte>>, k: nat, out: seq<ExecutionRow>)
    requires Usable(ops)
  {
    && k <= |lines| && DecodeAll(c, lines[..k]).Success?
    && var run := RunOps(Unlimited(c.setting), ops, ModelRows(DecodeAll(c, lines[..k]).value));
    && run.Success? && run.value.1 == out
    && (k == |lines| || UsedUp(run.value.0))
  }

  predicate UsedUp(ops: seq<StreamOp>) {
    exists i | 0 <= i < |ops| :: ops[i].SliceOp? && ops[i].limitRemaining == Some(0)
  }

  ghost predicate InBounds(c: Config, lines: seq<seq<Byte>>, k: nat, scanned: nat)
    requires k <= |lines|
  {
    (k > 0 ==> scanned + k <= c.maxScannedRows) && forall i | 0 <= i < k :: |lines[i]| <= c.maxLineBytes
  }

  lemma UsedUpExhausted(ops: seq<StreamOp>)
    ensures UsedUp(ops) <==> AnyExhausted(ops)
  {
    if UsedUp(ops) {
      var i :| 0 <= i < |ops| && ops[i].SliceOp? && ops[i].limitRemaining == Some(0);
      assert Exhausted(ops[i]);
    }
    if AnyExhausted(ops) {
      var i :| 0 <= i < |ops| && Exhausted(ops[i]);
      assert ops[i].SliceOp? && ops[i].limitRemaining == Some(0);
    }
  }

  lemma NoRecords(c: Config, ops: seq<StreamOp>, lines: seq<seq<Byte>>)
    requires Usable(ops) && (lines == [] || UsedUp(ops))
    ensures Suffices(c, ops, lines, 0, [])
  {
    hide RunOps, UsedUp;
    RunOpsEmpty(Unlimited(c.setting), ops);
    assert lines[..0] == [] && ModelRows([]) == [];
  }

  lemma OneMoreRecord(c: Config, ops: seq<StreamOp>, lines: seq<seq<Byte>>, k: nat, row: Row,
      first: seq<ExecutionRow>, rest: seq<ExecutionRow>)
    requires Usable(ops) && lines != [] && DecodeLine(c, lines[0]) == Success(row)
    requires var run := RunOps(Unlimited(c.setting), ops, [ModelRow(row)]);
             run.Success? && run.value.1 == first && Suffices(c, run.value.0, lines[1..], k, rest)
    ensures Suffices(c, ops, lines, k + 1, first + rest)
  {
    hide RunOps, UsedUp, DecodeLine;
    var u := Unlimited(c.setting);
    assert lines[..k + 1][1..] == lines[1..][..k];
    var rows := DecodeAll(c, lines[1..][..k]).value;
    assert DecodeAll(c, lines[..k + 1]) == Success([row] + rows);
    assert ModelRows([row] + rows) == [ModelRow(row)] + ModelRows(rows);
    RunOpsSplits(u, ops, [ModelRow(row)], ModelRows(rows));
  }

  /** An error-free stream reads some first records, all within bounds, and gives what they give at once. */
  lemma {:induction false} StreamReads(c: Config, ops: seq<StreamOp>, lines: seq<seq<Byte>>, scanned: nat)
    returns (k: nat)
    requires Usable(ops) && StreamRows(c, ops, lines, scanned).Success?
    ensures k <= |lines| && InBounds(c, lines, k, scanned)
    ensures Suffices(c, ops, lines, k, StreamRows(c, ops, lines, scanned).value)
    decreases |lines|
  {
    hide RunOps, DecodeLine, Within, Suffices;
    UsedUpExhausted(ops);
    hide AnyExhausted, UsedUp;
    if AnyExhausted(ops) || lines == [] {
      NoRecords(c, ops, lines);
      return 0;
    }
    var row := DecodeLine(c, lines[0]).value;
    LimitsOnlyRefuse(c.setting, ops, [ModelRow(row)]);
    var (ops', out) := RunOps(c.setting, ops, [ModelRow(row)]).value;
    var n := StreamReads(c, ops', lines[1..], scanned + 1);
    OneMoreRecord(c, ops, lines, n, row, out, StreamRows(c, ops', lines[1..], scanned + 1).value);
    forall i | 0 <= i < n + 1 ensures |lines[i]| <= c.maxLineBytes {
      if i > 0 { assert lines[i] == lines[1..][i - 1]; }
    }
    return n + 1;
  }

  lemma FirstOfRecords(c: Config, ops: seq<StreamOp>, lines: seq<seq<Byte>>, k: nat, out: seq<ExecutionRow>)
    requires Usable(ops) && 0 < k && Suffices(c, ops, lines, k, out)
    ensures DecodeLine(c, lines[0]).Success?
    ensures var run := RunOps(Unlimited(c.setting), ops, [ModelRow(DecodeLine(c, lines[0]).value)]);
            && run.Success? && run.value.1 <= out
            && Suffices(c, run.value.0, lines[1..], k - 1, out[|run.value.1|..])
  {
    hide RunOps, UsedUp, DecodeLine;
    var u := Unlimited(c.setting);
    assert lines[..k][1..] == lines[1..][..k - 1] && lines[..k][0] == lines[0];
    var rows := DecodeAll(c, lines[..k]).value;
    assert rows == [rows[0]] + rows[1..];
    RowsSplit(u, ops, rows);
    assert ModelRows(rows) == [ModelRow(rows[0])] + ModelRows(rows[1..]);
    RunOpsSplits(u, ops, [ModelRow(rows[0])], ModelRows(rows[1..]));
  }

  /** Without limits, records in bounds that suffice are all a stream needs: what follows them is never read. */
  lemma {:induction false} StreamNeedsNoMore(c: Config, ops: seq<StreamOp>, lines: seq<seq<Byte>>, scanned: nat, k: nat,
      out: seq<ExecutionRow>)
    requires Usable(ops) && c.setting == Unlimited(c.setting)
    requires Suffices(c, ops, lines, k, out) && InBounds(c, lines, k, scanned)
    ensures StreamRows(c, ops, lines, scanned) == Success(out)
    decreases |lines|
  {
    UsedUpExhausted(ops);
    if AnyExhausted(ops) {
      ExhaustedGivesNothing(c.setting, ops, ModelRows(DecodeAll(c, lines[..k]).value));
    } else if k == 0 {
      assert lines[..0] == [] && ModelRows([]) == [];
      RunOpsEmpty(c.setting, ops);
    } else {
      FirstOfRecords(c, ops, lines, k, out);
      hide RunOps, DecodeLine, AnyExhausted, UsedUp, Suffices;
      var run := RunOps(c.setting, ops, [ModelRow(DecodeLine(c, lines[0]).value)]).value;
      StreamNeedsNoMore(c, run.0, lines[1..], scanned + 1, k - 1, out[|run.1|..]);
      assert out == run.1 + out[|run.1|..];
    }
  }

  /** Lines ended by a carriage return and a feed are read like lines ended by a feed; empty lines are refused. */
  lemma LineEndings(c: Config, line: seq<Byte>)
    ensures DecodeLine(c, []).Failure? && DecodeLine(c, [CR]).Failure?
    ensures line != [] && line[|line| - 1] != CR ==>
              DecodeLine(c, line) == c.decode(line) == DecodeLine(c, line + [CR])
  {
    assert (line + [CR])[..|line|] == line;
    assert [CR][..0] == [];
  }

  /**
   * For every streamable plan and every file: an error-free stream yields exactly the rows the
   * staged executor gives over the whole file, and without limits it is error-free whenever the
   * staged executor is.
   */
  lemma StreamRefinesMemory(inputs: Inputs, c: Config, bytes: seq<Byte>)
    requires TopologicalPlan(inputs.plan) && inputs.plan.root < |inputs.plan.nodes|
    requires OpsOf(inputs.plan, inputs.plan.root).Success?
    requires c.setting.host == inputs.host && c.setting.parameters == inputs.parameters
    requires DecodeAll(c, Lines(bytes)).Success?
    requires var model := OpsOf(inputs.plan, inputs.plan.root).value.1;
             model.key in inputs.tables && inputs.tables[model.key].rows == DecodeAll(c, Lines(bytes)).value
    requires Meaning(inputs, inputs.plan.root, [], 0).Success?
    ensures var stream := StreamRows(c, OpsOf(inputs.plan, inputs.plan.root).value.0, Lines(bytes), 0);
            && (stream.Success? ==> stream.value == Outputs(Meaning(inputs, inputs.plan.root, [], 0).value))
            && ((c.setting == Unlimited(c.setting)
                 && (forall line | line in Lines(bytes) :: |line| <= c.maxLineBytes)
                 && |Lines(bytes)| <= c.maxScannedRows)
                ==> stream.Success?)
  {
    hide Lines, RunOps, Meaning, StreamRows;
    var rows := DecodeAll(c, Lines(bytes)).value;
    var ops := OpsOf(inputs.plan, inputs.plan.root).value.0;
    OpsAreStages(inputs, Unlimited(c.setting), inputs.plan.root, rows);
    if StreamRows(c, ops, Lines(bytes), 0).Success? {
      StreamingIsStaging(c, ops, Lines(bytes), 0, rows);
    }
    if c.setting == Unlimited(c.setting) && (forall line | line in Lines(bytes) :: |line| <= c.maxLineBytes)
       && |Lines(bytes)| <= c.maxScannedRows {
      StreamingSucceeds(c, ops, Lines(bytes), 0, rows);
    }
    var run := RunOps(Unlimited(c.setting), ops, ModelRows(rows)).value.1;
    assert Outputs(StagedRows(run)) == run;
  }

  // ----- applying operators in place -----

  /** `pushed` is on top of `output`, and the elements from here on are still to be pushed. */
  ghost predicate Pushing(all: Result<seq<ExecutionRow>>, output: seq<ExecutionRow>, pushed: seq<ExecutionRow>,
      rest: Result<seq<ExecutionRow>>) {
    && (all.Success? <==> rest.Success?)
    && (all.Success? ==> output + all.value == pushed + rest.value)
  }

  lemma PushingEnds(s: Setting, element: TypeDef, items: seq<Datum>, all: Result<seq<ExecutionRow>>,
      output: seq<ExecutionRow>, pushed: seq<ExecutionRow>)
    ensures var whole := StreamElements(s, element, items);
            Pushing(whole, output, output, StreamElements(s, element, items[0..]))
    ensures Pushing(all, output, pushed, StreamElements(s, element, items[|items|..])) ==>
              all.Success? && pushed == output + all.value
  {
    assert items[0..] == items && items[|items|..] == [] && pushed + [] == pushed;
  }

  lemma PushingStep(s: Setting, element: TypeDef, items: seq<Datum>, i: nat, all: Result<seq<ExecutionRow>>,
      output: seq<ExecutionRow>, pushed: seq<ExecutionRow>)
    requires i < |items| && Pushing(all, output, pushed, StreamElements(s, element, items[i..]))
    ensures if !ValidDatum(element, Required, items[i]) then all.Failure?
            else
              var next := pushed + [ValueRow(items[i])];
              && Pushing(all, output, next, StreamElements(s, element, items[i + 1..]))
              && (!Within(s.limits, next) && all.Success? ==> !Within(s.limits, output + all.value))
  {
    hide ValidDatum, Within;
    assert items[i..][1..] == items[i + 1..];
    if ValidDatum(element, Required, items[i]) && all.Success? {
      var next, rest := pushed + [ValueRow(items[i])], StreamElements(s, element, items[i + 1..]).value;
      assert pushed + ([ValueRow(items[i])] + rest) == next + rest;
      if Within(s.limits, next + rest) { WithinPrefix(s.limits, next, rest); }
    }
  }

  /** Unnesting checks the limits at every element it pushes. */
  method PushElements(s: Setting, element: TypeDef, items: seq<Datum>,
      output: seq<ExecutionRow>) returns (r: Result<seq<ExecutionRow>>)
    ensures r.Success? ==>
              StreamElements(s, element, items).Success? && r.value == output + StreamElements(s, element, items).value
    ensures r.Failure? ==> StreamElements(s, element, items).Failure?
                           || !Within(s.limits, output + StreamElements(s, element, items).value)
  {
    hide Within, StreamElements, Pushing;
    var pushed := output;
    ghost var all := StreamElements(s, element, items);
    PushingEnds(s, element, items, all, output, pushed);
    for i := 0 to |items|
      invariant Pushing(all, output, pushed, StreamElements(s, element, items[i..]))
    {
      PushingStep(s, element, items, i, all, output, pushed);
      if !ValidDatum(element, Required, items[i]) {
        return Failure("RUNTIME");
      }
      pushed := pushed + [ValueRow(items[i])];
      if !Within(s.limits, pushed) {
        return Failure("ENGINE-LIMIT");
      }
    }
    PushingEnds(s, element, items, all, output, pushed);
    return Success(pushed);
  }

  /** One row through one operator, pushing onto `output`. */
  method ApplyOp(s: Setting, op: StreamOp, row: ExecutionRow, output: seq<ExecutionRow>)
    returns (r: Result<seq<ExecutionRow>>, op': StreamOp)
    requires UsableOp(op)
    ensures UsableOp(op')
    ensures r.Success? ==>
              && StepOp(s, op, row).Success? && StepOp(s, op, row).value.0 == op'
              && r.value == output + StepOp(s, op, row).value.1
    ensures r.Failure? ==> StepOp(s, op, row).Failure? || !Within(s.limits, output + StepOp(s, op, row).value.1)
  {
    op' := op;
    match op {
      case UnnestOp(element) =>
        match row {
          case ModelRow(_) =>
            return Failure("JSONL-UNNEST-001"), op';
          case ValueRow(Val(ListV(items))) =>
            r := PushElements(s, element, items, output);
          case ValueRow(Val(_)) =>
            return Failure("JSONL-UNNEST-002"), op';
          case ValueRow(_) =>
            assert output + [] == output;
            return Success(output), op';
        }
      case SliceOp(offsetRemaining, limitRemaining) =>
        if offsetRemaining > 0 {
          op' := SliceOp(offsetRemaining - 1, limitRemaining);
          assert output + [] == output;
          return Success(output), op';
        }
        match limitRemaining {
          case Some(remaining) =>
            if remaining == 0 {
              assert output + [] == output;
              return Success(output), op';
            }
            op' := SliceOp(0, Some(remaining - 1));
            return Success(output + [row]), op';
          case None =>
            return Success(output + [row]), op';
        }
      case _ =>
        var step := StepOp(s, op, row);
        if step.Failure? {
          return Failure(step.code), op';
        }
        return Success(output + step.value.1), op';
    }
  }

  ghost predicate OpPending(whole: Result<(StreamOp, seq<ExecutionRow>)>, next: seq<ExecutionRow>,
      rest: Result<(StreamOp, seq<ExecutionRow>)>) {
    && (whole.Success? <==> rest.Success?)
    && (whole.Success? ==> whole.value == (rest.value.0, next + rest.value.1))
  }

  lemma OpPendingStep(whole: Result<(StreamOp, seq<ExecutionRow>)>, next: seq<ExecutionRow>, s: Setting, op: StreamOp,
      rows: seq<ExecutionRow>, i: nat)
    requires UsableOp(op) && i < |rows| && OpPending(whole, next, RunOp(s, op, rows[i..]))
    ensures var step := StepOp(s, op, rows[i]);
            if step.Failure? then whole.Failure?
            else
              && OpPending(whole, next + step.value.1, RunOp(s, step.value.0, rows[i + 1..]))
              && (whole.Success? && Within(s.limits, whole.value.1) ==> Within(s.limits, next + step.value.1))
  {
    hide StepOp, Within;
    assert rows[i..][1..] == rows[i + 1..];
    var step := StepOp(s, op, rows[i]);
    if step.Success? && whole.Success? {
      var rest := RunOp(s, step.value.0, rows[i + 1..]).value.1;
      assert next + (step.value.1 + rest) == (next + step.value.1) + rest;
      if Within(s.limits, whole.value.1) { WithinPrefix(s.limits, next + step.value.1, rest); }
    }
  }

  lemma OpPendingEnds(s: Setting, op: StreamOp, rows: seq<ExecutionRow>, whole: Result<(StreamOp, seq<ExecutionRow>)>,
      next: seq<ExecutionRow>)
    requires UsableOp(op)
    ensures OpPending(RunOp(s, op, rows), [], RunOp(s, op, rows[0..]))
    ensures OpPending(whole, next, RunOp(s, op, rows[|rows|..])) ==> whole == Success((op, next))
  {
    assert rows[0..] == rows && rows[|rows|..] == [] && next + [] == next;
    var run := RunOp(s, op, rows);
    assert run.Success? ==> [] + run.value.1 == run.value.1;
  }

  /** All rows through one operator, then the limit check. */
  method ApplyRows(s: Setting, op: StreamOp, rows: seq<ExecutionRow>) returns (r: Result<seq<ExecutionRow>>,
      op': StreamOp)
    requires UsableOp(op)
    ensures UsableOp(op')
    ensures r.Success? <==> RunOp(s, op, rows).Success? && Within(s.limits, RunOp(s, op, rows).value.1)
    ensures r.Success? ==> RunOp(s, op, rows) == Success((op', r.value))
  {
    hide RunOp, StepOp, OpPending, Within;
    op' := op;
    var next: seq<ExecutionRow> := [];
    ghost var whole := RunOp(s, op, rows);
    OpPendingEnds(s, op, rows, whole, next);
    for i := 0 to |rows|
      invariant UsableOp(op') && OpPending(whole, next, RunOp(s, op', rows[i..]))
    {
      OpPendingStep(whole, next, s, op', rows, i);
      var pushed;
      pushed, op' := ApplyOp(s, op', rows[i], next);
      if pushed.Failure? {
        return pushed, op';
      }
      next := pushed.value;
    }
    OpPendingEnds(s, op', rows, whole, next);
    if !Within(s.limits, next) {
      return Failure("ENGINE-LIMIT"), op';
    }
    return Success(next), op';
  }

  ghost predicate OpsPending(whole: Result<(seq<StreamOp>, seq<ExecutionRow>)>, done: seq<StreamOp>,
      rest: Result<(seq<StreamOp>, seq<ExecutionRow>)>) {
    && (whole.Success? <==> rest.Success?)
    && (whole.Success? ==> whole.value == (done + rest.value.0, rest.value.1))
  }

  lemma OpsPendingStep(whole: Result<(seq<StreamOp>, seq<ExecutionRow>)>, done: seq<StreamOp>, s: Setting,
      ops: seq<StreamOp>, i: nat, rows: seq<ExecutionRow>)
    requires Usable(ops) && i < |ops| && OpsPending(whole, done, RunOps(s, ops[i..], rows))
    ensures var step := RunOp(s, ops[i], rows);
            if step.Failure? || !Within(s.limits, step.value.1) then whole.Failure?
            else OpsPending(whole, done + [step.value.0], RunOps(s, ops[i + 1..], step.value.1))
  {
    hide RunOp, Within;
    assert ops[i..][1..] == ops[i + 1..];
    var step := RunOp(s, ops[i], rows);
    if step.Success? && whole.Success? {
      var rest := RunOps(s, ops[i + 1..], step.value.1).value.0;
      assert done + ([step.value.0] + rest) == (done + [step.value.0]) + rest;
    }
  }

  lemma OpsPendingEnds(s: Setting, ops: seq<StreamOp>, i: nat, whole: Result<(seq<StreamOp>, seq<ExecutionRow>)>,
      done: seq<StreamOp>, rows: seq<ExecutionRow>)
    requires Usable(ops) && i <= |ops|
    ensures OpsPending(RunOps(s, ops, rows), [], RunOps(s, ops[0..], rows))
    ensures rows == [] || i == |ops| ==> OpsPending(whole, done, RunOps(s, ops[i..], rows)) ==>
              whole == Success((done + ops[i..], rows))
  {
    assert ops[0..] == ops;
    var run := RunOps(s, ops, rows);
    assert run.Success? ==> [] + run.value.0 == run.value.0;
    if rows == [] {
      RunOpsEmpty(s, ops[i..]);
    } else if i == |ops| {
      assert ops[i..] == [];
    }
  }

  // ----- the stream -----

  class Stream {
    const config: Config
    const reader: ChunkReader
    var ops: seq<StreamOp>
    var pending: seq<ExecutionRow>
    var scannedRows: nat
    var done: bool
    var cancelled: bool

    ghost predicate Valid()
      reads this, reader
    {
      && reader.Valid()
      && Usable(ops)
      && config.batchRows > 0
      && (done ==> Upcoming() == Success([]))
    }

    /** What reading on would produce. */
    ghost function Upcoming(): Result<seq<ExecutionRow>>
      requires Usable(ops)
      reads this, reader
    {
      StreamRows(config, ops, Lines(reader.Rest()), scannedRows)
    }

    /** What the caller can still receive. */
    ghost function Future(): Result<seq<ExecutionRow>>
      requires Usable(ops)
      reads this, reader
    {
      if cancelled then Success([]) else After(pending, Upcoming())
    }

    constructor (config: Config, ops: seq<StreamOp>, reader: ChunkReader)
      requires reader.Valid() && Usable(ops) && config.batchRows > 0
      ensures Valid() && this.config == config && this.reader == reader
      ensures SameOutcome(Future(), StreamRows(config, ops, Lines(reader.Rest()), 0))
    {
      this.config := config;
      this.reader := reader;
      this.ops := ops;
      pending := [];
      scannedRows := 0;
      done := false;
      cancelled := false;
      new;
      assert Upcoming().Success? ==> [] + Upcoming().value == Upcoming().value;
    }

    /** One source row through all operators, whose counters change in place. */
    method ApplyOps(initial: ExecutionRow) returns (r: Result<seq<ExecutionRow>>)
      requires Usable(ops)
      modifies this`ops
      ensures Usable(ops)
      ensures r.Success? <==>
                Within(config.setting.limits, [initial]) && RunOps(config.setting, old(ops), [initial]).Success?
      ensures r.Success? ==> RunOps(config.setting, old(ops), [initial]) == Success((ops, r.value))
    {
      hide RunOps, RunOp, OpsPending, Within;
      var rows := [initial];
      if !Within(config.setting.limits, rows) {
        return Failure("ENGINE-LIMIT");
      }
      ghost var before := ops;
      ghost var whole := RunOps(config.setting, before, rows);
      OpsPendingEnds(config.setting, before, 0, whole, [], rows);
      for i := 0 to |ops|
        invariant |ops| == |before| && Usable(ops) && ops[i..] == before[i..]
        invariant i > 0 ==> rows != []
        invariant OpsPending(whole, ops[..i], RunOps(config.setting, before[i..], rows))
      {
        OpsPendingStep(whole, ops[..i], config.setting, before, i, rows);
        assert ops[i] == ops[i..][0] == before[i..][0] == before[i];
        var next, op := ApplyRows(config.setting, ops[i], rows);
        if next.Failure? {
          return next;
        }
        ghost var left := ops[..i] + [op];
        ops := ops[i := op];
        assert ops[..i + 1] == left;
        assert ops[i + 1..] == before[i + 1..];
        rows := next.value;
        if rows == [] {
          OpsPendingEnds(config.setting, before, i + 1, whole, ops[..i + 1], rows);
          assert ops[..i + 1] + ops[i + 1..] == ops;
          return Success(rows);
        }
      }
      OpsPendingEnds(config.setting, before, |before|, whole, ops[..|ops|], rows);
      assert ops[..|ops|] + before[|before|..] == ops;
      return Success(rows);
    }

    /** One turn of the reading loop: the end is noticed, or one record goes through the operators. */
    method PullRow() returns (r: Result<()>)
      requires Valid() && !cancelled && pending == [] && !done
      modifies this, reader
      ensures Valid() && !cancelled
      ensures r.Success? ==> SameOutcome(Future(), old(Future()))
      ensures r.Failure? ==> old(Future()).Failure?
      ensures r.Success? && done ==> pending == [] && reader.Rest() == old(reader.Rest())
      ensures (exists i | 0 <= i < |old(ops)| :: old(ops)[i].SliceOp? && old(ops)[i].limitRemaining == Some(0)) ==>
                r.Success? && done
      ensures r.Success? && !done ==> |reader.Rest()| < |old(reader.Rest())|
    {
      UsedUpExhausted(ops);
      hide RunOps, Lines, Within, DecodeLine, AnyExhausted;
      ghost var rest := reader.Rest();
      ghost var upcoming := Upcoming();
      NoPending(upcoming);
      if AnyExhausted(ops) {
        done := true;
        NoPending(Upcoming());
        return Success(());
      }
      var found, line := reader.ReadBoundedLine(config.maxLineBytes);
      LinesStep(rest);
      if found.Failure? {
        return Failure(found.code);
      }
      if !found.value {
        done := true;
        NoPending(Upcoming());
        return Success(());
      }
      scannedRows := scannedRows + 1;
      if scannedRows > config.maxScannedRows {
        return Failure("JSONL-LIMIT-003");
      }
      var row := DecodeLine(config, line);
      if row.Failure? {
        return Failure(row.code);
      }
      assert Lines(rest)[1..] == Lines(reader.Rest());
      var produced := ApplyOps(ModelRow(row.value));
      if produced.Failure? {
        return Failure(produced.code);
      }
      pending := produced.value;
      return Success(());
    }

    /** Reads records until a row is pending or nothing more can come; a used-up slice stops it without reading. */
    method FillPending() returns (r: Result<()>)
      requires Valid() && !cancelled
      modifies this, reader
      ensures Valid() && !cancelled
      ensures r.Success? ==> SameOutcome(Future(), old(Future())) && (pending == [] ==> done)
      ensures r.Failure? ==> old(Future()).Failure?
      ensures r.Success? ==>
                || |reader.Rest()| < |old(reader.Rest())|
                || (reader.Rest() == old(reader.Rest()) && pending == old(pending))
      ensures old(pending) == []
              && (exists i | 0 <= i < |old(ops)| :: old(ops)[i].SliceOp? && old(ops)[i].limitRemaining == Some(0)) ==>
                r.Success? && done && pending == [] && reader.Rest() == old(reader.Rest())
    {
      hide StreamRows;
      ghost var stops := UsedUp(ops);
      ghost var future := Future();
      while pending == [] && !done
        invariant Valid() && !cancelled
        invariant SameOutcome(Future(), future)
        invariant |reader.Rest()| < |old(reader.Rest())|
                    || (reader.Rest() == old(reader.Rest()) && pending == old(pending))
        invariant old(pending) == [] && stops ==>
                    pending == [] && reader.Rest() == old(reader.Rest()) && (done || ops == old(ops))
        decreases !done, |reader.Rest()|
      {
        var pulled := PullRow();
        if pulled.Failure? {
          return pulled;
        }
      }
      return Success(());
    }

    /** Rows a batch may hold: the batch size, or the materialized-row limit if that is smaller, but at least one. */
    function TargetRows(): (n: nat)
      reads this
      ensures config.batchRows > 0 ==> n > 0
      ensures n <= config.batchRows
      ensures config.setting.limits.maxRows.Some? ==> n <= config.setting.limits.maxRows.value || n == 1
      ensures n < config.batchRows ==>
                config.setting.limits.maxRows == Some(n) || (config.setting.limits.maxRows == Some(0) && n == 1)
    {
      var limit := config.setting.limits.maxRows;
      if limit.None? || limit.value >= config.batchRows then config.batchRows
      else if limit.value == 0 then 1 else limit.value
    }

    /**
     * The next rows in order, as many as the row target and the byte limit allow; nothing is dropped. It
     * fails only when reading on fails or a row alone exceeds the byte limit.
     */
    method NextBatch() returns (r: Result<Option<seq<ExecutionRow>>>)
      requires Valid()
      modifies this, reader
      ensures Valid() && cancelled == old(cancelled)
      ensures r.Failure? ==>
                || old(Future()).Failure?
                || exists row :: row in old(Future()).value && TooLarge(config.setting.limits, row)
      ensures r == Success(None) ==> old(Future()) == Success([]) && Future() == Success([])
      ensures r.Success? && r.value.Some? ==>
                var batch := r.value.value;
                && GoodBatch(config.setting.limits, TargetRows(), batch)
                && FullBatch(config.setting.limits, TargetRows(), batch, pending)
                && (|batch| < TargetRows() && pending == [] ==> Future() == Success([]))
                && Received(batch, Future(), old(Future()))
                && (|reader.Rest()| < |old(reader.Rest())|
                    || (reader.Rest() == old(reader.Rest()) && |pending| < |old(pending)|))
    {
      hide StreamRows, Received, After, TotalSize;
      if cancelled || (done && pending == []) {
        NothingLeft();
        return Success(None);
      }
      var target := TargetRows();
      var limits := config.setting.limits;
      var rows: seq<ExecutionRow> := [];
      var bytes := 0;
      ghost var future := Future();
      ReceivedNothing(future);
      EmptySize(limits.size);
      while |rows| < target
        invariant Valid() && !cancelled
        invariant |rows| <= target && bytes == TotalSize(limits.size, rows)
        invariant limits.maxBytes.Some? ==> bytes <= limits.maxBytes.value
        invariant Received(rows, Future(), future)
        invariant |reader.Rest()| < |old(reader.Rest())|
                    || (reader.Rest() == old(reader.Rest()) && |pending| + |rows| == |old(pending)|)
      {
        ghost var before := Future();
        var filled := FillPending();
        if filled.Failure? {
          FailsWith(rows, before, future);
          return Failure(filled.code);
        }
        ReceivedSame(rows, Future(), before, future);
        if pending == [] {
          NothingLeft();
          break;
        }
        var next := pending[0];
        ReceivedPending(rows, pending, Upcoming(), future);
        var rowBytes := limits.size(next);
        if limits.maxBytes.Some? {
          if rowBytes > limits.maxBytes.value {
            assert TooLarge(limits, next);
            return Failure("ENGINE-LIMIT-005");
          }
          if rows != [] && bytes + rowBytes > limits.maxBytes.value {
            break;
          }
        }
        OneMoreSize(limits.size, rows, next);
        pending := pending[1..];
        bytes := bytes + rowBytes;
        rows := rows + [next];
      }
      if rows == [] {
        NothingLeft();
        ReceivedAll(rows, future);
        return Success(None);
      }
      return Success(Some(rows));
    }

    lemma NothingLeft()
      requires Valid() && (cancelled || (done && pending == []))
      ensures Future() == Success([])
    {
      NoPending(Upcoming());
    }

    method Cancel()
      requires Valid()
      modifies this
      ensures Valid() && cancelled && Future() == Success([])
    {
      cancelled := true;
      pending := [];
    }
  }

  lemma LinesStep(bytes: seq<Byte>)
    ensures bytes == [] <==> Lines(bytes) == []
    ensures bytes != [] ==> Lines(bytes)[0] == FirstLine(bytes) && Lines(bytes)[1..] == Lines(AfterLine(bytes))
  {
  }

  /** Pulls a stream dry under explicit limits: the batches, put together, are the whole stream in order. */
  method Collect(stream: Stream, limits: CollectLimits) returns (r: Result<seq<ExecutionRow>>)
    requires stream.Valid()
    modifies stream, stream.reader
    ensures r.Success? ==> old(stream.Future()) == Success(r.value)
    ensures r.Success? ==>
              |r.value| <= limits.maxRows && TotalSize(stream.config.setting.limits.size, r.value) <= limits.maxBytes
    ensures r.Failure? ==>
              var future := old(stream.Future());
              || future.Failure?
              || (exists row :: row in future.value && TooLarge(stream.config.setting.limits, row))
              || |future.value| > limits.maxRows
              || TotalSize(stream.config.setting.limits.size, future.value) > limits.maxBytes
  {
    hide StreamRows, Received, TotalSize;
    var rows: seq<ExecutionRow> := [];
    var bytes := 0;
    ghost var future := stream.Future();
    ReceivedNothing(future);
    EmptySize(stream.config.setting.limits.size);
    while true
      invariant stream.Valid() && Received(rows, stream.Future(), future)
      invariant |rows| <= limits.maxRows && bytes == TotalSize(stream.config.setting.limits.size, rows)
                  && bytes <= limits.maxBytes
      decreases |stream.reader.Rest()|, |stream.pending|
    {
      ghost var before := stream.Future();
      var batch := stream.NextBatch();
      if batch.Failure? {
        StillToCome(rows, before, future);
        return Failure(batch.code);
      }
      if batch.value.None? {
        ReceivedAll(rows, future);
        return Success(rows);
      }
      var more := batch.value.value;
      ReceivedMore(rows, more, stream.Future(), before, future);
      TotalSizeAppend(stream.config.setting.limits.size, rows, more);
      rows := rows + more;
      bytes := bytes + TotalSize(stream.config.setting.limits.size, more);
      if |rows| > limits.maxRows || bytes > limits.maxBytes {
        if future.Success? {
          ReceivedExceeds(stream.config.setting.limits.size, rows, stream.Future(), future);
        }
        stream.Cancel();
        return Failure(if |rows| > limits.maxRows then "ENGINE-COLLECT-001" else "ENGINE-COLLECT-002");
      }
    }
  }
}
