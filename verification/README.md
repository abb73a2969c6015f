# DOL: one expression and plan language, several executors

DOL evaluates one language of expressions and plans in several places: directly over prepared
expressions, stage by stage in the memory engine, row by row over JSON lines, and as MongoDB
aggregation pipelines. This project models those executors around one evaluator and proves that
they agree, together with the compiler passes, the write path, batching and the benchmark tool's
file format and retry logic.

The shared core is `Semantics.dfy` (`Datum` = Missing / Null / value, Kleene truth, the operators),
`SemanticLaws.dfy` (what those operators give, without naming them) and `Expressions.dfy` (authored
trees, prepared flat arrays, and the evaluator of each).

| files | what they model |
|---|---|
| `Normalize.dfy`, `NormalForms.dfy`, `NormalizeSuccess.dfy`, `NormalizeFailures.dfy` | constant folding and candidate sorting; fixed points and size; when folding succeeds; when it keeps failures |
| `Conjunction.dfy` | rebalancing of AND chains |
| `Prepare.dfy` | field resolution, expression limits, flattening, and which trees can be flattened |
| `Bson.dfy`, `MongoCompiler.dfy`, `MongoLowering.dfy`, `MongoTotality.dfy` | the aggregation language, expression lowering, and the totality analysis |
| `MongoPipeline.dfy`, `MongoPreflight.dfy`, `MongoPlan.dfy` | pipelines, the collection preflight, the row decoder, whole plans |
| `MongoAcceptance.dfy` | which expressions and plans the MongoDB compiler and its capability analysis accept |
| `Plans.dfy`, `PlanLaws.dfy`, `MemoryExecutor.dfy` | plan graphs, their recursive meaning, what the stages do to rows, and the stage-at-a-time executor |
| `PlanOptimizer.dfy` | dropping idle stages and renumbering what is left |
| `LineReader.dfy`, `JsonlOperators.dfy`, `JsonlStream.dfy`, `Streams.dfy`, `Batching.dfy` | chunked line reading, streaming operators, pull streams and their batches |
| `Uniqueness.dfy`, `Writes.dfy`, `MemoryEngine.dfy` | constraints by hash buckets, in-place writes with restore, engine state and transactions |
| `EnginesAgree.dfy` | what the engine results say about each other |
| `Csv.dfy`, `Pairs.dfy` | the benchmark artifact's CSV and whole-pair retries |

## Findings

Five promises do not hold as they are usually read; each has a witness and an exact condition.

* What evaluates need not normalize, and so need not prepare: folding is eager where evaluation is
  lazy, and an unreached division by zero stops it (`NormalizeRejectsLazyFallback`). Normalization
  succeeds exactly when no part it visits is stuck, that is, when every operator and deterministic
  call over constant operands succeeds on them and every candidate it sorts has a fingerprint
  (`NormalizeSucceedsExactly`). Constants are told without building a tree. With a total fingerprint
  it is enough that every visited part evaluates in some context (`EvaluatedNormalizes`).
* Normalization keeps every successful result, but not every failure. It can erase an overflow
  under a presence test, the negation of what is no truth, and the scope error of a field that comes
  to stand under a nullable lift (`NormalizeErasesFailure`, `NegationErasesFailure`,
  `LiftErasesFailure`). Every visited part fails in every context exactly where its normal form does
  if and only if every fold is sound (`NormalizeReflectsExactly`): a fold to a literal when the
  operands' types accept the operands or its own type rejects the result; a fold to an operand when
  that operand never evaluates, or the deciding literals are accepted, its values pass the checks
  left out, and no lift comes to stand on a field. `PlainlySound` is a condition on the tree alone.
* A slice that takes no rows compiles to a zero limit, which the server refuses: a compiled plan
  runs if and only if no slice of its chain has the limit zero (`CompiledPlanRefinesMemory`, with
  the plans of `ZeroLimitRefused` as witnesses).
* The collection preflight is weaker than the row decoder for unsigned integers and bytes: it
  accepts the decimal `5.0` and any binary subtype. Preflight and canonical transport together hold
  exactly when every document decodes to a valid row (`PreflightContract`, `PreflightIsWeaker`).
* Parsing printed CSV always succeeds, but reads UTF-8 byte by byte: the round trip is exact if and
  only if every record has a field and every character is ASCII (`CsvRoundTrip`, `RoundTripLosses`).

## Assumptions

* Truth orders True < False < Unknown, by declaration order.
* `$and` and `$or` evaluate every argument; a server that stops early succeeds at least as often.
* Physical field names are top-level names, as the catalog checks, so a path reads one field.
* The planner emits nodes in topological order, gives every expression the type of its root, and
  lines projection names up with the fields of the projected record type, position by position.
* Hashes respect DOL equality and may collide. The fingerprint that orders membership candidates is
  injective only where a result says so.
* Rounded float arithmetic, semantic functions, JSON decoding, statistics and the compatibility of
  model definitions are parameters.

## Model

| member | source | states |
|---|---|---|
| `Semantics.MembershipMeaning` | crates/dol-core/src/expr/semantic.rs:40-60 | membership is decided by what the comparisons contain: any true one wins, else any unknown one, so candidate order cannot matter |
| `Semantics.EvalMembership` | crates/dol-core/src/expr/semantic.rs:40-60 | the loop with its flag and early return answers by that rule |
| `Semantics.DivisionTruncates` | crates/dol-core/src/expr/semantic.rs:467-499 | quotient and remainder recompose the dividend, and the remainder is smaller than the divisor with the dividend's sign |
| `Semantics.OrderCoherent` | crates/dol-core/src/expr/semantic.rs:393-413 | where two values are ordered, the order reverses with them and is equal exactly where they are equal |
| `Semantics.ComparisonsCohere` | crates/dol-core/src/expr/semantic.rs:356-391 | comparisons are unknown on absent operands, false on incomparable values, and otherwise exactly one of less, equal and greater holds |
| `SemanticLaws.Kleene` | crates/dol-core/src/expr/semantic.rs:331-344 | conjunction is the weaker truth, disjunction the stronger, with False below Unknown below True; negation reverses that order |
| `SemanticLaws.DistinctIs` | crates/dol-core/src/expr/semantic.rs:366-373 | two data are distinct unless they are identical and free of not-a-number, absent ones included |
| `SemanticLaws.EqualityIs` | crates/dol-core/src/expr/semantic.rs:356-373 | equality of values is identity, and a value holding a not-a-number anywhere equals nothing |
| `SemanticLaws.OrderIs` | crates/dol-core/src/expr/semantic.rs:375-413 | each comparison holds exactly by numbers, by code points or bytes read as dictionaries, or by rank, and an incomparable pair satisfies none |
| `SemanticLaws.SignedExact` | crates/dol-core/src/expr/semantic.rs:425-482 | sums, differences and products of signed integers are exact, and fail exactly outside 128 bits |
| `SemanticLaws.UnsignedExact` | crates/dol-core/src/expr/semantic.rs:425-499 | the same for unsigned integers, whose differences fail below zero |
| `SemanticLaws.ArithmeticInverts` | crates/dol-core/src/expr/semantic.rs:467-482 | subtraction undoes addition and division undoes multiplication |
| `SemanticLaws.DivisionFails` | crates/dol-core/src/expr/semantic.rs:467-499 | division by zero fails, and so does the one quotient that leaves 128 bits |
| `SemanticLaws.NegationInverts` | crates/dol-core/src/expr/semantic.rs:501-547 | a number and its negation cancel, its magnitude is one of the two, and only the least integer fails |
| `SemanticLaws.CastKeeps` | crates/dol-core/src/expr/semantic.rs:284-321 | a cast keeps the number and its state, and succeeds exactly between the modelled kinds that can hold it |
| `Expressions.EvalAllMeaning` | crates/dol-core/src/expr/eval.rs:33-168 | operand lists evaluate exactly when every operand does, in order |
| `SemanticLaws.OuterJoinedField` | crates/dol-core/src/expr/eval.rs:33-168 | a field of a nullable scope needs a lift; it then reads null where the join put the row, and what the row holds elsewhere |
| `SemanticLaws.ParameterReads` | crates/dol-core/src/expr/eval.rs:33-168 | a parameter reads what is bound to its name with exactly its type, and fails otherwise |
| `Normalize.NormalizePreserves` | crates/dol-core/src/expr/normalize.rs:12-196 | if normalization succeeds and the authored expression evaluates, the normalized one evaluates to the same datum |
| `Normalize.SortCandidatesPermutes` | crates/dol-core/src/expr/normalize.rs:87-97 | sorting candidates permutes them and nothing else |
| `KeyedSort.SortedUnique` | crates/dol-core/src/expr/normalize.rs:87-97 | two sorted arrangements of the same keyed items are equal when keys tell items apart |
| `NormalForms.NormalizeShrinks` | crates/dol-core/src/expr/normalize.rs:12-196 | a normal form has no more nodes and no more depth than its source |
| `NormalForms.NormalFormStable` | crates/dol-core/src/expr/normalize.rs:12-196 | a normal form is a fixed point of normalization |
| `NormalForms.NormalFormReduced` | crates/dol-core/src/expr/normalize.rs:12-196 | no constant operator, call or membership, no decided choice or coalesce and no double negation is left, and membership candidates stand in fingerprint order |
| `NormalForms.CandidateOrderIrrelevant` | crates/dol-core/src/expr/normalize.rs:77-126 | membership tests with permuted candidates normalize to one tree or fail together, under an injective fingerprint |
| `NormalizeSuccess.ConstantIsLiteral` | crates/dol-core/src/expr/normalize.rs:12-196 | a normal form is a literal exactly when its source is constant whatever the context, and then it holds the constant |
| `NormalizeSuccess.NormalizeSucceedsExactly` | crates/dol-core/src/expr/normalize.rs:12-196 | normalization succeeds exactly when every operator and deterministic call it reaches succeeds on constant operands and every candidate it sorts has a fingerprint |
| `NormalizeSuccess.EvaluatedNormalizes` | crates/dol-core/src/expr/normalize.rs:12-196 | with a total fingerprint, an expression whose visited parts each evaluate in some context normalizes |
| `NormalizeFailures.NormalizeErasesFailure` | crates/dol-core/src/expr/normalize.rs:25-66 | witness: a failing presence test over an overflowing sum normalizes to True |
| `NormalizeFailures.NegationErasesFailure` | crates/dol-core/src/expr/normalize.rs:15-24 | witness: negating an absent truth twice fails, and the normal form gives the absent value |
| `NormalizeFailures.LiftErasesFailure` | crates/dol-core/src/expr/normalize.rs:128-142 | witness: a decided choice brings a field of a nullable scope under a lift it was not under, and its scope error is gone |
| `NormalizeFailures.NormalizeRejectsLazyFallback` | crates/dol-core/src/expr/normalize.rs:39-66 | witness: an unreached division by zero evaluates fine and does not normalize |
| `NormalizeFailures.NodeKeeps` | crates/dol-core/src/expr/normalize.rs:12-196 | once its operands fail where their normal forms do, a node does so exactly when its own fold is sound |
| `NormalizeFailures.NormalizeReflectsExactly` | crates/dol-core/src/expr/normalize.rs:12-196 | every visited part succeeds and fails with its normal form in every context exactly when every fold is sound, with or without nullable scopes |
| `NormalizeFailures.NormalizeReflects` | crates/dol-core/src/expr/normalize.rs:12-196 | types and literals of the normal forms alone suffice: then the normal form fails exactly where the source fails |
| `Conjunction.CollectLeaves` | crates/dol-core/src/expr/existential.rs:16-30 | the explicit stack lists the conjuncts from left to right |
| `Conjunction.PairRound` | crates/dol-core/src/expr/existential.rs:33-49 | one round pairs neighbours in order and keeps an odd last one |
| `Conjunction.CanonicalTruth` | crates/dol-core/src/expr/existential.rs:14-56 | the rounds compute the canonical form, which has the conjuncts of its source in order |
| `Conjunction.CanonicalIffSameLeaves` | crates/dol-core/src/expr/existential.rs:14-56 | two conditions have one canonical form exactly when they list the same conjuncts in the same order |
| `Conjunction.FiltersAssociate` | crates/dol-core/src/expr/existential.rs:58-72 | stacking filters in any grouping gives one condition |
| `Conjunction.CanonicalPreserves` | crates/dol-core/src/expr/existential.rs:14-56 | rebalancing keeps the three-valued result and whether evaluation fails |
| `Conjunction.CanonicalShallow` | crates/dol-core/src/expr/existential.rs:32-50 | rebalancing adds at most ceil(log2 n) levels above the deepest of n conjuncts |
| `Prepare.ResolveField` | crates/dol-core/src/expr/prepare.rs:132-178 | the scan over the scopes computes the resolution |
| `Prepare.ResolveMeaning` | crates/dol-core/src/expr/prepare.rs:132-178 | a reference resolves exactly when one scope matches, and ambiguity is told from absence |
| `Prepare.CheckExpressionLimits` | crates/dol-core/src/expr/prepare.rs:553-615 | the counting traversal accepts exactly the trees within both limits and returns the node count |
| `Prepare.Emitter.CompileNode` | crates/dol-core/src/expr/prepare.rs:391-514 | the recursive pass appends the flat form of a subtree and returns the index of its root |
| `Prepare.EmitShape` | crates/dol-core/src/expr/prepare.rs:391-514 | flattening appends one node per tree node, children before parents, root last |
| `Prepare.EmittedExactly` | crates/dol-core/src/expr/prepare.rs:132-178 | a tree flattens exactly when each field resolves to one scope that has it with its type, null extension is typed or lifted, subqueries are known, and the nodes can be numbered |
| `Prepare.LiteralsFlat` | crates/dol-core/src/expr/prepare.rs:330-377 | the literal check of a tree is the check of every literal node of its flat form |
| `Prepare.FlattenEval` | crates/dol-core/src/expr/eval.rs:33-168 | evaluating the flat root, inside any longer array, is evaluating the tree |
| `Prepare.PrepareExpression` | crates/dol-core/src/expr/prepare.rs:330-377 | preparation succeeds exactly within the limits, when normalization does, every field of the normal form has one matching scope with the field and its type, every subquery is known, literals are valid before and after, and the declared result type is met; all literal nodes of the result are valid |
| `Prepare.LowerShape` | crates/dol-core/src/expr/prepare.rs:330-377 | a prepared expression is well formed, no longer than its source, typed by its root, and names the models of its scopes in order |
| `Prepare.LowerCorrect` | crates/dol-core/src/expr/eval.rs:15-31 | a prepared expression evaluates, over matching scopes, to whatever its authored tree evaluates to |
| `Bson.CodecRoundTrip` | engines/mongodb/src/codec.rs:83-196 | encoding a valid supported value succeeds, and decoding any carrier of it returns it |
| `Bson.CarriersCompare` | engines/mongodb/src/compiler.rs:745-782 | server order on carriers is DOL order wherever DOL defines one, truth and bytes aside |
| `Bson.CarriersEqual` | engines/mongodb/src/compiler.rs:732-743 | server equality on carriers is DOL equality, except for not-a-number |
| `MongoCompiler.CompileExpr` | engines/mongodb/src/compiler.rs:389-502 | the pass over the node array computes the lowering of the root, or the first failure; what it accepts is LoweredExactly |
| `MongoAcceptance.LoweredExactly` | engines/mongodb/src/compiler.rs:389-826 | an expression is lowered exactly when its nodes are of the supported kinds over alike operand shapes, fields are plain, parameters are bound with their type, and truth operands are certain; every comparison of two operands of one supported shape compiles, ordered bytes apart |
| `MongoLowering.ValueEqualCorrect` | engines/mongodb/src/compiler.rs:732-743 | the equality test computes DOL equality of the two values |
| `MongoLowering.ValueOrderCorrect` | engines/mongodb/src/compiler.rs:745-782 | the order test computes DOL order, truth by rank and not-a-number in no order |
| `MongoLowering.ComparisonTruthCorrect` | engines/mongodb/src/compiler.rs:721-730 | an absent operand makes a comparison unknown and the test irrelevant |
| `MongoLowering.UnaryCorrect` | engines/mongodb/src/compiler.rs:525-566 | lowered unary operators represent what evaluation gives |
| `MongoLowering.ConnectiveCorrect` | engines/mongodb/src/compiler.rs:609-646 | nested conditionals compute Kleene AND and OR |
| `MongoLowering.DistinctCorrect` | engines/mongodb/src/compiler.rs:588-608 | the state and value test computes null-safe equality |
| `MongoLowering.CoalesceCorrect` | engines/mongodb/src/compiler.rs:647-655 | coalesce represents the left value, or the right datum when there is none |
| `MongoLowering.BinaryCorrect` | engines/mongodb/src/compiler.rs:568-666 | every lowered binary operator represents what evaluation gives |
| `MongoLowering.MembershipCorrect` | engines/mongodb/src/compiler.rs:668-703 | lowered membership represents the loop's answer, for any number of candidates |
| `MongoLowering.ConditionalCorrect` | engines/mongodb/src/compiler.rs:705-719 | a lowered conditional represents the branch evaluation takes |
| `MongoLowering.BoundDatumCorrect` | engines/mongodb/src/compiler.rs:504-523 | a bound literal or parameter represents its datum |
| `MongoLowering.LoweringPreservesMeaning` | engines/mongodb/src/compiler.rs:389-730 | whenever the compiler accepts and evaluation succeeds with a datum, the compiled pair evaluates to its tag and its value |
| `MongoTotality.ExpressionSupport` | engines/mongodb/src/compiler.rs:266-355 | the analysis loop computes the support of the root |
| `MongoTotality.SupportSound` | engines/mongodb/src/compiler.rs:266-355 | an expression the analysis calls total never evaluates to Missing or Null, over any row |
| `MongoTotality.SupportAgrees` | engines/mongodb/src/compiler.rs:266-355 | the analysis is never more optimistic than the compiler, which never rejects it for partial truth |
| `MongoAcceptance.SupportedExactly` | engines/mongodb/src/compiler.rs:266-355 | the analysis gives an answer exactly for the trees it can follow, and the answer is whether the root always holds a value |
| `MongoPipeline.Compile` | engines/mongodb/src/compiler.rs:66-117 | the loop over the plan computes the relation of the root, with the code of the first failure |
| `MongoAcceptance.CompiledExactly` | engines/mongodb/src/compiler.rs:66-264 | a plan compiles exactly when each node is a stored source, a lowerable total condition, a projection of lowerable expressions with a wired type, or a slice in range, over compiled inputs |
| `MongoPipeline.PrefixRelation` | engines/mongodb/src/compiler.rs:66-117 | each relation is compiled from earlier ones only and is not changed afterwards |
| `MongoPipeline.ProjectionLowered` | engines/mongodb/src/compiler.rs:206-244 | each projected position holds the lowering of its expression, in order |
| `MongoPreflight.NamesDistinct` | engines/mongodb/src/compiler.rs:137-138 | no two output positions of a stage share a document field |
| `MongoPreflight.ProjectionLookup` | engines/mongodb/src/compiler.rs:206-244 | every position of a projected document holds the value of its expression |
| `MongoPreflight.SourceStateIs` | engines/mongodb/src/compiler.rs:828-846 | the state switch tells absent, null and present fields apart |
| `MongoPreflight.FieldTestIs` | engines/mongodb/src/compiler.rs:848-945 | the validity test of a field evaluates to a definite boolean on every document |
| `MongoPreflight.FieldContract` | engines/mongodb/src/compiler.rs:848-945 | for one field, preflight and canonical transport together hold exactly when decoding yields a valid datum |
| `MongoPreflight.PreflightIsWeaker` | engines/mongodb/src/compiler.rs:907-926 | witnesses: the decimal 5.0 and a tagged binary pass the preflight and are refused by the decoder |
| `MongoPreflight.OffendersFound` | engines/mongodb/src/compiler.rs:161-166 | the offender filter succeeds on every collection and is empty exactly when every document is accepted |
| `MongoPreflight.PreflightContract` | engines/mongodb/src/compiler.rs:119-179 | a collection passes the preflight with canonical transports exactly when every document decodes to a valid row |
| `MongoPlan.SupportedFilterCompiles` | engines/mongodb/src/compiler.rs:181-204 | a filter the capability analysis supports is never rejected for a condition that may be absent |
| `MongoPlan.SourceHolds` | engines/mongodb/src/compiler.rs:119-179 | the source projection of a conforming document decodes to its row and binds it as the only scope |
| `MongoPlan.FilterHolds` | engines/mongodb/src/compiler.rs:181-204 | the compiled test accepts a document exactly when the condition keeps its row |
| `MongoPlan.ProjectHolds` | engines/mongodb/src/compiler.rs:206-244 | the projected document decodes to the row the memory projection makes |
| `MongoPlan.ShapesAgree` | engines/mongodb/src/codec.rs:198-252 | assembling decoded positions by type gives the datum the projection shapes by kind |
| `MongoPlan.SlicesHold` | engines/mongodb/src/compiler.rs:246-263 | skip and limit take the slice of the documents, for every offset and limit |
| `MongoPlan.CompiledHolds` | engines/mongodb/src/compiler.rs:66-117 | every compiled relation, run on the stored documents, delivers its node's rows, and is refused exactly when a slice takes nothing |
| `MongoPlan.CompiledPlanRefinesMemory` | engines/mongodb/src/compiler.rs:66-264 | for every accepted plan and canonical collection: a broken document stops the execution, otherwise the decoded pipeline gives exactly the memory engine's rows unless a slice takes nothing |
| `MongoPlan.ZeroLimitRefused` | engines/mongodb/src/compiler.rs:246-263 | witness: over a stored flag, a source with a limit compiles; it gives the flag when the limit is positive and is refused when it is zero, where the memory engine gives no rows |
| `Reachability.StructuralClosure` | engines/memory/src/executor.rs:456-476 | on any graph the worklist terminates, marks exactly the reachable nodes, and fails exactly on a dangling one |
| `MemoryExecutor.Session.EvaluateExists` | engines/memory/src/executor.rs:368-385 | answers True when the subquery has a row at the next depth and False when it has none, fails at the bound, and restores the counter on every path |
| `PlanLaws.ExistsFilterKeeps` | engines/memory/src/executor.rs:368-385 | a filter on an existential test keeps a row exactly when the subquery has a row under the scopes the row gives it |
| `PlanLaws.ExistsFilterBounded` | engines/memory/src/executor.rs:368-375 | at the nesting bound such a filter fails |
| `PlanLaws.ScopeReads` | engines/memory/src/executor.rs:368-385 | a scope an outer join left empty reads null in every field, any other what its row holds |
| `MemoryExecutor.Session.EvaluateNode` | crates/dol-core/src/expr/eval.rs:33-168 | evaluation with existential tests run through the executor gives the recursive evaluation |
| `MemoryExecutor.Session.ExecuteStage` | engines/memory/src/executor.rs:124-206 | a stage over its inputs' rows gives the meaning of its node |
| `PlanLaws.UnnestGives` | engines/memory/src/executor.rs:124-206 | a list gives one row per item in order if every item is of the element type, an absent list none, and anything else fails |
| `PlanLaws.DistinctGives` | engines/memory/src/executor/ops.rs:64-80 | of equal rows exactly the first stays, in order |
| `PlanLaws.SetGives` | engines/memory/src/executor/ops.rs:82-131 | each set operation gives, in order and once, exactly the rows its two inputs call for |
| `MemoryExecutor.Session.ExecuteSubplan` | engines/memory/src/executor.rs:86-122 | executing the marked nodes in index order gives the recursive meaning of the root, or fails with it |
| `MemoryExecutor.ReachableFails` | engines/memory/src/executor.rs:86-122 | a failing node makes every node that reaches it fail |
| `PlanOptimizer.Optimize` | crates/dol-core/src/plan/optimize.rs:7-30 | the loop renumbers each node and keeps it unless an earlier one gives its rows |
| `PlanOptimizer.OptimizedExactly` | crates/dol-core/src/plan/optimize.rs:122-129 | a plan is refused exactly when a node, a tested subquery or the root refers to no earlier node |
| `PlanOptimizer.OptimizedMeaning` | crates/dol-core/src/plan/optimize.rs:7-120 | the optimized plan has no idle node and no more nodes, and gives the rows of the original, or its failure, under every outer scope and existential depth |
| `PlanOptimizer.OptimizedStays` | crates/dol-core/src/plan/optimize.rs:7-48 | optimizing again changes nothing |
| `LineReader.LinesRoundTrip` | engines/jsonl/src/stream.rs:546-577 | terminated records, and a last unterminated one that is not empty, are read back as written |
| `LineReader.ChunkReader.ReadBoundedLine` | engines/jsonl/src/stream.rs:546-577 | one record, whatever the chunks; fails exactly when it exceeds the bound and answers false exactly at the end |
| `LineReader.ReadAll` | engines/jsonl/src/stream.rs:148-166 | repeated reading gives exactly the records, and fails exactly when one exceeds the bound |
| `JsonlOperators.RunOpsSplits` | engines/jsonl/src/stream.rs:356-376 | rows can be run in two parts, the second through the counters the first left |
| `JsonlOperators.LimitsOnlyRefuse` | engines/jsonl/src/stream.rs:356-376 | a run within the limits gives what an unlimited run gives |
| `JsonlOperators.LimitsExactly` | engines/jsonl/src/stream.rs:356-376 | a limited run succeeds exactly when the unlimited one does and the output of every operator fits |
| `JsonlOperators.ExhaustedGivesNothing` | engines/jsonl/src/stream.rs:34-44 | once a slice is used up no further row could contribute |
| `JsonlOperators.SliceOpTakes` | engines/jsonl/src/stream.rs:427-444 | the slice counters take exactly the slice of the rows |
| `JsonlOperators.ExprAgrees` | engines/jsonl/src/stream.rs:449-514 | where the staged evaluation succeeds, the streamed one gives the same datum |
| `JsonlOperators.OpIsStage` | engines/jsonl/src/stream.rs:378-426 | a filter, projection or unnest run over all rows is the whole stage |
| `JsonlPlan.CompilePlan` | engines/jsonl/src/stream.rs:280-354 | the walk from the root collects the operators in source order, and accepts exactly chains of streamable nodes over a known source |
| `JsonlPlan.StreamableExactly` | engines/jsonl/src/stream.rs:280-354 | operators exist exactly for chains of filters and projections without subqueries, unnests and slices over one source |
| `JsonlPlan.OpsAreStages` | engines/jsonl/src/stream.rs:280-354 | running a plan's operators over the table gives the recursive meaning of the plan |
| `JsonlStream.ApplyOp` | engines/jsonl/src/stream.rs:378-447 | one row through one operator pushes what the operator makes of it and updates its counters |
| `JsonlStream.Stream.ApplyOps` | engines/jsonl/src/stream.rs:356-376 | one row through all operators, counters updated in place, succeeds exactly within the limits |
| `JsonlStream.Stream.FillPending` | engines/jsonl/src/stream.rs:148-207 | reading on changes nothing about the rows still to come, leaves none pending only at the end, and with a used-up slice succeeds, finishes and reads nothing |
| `JsonlStream.Stream.NextBatch` | engines/jsonl/src/stream.rs:223-272 | batches are non-empty, in order, and as full as the row target and the byte limit allow; nothing is dropped |
| `JsonlStream.StreamingIsStaging` | engines/jsonl/src/stream.rs:148-207 | one row at a time with early stop gives what all rows at once give |
| `JsonlStream.StreamingSucceeds` | engines/jsonl/src/stream.rs:148-207 | without limits, and with records and counts in bounds, a stream succeeds whenever staging does |
| `JsonlStream.StreamStops` | engines/jsonl/src/stream.rs:34-44 | with a slice whose limit is used up, nothing that follows is read, whatever it is |
| `JsonlStream.StreamReads` | engines/jsonl/src/stream.rs:148-207 | a stream succeeds only by having read, within its bounds, records that suffice: the whole file, or as many as use up a slice |
| `JsonlStream.StreamNeedsNoMore` | engines/jsonl/src/stream.rs:148-207 | without limits, and with its bounds kept that far, records that suffice are enough for the stream to give their rows |
| `JsonlStream.LineEndings` | engines/jsonl/src/stream.rs:181-187 | one carriage return before the line end is dropped, and an empty record is an error |
| `JsonlStream.StreamRefinesMemory` | engines/jsonl/src/stream.rs:148-207 | an error-free stream over a file yields exactly the staged executor's rows over the whole file |
| `JsonlStream.Collect` | crates/dol-engine/src/stream/mod.rs:116-160 | the batches, put together, are the whole stream in order; it fails only with the stream, on a row over its limit, or when the whole stream has more rows or bytes than the collection limits |
| `Batching.MongodbStream.NextBatch` | engines/mongodb/src/runtime.rs:186-238 | batches are non-empty, in order, and as full as the bounds allow across the row held back; nothing is dropped |
| `Batching.PortalFetchRows` | engines/postgres/src/runtime.rs:519-530 | a page is one row when bytes are bounded, and otherwise what was asked for, at least one and at most 1024 |
| `Batching.PullState.PullBatch` | engines/postgres/src/runtime.rs:380-444 | the same across the held row and the page buffer, which is empty between pulls |
| `Batching.PullState.ProveEmptyOrReject` | engines/postgres/src/runtime.rs:259-284 | with a zero row limit only an empty result succeeds |
| `Batching.MemoryStream.NextBatch` | engines/memory/src/executor.rs:633-644 | drains the queue from the front in full batches, the last one apart |
| `Uniqueness.BucketDecides` | crates/dol-core/src/data/validate.rs:148-158 | a tuple has an equal in its bucket exactly when an earlier row has an equal tuple, for any hash |
| `Uniqueness.TupleReads` | crates/dol-core/src/data/validate.rs:163-190 | a key reads the field of every component in order; it takes no part only where a component may be and is absent, and fails exactly on the first that cannot be read |
| `Uniqueness.ValidateUniqueTuple` | crates/dol-core/src/data/validate.rs:140-161 | accepts exactly when every key can be read and no two participating rows agree in every field of it, colliding hash or not |
| `Uniqueness.ValidateDynamicDataset` | crates/dol-core/src/data/validate.rs:78-109 | accepts exactly the valid data sets |
| `Uniqueness.PartStaysValid` | crates/dol-core/src/data/validate.rs:78-109 | leaving rows out never breaks a data set |
| `Uniqueness.DeletionStaysValid` | crates/dol-core/src/data/write.rs:134-155 | deletion keeps a valid data set valid without validating again |
| `Uniqueness.NaNIdentitiesCoexist` | crates/dol-core/src/data/validate.rs:140-161 | two rows may share a not-a-number identity |
| `Writes.DataSet.ApplyInsert` | crates/dol-core/src/data/write.rs:22-36 | pushes a row exactly when the result is valid, and pops it again otherwise |
| `Writes.DataSet.ApplyInsertMany` | crates/dol-core/src/data/write.rs:38-56 | extends exactly when the new rows alone and the whole are valid, and truncates otherwise |
| `Writes.DataSet.ApplyUpdate` | crates/dol-core/src/data/write.rs:99-132 | swaps in exactly the rows with the picked ones reassigned, each picked row changed in its assigned fields alone, when they are valid |
| `Writes.DataSet.ApplyDelete` | crates/dol-core/src/data/write.rs:134-155 | keeps exactly the rows the condition does not pick, in order, counts the others, and keeps a valid data set valid |
| `Writes.LocalDoes` | crates/dol-core/src/data/write.rs:22-155 | what each write leaves, said of the rows alone, and exactly when a local data set accepts it |
| `Writes.TableDoes` | engines/memory/src/write.rs:55-131 | the same of the table an engine write leaves, and exactly when the engine accepts it on a valid table |
| `RowWrites.RetainDeletes` | crates/dol-core/src/data/write.rs:134-155 | the retained rows are at strictly increasing places, the places whose rows are not picked |
| `RowWrites.UpdatedIs` | crates/dol-core/src/data/write.rs:98-132 | picked rows hold the computed values in the assigned fields and their old ones elsewhere, the other rows stay, and the count is of the picked |
| `Writes.Store.ApplyWrite` | engines/memory/src/write.rs:55-131 | changes only the written table, to exactly the rows the write calls for, and succeeds on a valid table exactly on the accepted writes |
| `Writes.RestoreUndoes` | engines/memory/src/write.rs:14-53 | restoring the written table undoes any half-made write |
| `Writes.InPlaceRefinesLocal` | engines/memory/src/write.rs:55-131 | on a valid table the in-place engine accepts every write the parameterless copy-on-write data set accepts, with the same rows and count, and no other when it has no parameters or the write reads none |
| `TableValidation.FindTargetRow` | engines/memory/src/store.rs:123-137 | finds a row exactly when one agrees with the reference in every target field and all rows before it can be read |
| `TableValidation.ValidateReferences` | engines/memory/src/store.rs:105-149 | the nested loops accept exactly the tables whose references all hold |
| `TableValidation.ValidateTables` | engines/memory/src/store.rs:97-103 | accepts exactly the consistent tables |
| `TableValidation.ValidateSnapshotLimits` | engines/memory/src/transaction.rs:113-135 | accepts exactly when the totals of rows and bytes are within the limits, in any table order |
| `MemoryStore.ApplyAtomicWrite` | engines/memory/src/write.rs:14-38 | on any failure the whole table map is as before; on success it is the checked outcome of the write |
| `MemoryStore.WritesKeepDatasets` | engines/memory/src/write.rs:55-131 | a kept write leaves every table a valid data set |
| `MemoryStore.MemoryEngine.Register` | engines/memory/src/lib.rs:62-68 | registers a definition with the rows it had, or refuses another one of its key; clears the validated flag only on success |
| `MemoryStore.MemoryEngine.LoadDynamic` | engines/memory/src/lib.rs:82-91 | loads a model once with a valid data set, or changes nothing |
| `MemoryStore.MemoryEngine.Validate` | engines/memory/src/lib.rs:93-100 | answers whether the tables are consistent, flag or not |
| `MemoryStore.MemoryEngine.ExecuteWrite` | engines/memory/src/lib.rs:224-239 | keeps a write only from consistent tables to consistent tables, and otherwise changes no table |
| `MemoryStore.MemoryEngine.BeginTransaction` | engines/memory/src/transaction.rs:90-110 | starts exactly from consistent tables within non-zero limits, on a copy |
| `MemoryStore.ReplayKeeps` | engines/memory/src/transaction.rs:51-69 | whatever a transaction did, its working copy is made of valid data sets within its limits |
| `MemoryStore.MemoryTransaction.ExecuteWrite` | engines/memory/src/transaction.rs:51-69 | a successful write is counted and changes the copy only; anything else changes nothing |
| `MemoryStore.MemoryTransaction.Commit` | engines/memory/src/transaction.rs:71-77 | the engine takes exactly the replay of the successful writes if it is consistent, and otherwise stays as it was |
| `MemoryStore.MemoryTransaction.Rollback` | engines/memory/src/transaction.rs:79-81 | the engine is as it was when the transaction began |
| `EnginesAgree.AuthoredMeaningOnServer` | engines/mongodb/src/compiler.rs:389-502 | from the authored tree through normalization, flattening and lowering, the server computes the tree's datum |
| `EnginesAgree.EnginesAgree` | engines/jsonl/src/stream.rs:148-207 | a plan both engines accept gives, over the same rows, the same result from the server, the stream and the memory engine, and without limits the stream does not fail |
| `Csv.CsvRecord` | tools/benchmarks/src/artifact.rs:646-656 | appends the quoted, comma-separated record |
| `Csv.ParseCsv` | tools/benchmarks/src/artifact.rs:658-704 | the index loop computes the parse |
| `Csv.ParsePrinted` | tools/benchmarks/src/artifact.rs:646-704 | parsing what was printed always succeeds, and says exactly what becomes of every field |
| `Csv.CsvRoundTrip` | tools/benchmarks/src/artifact.rs:646-704 | the round trip is exact if and only if every record has a field and every character is ASCII |
| `Csv.UnquotedParses` | tools/benchmarks/src/artifact.rs:658-704 | text without quotes is split at its commas and at line ends of every kind |
| `Csv.OpenQuoteFails` | tools/benchmarks/src/artifact.rs:695-700 | a quote that is never closed is an error |
| `Csv.RoundTripLosses` | tools/benchmarks/src/artifact.rs:646-704 | witness: an accented letter comes back as two characters, and an empty record as one empty field |
| `Pairs.LatestAttempts` | tools/benchmarks/src/comparison.rs:569-578 | maps exactly the pairs that occur to their greatest attempt |
| `Pairs.GroupSelected` | tools/benchmarks/src/comparison.rs:580-603 | groups exactly the samples of the latest attempts, positions in order on each side |
| `Pairs.OrderedRawSamples.InspectGroups` | tools/benchmarks/src/comparison.rs:475-510 | succeeds exactly when every complete group can be described; finds exactly the incomplete and the noisy pairs; gives the samples of complete groups the class their description gives their position, and changes nothing else |
| `Pairs.OrderedRawSamples.RejectPairAttempt` | tools/benchmarks/src/comparison.rs:626-642 | rejects every sample of one attempt of one pair, and no other |
| `Pairs.PlanRetries` | tools/benchmarks/src/comparison.rs:516-533 | one reversed retry for every noisy pair with a retry left, none for the others, which are exhausted |
| `Pairs.CompareScenario` | tools/benchmarks/src/comparison.rs:704-814 | an estimate exactly when nothing is pending, exhausted or invalid, every pair is complete within one attempt, and there are enough pairs; otherwise noisy, invalid or inconclusive in that order; retried exactly when a counted pair is a replacement; fails only where a median, or an estimate that is due, is missing |
| `Pairs.AnalyzeCompletePairs` | tools/benchmarks/src/comparison.rs:463-546 | never drops or reorders a sample, rejects all or none of a pair's selected attempt, classes exactly the complete groups, compares every scenario once in order, retries and estimates as above, and fails only on its configuration or where statistics are missing |

## Left out

- PrepareExpression: of the two validation passes only the literal check and the result type are modelled; operator, function and parameter typing, and the consistency of type definitions, are not.
- CodecRoundTrip: UUIDs, decimals and temporal values are not among the modelled values, so their carriers are not either.
- FieldTestIs: the UUID pattern, decimal and temporal tests are left out with those values.
- OptimizedMeaning: speaks of plans whose projections test no subquery, as the planner builds them (crates/dol-core/src/pipeline/compile.rs:405-425); the optimizer would not renumber such tests.
- ExecuteStage: joins, aggregates, windows and sorting, and the executor's row, byte and time limits, are not modelled.
- CompiledPlanRefinesMemory: assumes an error-free meaning on the memory side; that the server may succeed where an expression would fail is not described further.
- StreamRefinesMemory: with materialization limits it speaks only of streams that do not exceed them.
- InPlaceRefinesLocal: a write that reads parameters may be accepted by the engine alone, as a local data set has none; affected-row limits and timeouts are unset, and write conditions carry no existential or correlated parts, which the memory engine refuses up front.
- AnalyzeCompletePairs: statistics, bootstrap and classification are parameters, per-side summaries are not built, and the validation of single samples is not repeated.
- Single-precision floats, decimals, UUIDs, temporal values and maps; signed zeros are one value.
- The fraction digits of a finite double as text (only whether the text is `NaN` matters).
- Decimal infinities and not-a-number in stored documents, and the deprecated undefined type.
- Joins, aggregates, windows and sorting in the memory executor, and its row, byte and time limits.
- Correlated outer scopes on the server and in streams, which both compilers refuse.
- Saturation of 64-bit counters and platform-size conversions of offsets, limits and byte counts.
- Collection and database name checks, connections, cursors' network errors, and cancellation in flight.
- The PostgreSQL compiler, wire formats, migrations, vector search, typed authoring and diagnostics' text.
- Type validation of models and plans.
- The order in which several failures of one validation are reported: only success and failure are compared there.
