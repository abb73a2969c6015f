/// What normalization does to evaluation failures (dol-core `expr/normalize.rs`).

module NormalizeFailures {
  import opened Results
  import opened Semantics
  import opened Models
  import opened Expressions
  import opened Normalize
  import opened NormalizeSuccess

  const I8 := TypeDef("dol/i8", Scalar(IntRepr(8)), false)

  function I8Literal(i: int): Expr { LiteralE(I8, Val(IntV(i))) }

  /** 100 + 100 in eight bits: the sum folds to a literal its own type rejects. */
  function Overflowing(): Expr { BinaryE(I8, Add, I8Literal(100), I8Literal(100)) }

  lemma I8Bounds()
    ensures Pow2(7) == 128
  {
    assert Pow2(3) == 8;
  }

  lemma LiteralEvaluates(bind: BindContext, rt: Runtime, i: int)
    requires ValidBind(bind) && -128 <= i < 128
    ensures Eval(bind, rt, I8Literal(i), false) == Success(Val(IntV(i)))
  {
    I8Bounds();
  }

  lemma OverflowFails(bind: BindContext, rt: Runtime)
    requires ValidBind(bind)
    ensures Eval(bind, rt, Overflowing(), false).Failure?
  {
    LiteralEvaluates(bind, rt, 100);
    I8Bounds();
  }

  lemma OverflowFolds(host: Host, fp: Fingerprint)
    ensures NormalizeNode(host, fp, Overflowing()) == Success(I8Literal(200))
  {
    hide FinishMembership;
  }

  /** Folding can erase a failure: this test fails to evaluate, and normalizes to True. */
  lemma NormalizeErasesFailure(bind: BindContext, rt: Runtime, fp: Fingerprint)
    requires ValidBind(bind)
    ensures var e := UnaryE(TRUTH_TYPE, IsPresent, Overflowing());
            && Eval(bind, rt, e, false).Failure?
            && NormalizeNode(rt.host, fp, e) == Success(LiteralE(TRUTH_TYPE, TruthOf(true)))
            && Eval(bind, rt, LiteralE(TRUTH_TYPE, TruthOf(true)), false) == Success(TruthOf(true))
  {
    hide Overflowing;
    OverflowFails(bind, rt);
    OverflowFolds(rt.host, fp);
  }

  lemma DivisionRejected(host: Host, fp: Fingerprint)
    ensures NormalizeNode(host, fp, BinaryE(I8, Div, I8Literal(1), I8Literal(0))).Failure?
  {
    hide FinishMembership;
  }

  /** Folding is eager where evaluation is lazy: an unreached division by zero stops normalization. */
  lemma NormalizeRejectsLazyFallback(bind: BindContext, rt: Runtime, fp: Fingerprint, p: string)
    requires ValidBind(bind)
    requires p in rt.ctx.parameters && rt.ctx.parameters[p] == BoundParameter(I8, Val(IntV(1)))
    ensures var e := BinaryE(I8, Coalesce, ParameterE(I8, p), BinaryE(I8, Div, I8Literal(1), I8Literal(0)));
            Eval(bind, rt, e, false) == Success(Val(IntV(1))) && NormalizeNode(rt.host, fp, e).Failure?
  {
    hide EvalBinary, I8Literal;
    I8Bounds();
    assert Eval(bind, rt, ParameterE(I8, p), false) == Success(Val(IntV(1)));
    DivisionRejected(rt.host, fp);
  }

  // ----- what a fold is -----

  /** What the pass does to a node once its operands are normal forms. */
  datatype Fold =
    | Kept
    | Evaluated(operands: seq<Expr>)                                     // to a literal, from literals
    | Replaced(guards: seq<Expr>, types: seq<TypeDef>, isTruth: bool)    // by an operand, decided by literals

  function FoldOf(host: Host, fp: Fingerprint, e: Expr): Fold
    requires NormalizeNode(host, fp, e).Success?
  {
    match e
    case UnaryE(ty, op, input) =>
      var n := NormalizeNode(host, fp, input).value;
      if op == Not && n.UnaryE? && n.op == Not then Replaced([], [ty, n.ty], true)
      else if n.LiteralE? then Evaluated([n])
      else Kept
    case BinaryE(ty, op, left, right) =>
      var l := NormalizeNode(host, fp, left).value;
      if op == Coalesce && l.LiteralE? then (if l.datum.Val? then Evaluated([l]) else Replaced([l], [ty], false))
      else
        var r := NormalizeNode(host, fp, right).value;
        if l.LiteralE? && r.LiteralE? then Evaluated([l, r]) else Kept
    case MembershipE(_, input, candidates, _) =>
      var n, ns := NormalizeNode(host, fp, input).value, NormalizeAll(host, fp, candidates).value;
      if n.LiteralE? && AllLiterals(ns) then Evaluated([n] + ns) else Kept
    case ConditionalE(ty, condition, _, _) =>
      var n := NormalizeNode(host, fp, condition).value;
      if n.LiteralE? && AsTruth(n.datum).Success? then Replaced([n], [ty], false) else Kept
    case CallE(_, f, arguments) =>
      var ns := NormalizeAll(host, fp, arguments).value;
      if f.deterministic && AllLiterals(ns) then Evaluated(ns) else Kept
    case _ => Kept
  }

  predicate SoundLiteral(e: Expr) {
    e.LiteralE? && ValidDatum(e.ty, Optional, e.datum)
  }

  predicate SoundLiterals(es: seq<Expr>) {
    forall i | 0 <= i < |es| :: SoundLiteral(es[i])
  }

  /** The checks a replaced node would have made on the value. */
  predicate Accepts(fold: Fold, datum: Datum)
    requires fold.Replaced?
  {
    && (forall i | 0 <= i < |fold.types| :: ValidDatum(fold.types[i], Optional, datum))
    && (fold.isTruth ==> AsTruth(datum).Success?)
  }

  // ----- when a fold keeps failures -----

  /** Contexts over this host; without `outer`, those in which no scope is nullable. */
  ghost predicate Admissible(host: Host, outer: bool, bind: BindContext, rt: Runtime) {
    ValidBind(bind) && rt.host == host && (!outer ==> forall i | 0 <= i < |bind.nullable| :: !bind.nullable[i])
  }

  /** A field that reads null-extended rows exactly because a nullable lift is its parent. */
  predicate NeedsLift(e: Expr) {
    e.FieldE? && !e.ty.nullable
  }

  /**
   * A fold to a literal is sound when the operands' types accept the operands, or its own type rejects
   * the result. A fold to an operand is sound when that operand never evaluates, or the deciding literals
   * are accepted, every value the operand takes passes the checks left out, and no nullable lift comes
   * to stand on a field it did not stand on.
   */
  ghost predicate FoldSound(host: Host, fp: Fingerprint, outer: bool, s: Site)
    requires NormalizeNode(host, fp, s.e).Success?
  {
    var n, fold := NormalizeNode(host, fp, s.e).value, FoldOf(host, fp, s.e);
    match fold
    case Kept => true
    case Evaluated(operands) => SoundLiteral(n) ==> SoundLiterals(operands)
    case Replaced(guards, _, _) =>
      || NeverEvaluates(host, outer, n, s.lift)
      || (SoundLiterals(guards) && AlwaysAccepted(host, outer, n, fold) && !(outer && s.lift && NeedsLift(n)))
  }

  ghost predicate NeverEvaluates(host: Host, outer: bool, e: Expr, lift: bool) {
    forall bind: BindContext, rt: Runtime | Admissible(host, outer, bind, rt) :: Eval(bind, rt, e, lift).Failure?
  }

  ghost predicate AlwaysAccepted(host: Host, outer: bool, e: Expr, fold: Fold)
    requires fold.Replaced?
  {
    forall bind: BindContext, rt: Runtime | Admissible(host, outer, bind, rt) :: AcceptedIn(bind, rt, e, fold)
  }

  ghost predicate AcceptedIn(bind: BindContext, rt: Runtime, e: Expr, fold: Fold)
    requires ValidBind(bind) && fold.Replaced?
  {
    var x := Eval(bind, rt, e, false);
    x.Success? ==> Accepts(fold, x.value)
  }

  /** In this context the normal form succeeds, fails and evaluates as its source does. */
  ghost predicate KeepsIn(bind: BindContext, rt: Runtime, fp: Fingerprint, s: Site)
    requires ValidBind(bind)
  {
    var n := NormalizeNode(rt.host, fp, s.e);
    n.Success? && SameOutcome(Eval(bind, rt, n.value, s.lift), Eval(bind, rt, s.e, s.lift))
  }

  ghost predicate AllKeepIn(bind: BindContext, rt: Runtime, fp: Fingerprint, es: seq<Expr>)
    requires ValidBind(bind)
  {
    forall i | 0 <= i < |es| :: KeepsIn(bind, rt, fp, Site(es[i], false))
  }

  ghost predicate Keeps(host: Host, fp: Fingerprint, outer: bool, s: Site) {
    forall bind: BindContext, rt: Runtime | Admissible(host, outer, bind, rt) :: KeepsIn(bind, rt, fp, s)
  }

  ghost predicate PartsKeepIn(bind: BindContext, rt: Runtime, fp: Fingerprint, e: Expr)
    requires ValidBind(bind)
  {
    match e
    case UnaryE(_, op, input) => KeepsIn(bind, rt, fp, Site(input, op == NullableLift))
    case BinaryE(_, op, left, right) =>
      && KeepsIn(bind, rt, fp, Site(left, false))
      && (TakesLeft(rt.host, op, left) || KeepsIn(bind, rt, fp, Site(right, false)))
    case MembershipE(_, input, candidates, _) =>
      KeepsIn(bind, rt, fp, Site(input, false)) && AllKeepIn(bind, rt, fp, candidates)
    case ConditionalE(_, condition, whenTrue, whenFalse) =>
      && KeepsIn(bind, rt, fp, Site(condition, false))
      && (Decided(rt.host, condition) in {None, Some(True)} ==> KeepsIn(bind, rt, fp, Site(whenTrue, false)))
      && (Decided(rt.host, condition) != Some(True) ==> KeepsIn(bind, rt, fp, Site(whenFalse, false)))
    case CallE(_, _, arguments) => AllKeepIn(bind, rt, fp, arguments)
    case _ => true
  }

  // ----- one node in one context -----

  /** Lists of operands that keep their outcomes one by one keep them together. */
  lemma OperandsKeep(bind: BindContext, rt: Runtime, fp: Fingerprint, es: seq<Expr>)
    requires ValidBind(bind) && AllKeepIn(bind, rt, fp, es)
    ensures NormalizeAll(rt.host, fp, es).Success?
    ensures SameOutcome(EvalAll(bind, rt, NormalizeAll(rt.host, fp, es).value), EvalAll(bind, rt, es))
  {
    hide NormalizeNode, Eval;
    NormalizeAllMeaning(rt.host, fp, es);
    assert forall i | 0 <= i < |es| :: KeepsIn(bind, rt, fp, Site(es[i], false));
    var ns := NormalizeAll(rt.host, fp, es).value;
    EvalAllMeaning(bind, rt, es);
    EvalAllMeaning(bind, rt, ns);
    if EvalAll(bind, rt, es).Success? && EvalAll(bind, rt, ns).Success? {
      assert EvalAll(bind, rt, es).value == EvalAll(bind, rt, ns).value;
    }
  }

  /** Literals evaluate exactly when their types accept them. */
  lemma LiteralsSound(bind: BindContext, rt: Runtime, es: seq<Expr>)
    requires ValidBind(bind) && AllLiterals(es)
    ensures EvalAll(bind, rt, es).Success? <==> SoundLiterals(es)
    ensures EvalAll(bind, rt, es).Success? ==> EvalAll(bind, rt, es).value == Data(es)
  {
    hide ValidDatum;
    EvalAllMeaning(bind, rt, es);
    assert forall i | 0 <= i < |es| :: Eval(bind, rt, es[i], false) == Checked(es[i].ty, es[i].datum);
  }

  lemma SoundJoins(es: seq<Expr>, fs: seq<Expr>)
    ensures SoundLiterals(es + fs) <==> SoundLiterals(es) && SoundLiterals(fs)
  {
    hide SoundLiteral;
    assert forall i | 0 <= i < |es| :: (es + fs)[i] == es[i];
    assert forall i | 0 <= i < |fs| :: (es + fs)[|es| + i] == fs[i];
  }

  lemma SoundOne(e: Expr)
    ensures SoundLiterals([e]) <==> SoundLiteral(e)
  {
    assert [e][0] == e;
  }

  lemma SoundTwo(e: Expr, f: Expr)
    ensures SoundLiterals([e, f]) <==> SoundLiteral(e) && SoundLiteral(f)
  {
    assert [e, f][0] == e && [e, f][1] == f;
  }

  lemma AcceptsMeaning(fold: Fold, datum: Datum)
    requires fold.Replaced?
    ensures |fold.types| == 1 ==>
              (Accepts(fold, datum) <==>
               ValidDatum(fold.types[0], Optional, datum) && (fold.isTruth ==> AsTruth(datum).Success?))
    ensures |fold.types| == 2 ==>
              (Accepts(fold, datum) <==>
               ValidDatum(fold.types[0], Optional, datum) && ValidDatum(fold.types[1], Optional, datum)
               && (fold.isTruth ==> AsTruth(datum).Success?))
  {
    hide ValidDatum;
  }

  /** Whether a folded node evaluates: what its operands and its result must satisfy. */
  ghost predicate SucceedsAsFolded(bind: BindContext, rt: Runtime, s: Site, n: Expr, operands: seq<Expr>)
    requires ValidBind(bind)
  {
    n.LiteralE? && (Eval(bind, rt, s.e, s.lift).Success? <==> SoundLiterals(operands) && SoundLiteral(n))
  }

  lemma UnaryEvaluated(bind: BindContext, rt: Runtime, fp: Fingerprint, s: Site)
    requires ValidBind(bind) && NormalizeNode(rt.host, fp, s.e).Success? && PartsKeepIn(bind, rt, fp, s.e)
    requires s.e.UnaryE? && FoldOf(rt.host, fp, s.e).Evaluated?
    ensures SucceedsAsFolded(bind, rt, s, NormalizeNode(rt.host, fp, s.e).value, FoldOf(rt.host, fp, s.e).operands)
  {
    hide EvalUnary, ValidDatum;
    SoundOne(NormalizeNode(rt.host, fp, s.e.input).value);
  }

  lemma BinaryEvaluated(bind: BindContext, rt: Runtime, fp: Fingerprint, s: Site)
    requires ValidBind(bind) && NormalizeNode(rt.host, fp, s.e).Success? && PartsKeepIn(bind, rt, fp, s.e)
    requires s.e.BinaryE? && FoldOf(rt.host, fp, s.e).Evaluated?
    ensures SucceedsAsFolded(bind, rt, s, NormalizeNode(rt.host, fp, s.e).value, FoldOf(rt.host, fp, s.e).operands)
  {
    hide EvalBinary, ValidDatum, SoundLiterals, Constant;
    LiteralWhenConstant(rt.host, fp, s.e.left);
    var l := NormalizeNode(rt.host, fp, s.e.left).value;
    SoundOne(l);
    if NormalizeNode(rt.host, fp, s.e.right).Success? {
      SoundTwo(l, NormalizeNode(rt.host, fp, s.e.right).value);
    }
  }

  lemma MembershipEvaluated(bind: BindContext, rt: Runtime, fp: Fingerprint, s: Site)
    requires ValidBind(bind) && NormalizeNode(rt.host, fp, s.e).Success? && PartsKeepIn(bind, rt, fp, s.e)
    requires s.e.MembershipE? && FoldOf(rt.host, fp, s.e).Evaluated?
    ensures SucceedsAsFolded(bind, rt, s, NormalizeNode(rt.host, fp, s.e).value, FoldOf(rt.host, fp, s.e).operands)
  {
    hide Membership, ValidDatum, SoundLiterals, NormalizeAll, EvalAll;
    var n := NormalizeNode(rt.host, fp, s.e.input).value;
    OperandsKeep(bind, rt, fp, s.e.candidates);
    var ns := NormalizeAll(rt.host, fp, s.e.candidates).value;
    LiteralsSound(bind, rt, ns);
    SortedLiterals(fp, ns);
    SameMembers(n.datum, ns, SortCandidates(fp, ns).value, s.e.negate);
    SoundJoins([n], ns);
    SoundOne(n);
  }

  lemma SortedLiterals(fp: Fingerprint, ns: seq<Expr>)
    requires SortCandidates(fp, ns).Success?
    ensures multiset(SortCandidates(fp, ns).value) == multiset(ns)
    ensures AllLiterals(SortCandidates(fp, ns).value) <==> AllLiterals(ns)
  {
    var sorted := SortCandidates(fp, ns).value;
    SortCandidatesPermutes(fp, ns);
    InSequence(sorted, ns);
    if AllLiterals(ns) {
      forall i | 0 <= i < |sorted| ensures sorted[i].LiteralE? { assert sorted[i] in ns; }
    }
    if AllLiterals(sorted) {
      forall i | 0 <= i < |ns| ensures ns[i].LiteralE? { assert ns[i] in sorted; }
    }
  }

  lemma CallEvaluated(bind: BindContext, rt: Runtime, fp: Fingerprint, s: Site)
    requires ValidBind(bind) && NormalizeNode(rt.host, fp, s.e).Success? && PartsKeepIn(bind, rt, fp, s.e)
    requires s.e.CallE? && FoldOf(rt.host, fp, s.e).Evaluated?
    ensures SucceedsAsFolded(bind, rt, s, NormalizeNode(rt.host, fp, s.e).value, FoldOf(rt.host, fp, s.e).operands)
  {
    hide ValidDatum, SoundLiterals;
    OperandsKeep(bind, rt, fp, s.e.arguments);
    LiteralsSound(bind, rt, NormalizeAll(rt.host, fp, s.e.arguments).value);
  }

  /** A node folded to a literal evaluates exactly when the operands and the result are accepted. */
  lemma EvaluatedSucceeds(bind: BindContext, rt: Runtime, fp: Fingerprint, s: Site)
    requires ValidBind(bind) && NormalizeNode(rt.host, fp, s.e).Success? && PartsKeepIn(bind, rt, fp, s.e)
    requires FoldOf(rt.host, fp, s.e).Evaluated?
    ensures SucceedsAsFolded(bind, rt, s, NormalizeNode(rt.host, fp, s.e).value, FoldOf(rt.host, fp, s.e).operands)
  {
    hide Eval, NormalizeNode, PartsKeepIn, SucceedsAsFolded;
    match s.e
    case UnaryE(_, _, _) => UnaryEvaluated(bind, rt, fp, s);
    case BinaryE(_, _, _, _) => BinaryEvaluated(bind, rt, fp, s);
    case MembershipE(_, _, _, _) => MembershipEvaluated(bind, rt, fp, s);
    case CallE(_, _, _) => CallEvaluated(bind, rt, fp, s);
    case _ =>
  }

  /** Whether a replaced node evaluates: its guards, the operand that stands for it and the checks left out. */
  ghost predicate SucceedsAsReplaced(bind: BindContext, rt: Runtime, s: Site, n: Expr, fold: Fold)
    requires ValidBind(bind) && fold.Replaced?
  {
    var x := Eval(bind, rt, n, false);
    Eval(bind, rt, s.e, s.lift).Success? <==> SoundLiterals(fold.guards) && x.Success? && Accepts(fold, x.value)
  }

  lemma NegationReplaced(bind: BindContext, rt: Runtime, fp: Fingerprint, s: Site)
    requires ValidBind(bind) && NormalizeNode(rt.host, fp, s.e).Success? && PartsKeepIn(bind, rt, fp, s.e)
    requires s.e.UnaryE? && FoldOf(rt.host, fp, s.e).Replaced?
    ensures SucceedsAsReplaced(bind, rt, s, NormalizeNode(rt.host, fp, s.e).value, FoldOf(rt.host, fp, s.e))
  {
    hide Accepts;
    var x := Eval(bind, rt, NormalizeNode(rt.host, fp, s.e).value, false);
    if x.Success? {
      AcceptsMeaning(FoldOf(rt.host, fp, s.e), x.value);
    }
  }

  lemma CoalesceReplaced(bind: BindContext, rt: Runtime, fp: Fingerprint, s: Site)
    requires ValidBind(bind) && NormalizeNode(rt.host, fp, s.e).Success? && PartsKeepIn(bind, rt, fp, s.e)
    requires s.e.BinaryE? && FoldOf(rt.host, fp, s.e).Replaced?
    ensures SucceedsAsReplaced(bind, rt, s, NormalizeNode(rt.host, fp, s.e).value, FoldOf(rt.host, fp, s.e))
  {
    hide Accepts, SoundLiterals, ValidDatum, Constant;
    LiteralWhenConstant(rt.host, fp, s.e.left);
    SoundOne(NormalizeNode(rt.host, fp, s.e.left).value);
    var x := Eval(bind, rt, NormalizeNode(rt.host, fp, s.e).value, false);
    if x.Success? {
      AcceptsMeaning(FoldOf(rt.host, fp, s.e), x.value);
    }
  }

  lemma ConditionalReplaced(bind: BindContext, rt: Runtime, fp: Fingerprint, s: Site)
    requires ValidBind(bind) && NormalizeNode(rt.host, fp, s.e).Success? && PartsKeepIn(bind, rt, fp, s.e)
    requires s.e.ConditionalE? && FoldOf(rt.host, fp, s.e).Replaced?
    ensures SucceedsAsReplaced(bind, rt, s, NormalizeNode(rt.host, fp, s.e).value, FoldOf(rt.host, fp, s.e))
  {
    hide Accepts, SoundLiterals, ValidDatum, Constant;
    LiteralWhenConstant(rt.host, fp, s.e.condition);
    SoundOne(NormalizeNode(rt.host, fp, s.e.condition).value);
    var x := Eval(bind, rt, NormalizeNode(rt.host, fp, s.e).value, false);
    if x.Success? {
      AcceptsMeaning(FoldOf(rt.host, fp, s.e), x.value);
    }
  }

  /** A node replaced by an operand evaluates exactly when its guards, the operand and its checks do. */
  lemma ReplacedSucceeds(bind: BindContext, rt: Runtime, fp: Fingerprint, s: Site)
    requires ValidBind(bind) && NormalizeNode(rt.host, fp, s.e).Success? && PartsKeepIn(bind, rt, fp, s.e)
    requires FoldOf(rt.host, fp, s.e).Replaced?
    ensures SucceedsAsReplaced(bind, rt, s, NormalizeNode(rt.host, fp, s.e).value, FoldOf(rt.host, fp, s.e))
  {
    hide Eval, NormalizeNode, PartsKeepIn, SucceedsAsReplaced;
    match s.e
    case UnaryE(_, _, _) => NegationReplaced(bind, rt, fp, s);
    case BinaryE(_, _, _, _) => CoalesceReplaced(bind, rt, fp, s);
    case ConditionalE(_, _, _, _) => ConditionalReplaced(bind, rt, fp, s);
    case _ =>
  }

  lemma MembershipKept(bind: BindContext, rt: Runtime, fp: Fingerprint, s: Site)
    requires ValidBind(bind) && NormalizeNode(rt.host, fp, s.e).Success? && PartsKeepIn(bind, rt, fp, s.e)
    requires s.e.MembershipE? && FoldOf(rt.host, fp, s.e).Kept?
    ensures KeepsIn(bind, rt, fp, s)
  {
    hide Membership, ValidDatum, NormalizeAll, EvalAll;
    OperandsKeep(bind, rt, fp, s.e.candidates);
    var ns := NormalizeAll(rt.host, fp, s.e.candidates).value;
    var sorted := SortCandidates(fp, ns).value;
    SortedLiterals(fp, ns);
    var x := Eval(bind, rt, NormalizeNode(rt.host, fp, s.e.input).value, false);
    if x.Success? && EvalAll(bind, rt, ns).Success? {
      MembershipOfSame(bind, rt, x.value, ns, sorted, s.e.negate);
    }
    if x.Success? && EvalAll(bind, rt, sorted).Success? {
      MembershipOfSame(bind, rt, x.value, sorted, ns, s.e.negate);
    }
  }

  lemma BinaryKept(bind: BindContext, rt: Runtime, fp: Fingerprint, s: Site)
    requires ValidBind(bind) && NormalizeNode(rt.host, fp, s.e).Success? && PartsKeepIn(bind, rt, fp, s.e)
    requires s.e.BinaryE? && FoldOf(rt.host, fp, s.e).Kept?
    ensures KeepsIn(bind, rt, fp, s)
  {
    hide EvalBinary, ValidDatum, Constant;
    LiteralWhenConstant(rt.host, fp, s.e.left);
  }

  lemma ConditionalKept(bind: BindContext, rt: Runtime, fp: Fingerprint, s: Site)
    requires ValidBind(bind) && NormalizeNode(rt.host, fp, s.e).Success? && PartsKeepIn(bind, rt, fp, s.e)
    requires s.e.ConditionalE? && FoldOf(rt.host, fp, s.e).Kept?
    ensures KeepsIn(bind, rt, fp, s)
  {
    hide ValidDatum, Constant;
    LiteralWhenConstant(rt.host, fp, s.e.condition);
  }

  lemma CallKept(bind: BindContext, rt: Runtime, fp: Fingerprint, s: Site)
    requires ValidBind(bind) && NormalizeNode(rt.host, fp, s.e).Success? && PartsKeepIn(bind, rt, fp, s.e)
    requires s.e.CallE? && FoldOf(rt.host, fp, s.e).Kept?
    ensures KeepsIn(bind, rt, fp, s)
  {
    hide ValidDatum;
    OperandsKeep(bind, rt, fp, s.e.arguments);
  }

  /** A node the pass keeps keeps its outcome. */
  lemma KeptKeeps(bind: BindContext, rt: Runtime, fp: Fingerprint, s: Site)
    requires ValidBind(bind) && NormalizeNode(rt.host, fp, s.e).Success? && PartsKeepIn(bind, rt, fp, s.e)
    requires FoldOf(rt.host, fp, s.e).Kept?
    ensures KeepsIn(bind, rt, fp, s)
  {
    hide EvalUnary, ValidDatum;
    match s.e
    case BinaryE(_, _, _, _) => BinaryKept(bind, rt, fp, s);
    case MembershipE(_, _, _, _) => MembershipKept(bind, rt, fp, s);
    case ConditionalE(_, _, _, _) => ConditionalKept(bind, rt, fp, s);
    case CallE(_, _, _) => CallKept(bind, rt, fp, s);
    case _ =>
  }

  // ----- one node in every context -----

  /** A lift changes only what a field reads that needs it, and only below a nullable scope. */
  lemma LiftMatters(host: Host, outer: bool, bind: BindContext, rt: Runtime, e: Expr, lift: bool)
    requires Admissible(host, outer, bind, rt) && !(outer && lift && NeedsLift(e))
    ensures Eval(bind, rt, e, lift) == Eval(bind, rt, e, false)
  {
  }

  lemma SourceKept(bind: BindContext, rt: Runtime, fp: Fingerprint, s: Site)
    requires ValidBind(bind) && NormalizeNode(rt.host, fp, s.e).Success?
    ensures KeepsIn(bind, rt, fp, s) <==>
            (Eval(bind, rt, NormalizeNode(rt.host, fp, s.e).value, s.lift).Success? ==>
             Eval(bind, rt, s.e, s.lift).Success?)
  {
    hide Eval, NormalizeNode;
    if Eval(bind, rt, s.e, s.lift).Success? {
      NormalizePreserves(bind, rt, fp, s.e, s.lift, s.lift);
    }
  }

  function NoContext(): BindContext { BindContext([], [], [], map[]) }

  function NoRuntime(host: Host): Runtime {
    Runtime(host, EvalContext([], [], map[]), (_: nat) => Failure(""))
  }

  lemma KeptNode(host: Host, fp: Fingerprint, outer: bool, s: Site)
    requires NormalizeNode(host, fp, s.e).Success? && FoldOf(host, fp, s.e).Kept? && PartsKeep(host, fp, outer, s.e)
    ensures Keeps(host, fp, outer, s)
  {
    hide KeepsIn, FoldOf, NormalizeNode, PartsKeepIn;
    forall bind: BindContext, rt: Runtime | Admissible(host, outer, bind, rt) ensures KeepsIn(bind, rt, fp, s) {
      KeptKeeps(bind, rt, fp, s);
    }
  }

  ghost predicate PartsKeep(host: Host, fp: Fingerprint, outer: bool, e: Expr) {
    forall bind: BindContext, rt: Runtime | Admissible(host, outer, bind, rt) :: PartsKeepIn(bind, rt, fp, e)
  }

  lemma EvaluatedNode(host: Host, fp: Fingerprint, outer: bool, s: Site)
    requires NormalizeNode(host, fp, s.e).Success? && FoldOf(host, fp, s.e).Evaluated?
               && PartsKeep(host, fp, outer, s.e)
    ensures Keeps(host, fp, outer, s) <==> FoldSound(host, fp, outer, s)
  {
    hide FoldOf, NormalizeNode, PartsKeepIn, SoundLiterals;
    var n := NormalizeNode(host, fp, s.e).value;
    forall bind: BindContext, rt: Runtime | Admissible(host, outer, bind, rt)
      ensures KeepsIn(bind, rt, fp, s) <==> FoldSound(host, fp, outer, s)
    {
      EvaluatedSucceeds(bind, rt, fp, s);
      SourceKept(bind, rt, fp, s);
      assert Eval(bind, rt, n, s.lift) == Checked(n.ty, n.datum);
    }
    assert Admissible(host, outer, NoContext(), NoRuntime(host));
  }

  lemma ReplacedKept(host: Host, fp: Fingerprint, outer: bool, s: Site, bind: BindContext, rt: Runtime)
    requires NormalizeNode(host, fp, s.e).Success? && FoldOf(host, fp, s.e).Replaced? && PartsKeep(host, fp, outer, s.e)
    requires FoldSound(host, fp, outer, s) && Admissible(host, outer, bind, rt)
    ensures KeepsIn(bind, rt, fp, s)
  {
    hide FoldOf, NormalizeNode, PartsKeepIn, SoundLiterals, Eval, Accepts, KeepsIn, NeedsLift;
    var n := NormalizeNode(host, fp, s.e).value;
    SourceKept(bind, rt, fp, s);
    if Eval(bind, rt, n, s.lift).Success? {
      ReplacedSucceeds(bind, rt, fp, s);
      LiftMatters(host, outer, bind, rt, n, s.lift);
      assert AcceptedIn(bind, rt, n, FoldOf(host, fp, s.e));
    }
  }

  /** Where a replaced node keeps its outcome, the operand passes the checks the node made. */
  lemma ReplacedChecked(host: Host, fp: Fingerprint, outer: bool, s: Site, bind: BindContext, rt: Runtime)
    requires NormalizeNode(host, fp, s.e).Success? && FoldOf(host, fp, s.e).Replaced? && PartsKeep(host, fp, outer, s.e)
    requires Keeps(host, fp, outer, s) && Admissible(host, outer, bind, rt)
    ensures var n, fold := NormalizeNode(host, fp, s.e).value, FoldOf(host, fp, s.e);
            Eval(bind, rt, n, s.lift).Success? ==>
              SoundLiterals(fold.guards) && Eval(bind, rt, n, false).Success? && AcceptedIn(bind, rt, n, fold)
  {
    hide FoldOf, NormalizeNode, PartsKeepIn, SoundLiterals, Eval, Accepts;
    assert KeepsIn(bind, rt, fp, s);
    ReplacedSucceeds(bind, rt, fp, s);
  }

  /** A model with the field, its only row null-extended: there the field evaluates under a lift and not without. */
  lemma LiftedField(host: Host, e: Expr)
    requires NeedsLift(e)
    ensures exists bind: BindContext, rt: Runtime ::
              Admissible(host, true, bind, rt) && Eval(bind, rt, e, true).Success? && Eval(bind, rt, e, false).Failure?
  {
    var model := ModelDef(e.ref.model, [FieldDef(e.ref.key, e.ty, Optional)], None, [], []);
    var bind := BindContext([model], [e.ref.scope], [true], map[]);
    var rt := Runtime(host, EvalContext([Row(model, [Missing])], [true], map[]), (_: nat) => Failure(""));
    assert ResolveFrom(bind, e.ref, 1, Some(0)) == Success(0);
    assert ResolveFrom(bind, e.ref, 0, None) == Success(0);
    assert FieldSlot(model, e.ref.key) == Some(0);
    assert Admissible(host, true, bind, rt) && Eval(bind, rt, e, true).Success? && Eval(bind, rt, e, false).Failure?;
  }

  lemma ReplacedSound(host: Host, fp: Fingerprint, outer: bool, s: Site)
    requires NormalizeNode(host, fp, s.e).Success? && FoldOf(host, fp, s.e).Replaced? && PartsKeep(host, fp, outer, s.e)
    requires Keeps(host, fp, outer, s)
    ensures FoldSound(host, fp, outer, s)
  {
    hide FoldOf, NormalizeNode, PartsKeep, SoundLiterals, Eval, Accepts, AcceptedIn, Keeps, NeedsLift;
    var n, fold := NormalizeNode(host, fp, s.e).value, FoldOf(host, fp, s.e);
    if !NeverEvaluates(host, outer, n, s.lift) {
      var bind: BindContext, rt: Runtime :| Admissible(host, outer, bind, rt) && Eval(bind, rt, n, s.lift).Success?;
      ReplacedChecked(host, fp, outer, s, bind, rt);
      forall bind: BindContext, rt: Runtime | Admissible(host, outer, bind, rt) ensures AcceptedIn(bind, rt, n, fold) {
        ReplacedAccepts(host, fp, outer, s, bind, rt);
      }
      if outer && s.lift && NeedsLift(n) {
        LiftedField(host, n);
        var bind: BindContext, rt: Runtime :|
          Admissible(host, true, bind, rt) && Eval(bind, rt, n, true).Success? && Eval(bind, rt, n, false).Failure?;
        ReplacedChecked(host, fp, outer, s, bind, rt);
      }
    }
  }

  lemma ReplacedAccepts(host: Host, fp: Fingerprint, outer: bool, s: Site, bind: BindContext, rt: Runtime)
    requires NormalizeNode(host, fp, s.e).Success? && FoldOf(host, fp, s.e).Replaced? && PartsKeep(host, fp, outer, s.e)
    requires Keeps(host, fp, outer, s) && Admissible(host, outer, bind, rt)
    ensures AcceptedIn(bind, rt, NormalizeNode(host, fp, s.e).value, FoldOf(host, fp, s.e))
  {
    hide FoldOf, NormalizeNode, PartsKeep, SoundLiterals, Eval, Accepts, Keeps;
    var n := NormalizeNode(host, fp, s.e).value;
    if Eval(bind, rt, n, false).Success? {
      LiftMonotone(bind, rt, n, false, s.lift);
      ReplacedChecked(host, fp, outer, s, bind, rt);
    }
  }

  /** Once its operands keep their outcomes, a node keeps its own exactly when its fold is sound. */
  lemma NodeKeeps(host: Host, fp: Fingerprint, outer: bool, s: Site)
    requires NormalizeNode(host, fp, s.e).Success? && PartsKeep(host, fp, outer, s.e)
    ensures Keeps(host, fp, outer, s) <==> FoldSound(host, fp, outer, s)
  {
    hide NormalizeNode, PartsKeep, KeepsIn, FoldOf;
    match FoldOf(host, fp, s.e)
    case Kept => KeptNode(host, fp, outer, s);
    case Evaluated(_) => EvaluatedNode(host, fp, outer, s);
    case Replaced(_, _, _) =>
      hide FoldSound;
      if Keeps(host, fp, outer, s) {
        ReplacedSound(host, fp, outer, s);
      }
      if FoldSound(host, fp, outer, s) {
        forall bind: BindContext, rt: Runtime | Admissible(host, outer, bind, rt) ensures KeepsIn(bind, rt, fp, s) {
          ReplacedKept(host, fp, outer, s, bind, rt);
        }
      }
  }

  // ----- whole expressions -----

  ghost predicate AllKeep(host: Host, fp: Fingerprint, outer: bool, sites: seq<Site>) {
    forall i | 0 <= i < |sites| :: Keeps(host, fp, outer, sites[i])
  }

  ghost predicate AllSound(host: Host, fp: Fingerprint, outer: bool, sites: seq<Site>) {
    forall i | 0 <= i < |sites| ::
      NormalizeNode(host, fp, sites[i].e).Success? && FoldSound(host, fp, outer, sites[i])
  }

  lemma AllJoin(host: Host, fp: Fingerprint, outer: bool, a: seq<Site>, b: seq<Site>)
    ensures AllKeep(host, fp, outer, a + b) <==> AllKeep(host, fp, outer, a) && AllKeep(host, fp, outer, b)
    ensures AllSound(host, fp, outer, a + b) <==> AllSound(host, fp, outer, a) && AllSound(host, fp, outer, b)
  {
    hide Keeps, FoldSound, NormalizeNode;
    assert forall i | 0 <= i < |a| :: (a + b)[i] == a[i];
    assert forall i | 0 <= i < |b| :: (a + b)[|a| + i] == b[i];
  }

  /** What a failed normalization leaves without a normal form keeps nothing. */
  lemma KeepsNormalizes(host: Host, fp: Fingerprint, outer: bool, s: Site)
    requires Keeps(host, fp, outer, s)
    ensures NormalizeNode(host, fp, s.e).Success?
  {
    hide NormalizeNode, Eval;
    assert Admissible(host, outer, NoContext(), NoRuntime(host));
    assert KeepsIn(NoContext(), NoRuntime(host), fp, s);
  }

  lemma VisitedFirst(host: Host, fp: Fingerprint, outer: bool, e: Expr, lift: bool)
    requires AllKeep(host, fp, outer, Visited(host, e, lift))
    ensures Keeps(host, fp, outer, Site(e, lift))
  {
    hide Keeps;
    assert Visited(host, e, lift)[0] == Site(e, lift);
  }

  lemma {:induction false} VisitedOperands(host: Host, fp: Fingerprint, outer: bool, es: seq<Expr>)
    requires AllKeep(host, fp, outer, VisitedAll(host, es))
    ensures forall i | 0 <= i < |es| :: Keeps(host, fp, outer, Site(es[i], false))
  {
    hide Keeps, Visited;
    if es != [] {
      AllJoin(host, fp, outer, Visited(host, es[0], false), VisitedAll(host, es[1..]));
      VisitedFirst(host, fp, outer, es[0], false);
      VisitedOperands(host, fp, outer, es[1..]);
      assert forall i | 0 < i < |es| :: es[i] == es[1..][i - 1];
    }
  }

  /** The operands of a node keep their outcomes when everything visited below the node does. */
  lemma PartsVisited(host: Host, fp: Fingerprint, outer: bool, e: Expr, lift: bool)
    requires AllKeep(host, fp, outer, Visited(host, e, lift)[1..])
    ensures PartsKeep(host, fp, outer, e)
  {
    hide AllKeep, Keeps, Decided, TakesLeft, KeepsIn;
    match e
    case UnaryE(_, op, input) =>
      VisitedFirst(host, fp, outer, input, op == NullableLift);
      KeepsEverywhere(host, fp, outer, Site(input, op == NullableLift));
    case BinaryE(_, op, left, right) =>
      AllJoin(host, fp, outer, Visited(host, left, false), Visited(host, right, false));
      AllJoin(host, fp, outer, Visited(host, left, false), []);
      VisitedFirst(host, fp, outer, left, false);
      KeepsEverywhere(host, fp, outer, Site(left, false));
      if !TakesLeft(host, op, left) {
        VisitedFirst(host, fp, outer, right, false);
        KeepsEverywhere(host, fp, outer, Site(right, false));
      }
    case MembershipE(_, input, candidates, _) =>
      AllJoin(host, fp, outer, Visited(host, input, false), VisitedAll(host, candidates));
      VisitedFirst(host, fp, outer, input, false);
      KeepsEverywhere(host, fp, outer, Site(input, false));
      OperandsEverywhere(host, fp, outer, candidates);
    case ConditionalE(_, condition, whenTrue, whenFalse) =>
      ConditionalVisited(host, fp, outer, e, lift);
    case CallE(_, _, arguments) =>
      OperandsEverywhere(host, fp, outer, arguments);
    case _ =>
  }

  lemma KeepsEverywhere(host: Host, fp: Fingerprint, outer: bool, s: Site)
    requires Keeps(host, fp, outer, s)
    ensures forall bind: BindContext, rt: Runtime | Admissible(host, outer, bind, rt) :: KeepsIn(bind, rt, fp, s)
  {
  }

  lemma OperandsEverywhere(host: Host, fp: Fingerprint, outer: bool, es: seq<Expr>)
    requires AllKeep(host, fp, outer, VisitedAll(host, es))
    ensures forall bind: BindContext, rt: Runtime | Admissible(host, outer, bind, rt) :: AllKeepIn(bind, rt, fp, es)
  {
    hide KeepsIn;
    VisitedOperands(host, fp, outer, es);
    forall bind: BindContext, rt: Runtime | Admissible(host, outer, bind, rt) ensures AllKeepIn(bind, rt, fp, es) {
      forall i | 0 <= i < |es| ensures KeepsIn(bind, rt, fp, Site(es[i], false)) {
        assert Keeps(host, fp, outer, Site(es[i], false));
      }
    }
  }

  lemma ConditionalVisited(host: Host, fp: Fingerprint, outer: bool, e: Expr, lift: bool)
    requires e.ConditionalE? && AllKeep(host, fp, outer, Visited(host, e, lift)[1..])
    ensures PartsKeep(host, fp, outer, e)
  {
    hide AllKeep, Keeps, Decided, KeepsIn;
    var c, t, f :=
      Visited(host, e.condition, false), Visited(host, e.whenTrue, false), Visited(host, e.whenFalse, false);
    AllJoin(host, fp, outer, c, t + f);
    AllJoin(host, fp, outer, c, t);
    AllJoin(host, fp, outer, c, f);
    AllJoin(host, fp, outer, t, f);
    VisitedFirst(host, fp, outer, e.condition, false);
    KeepsEverywhere(host, fp, outer, Site(e.condition, false));
    if Decided(host, e.condition) in {None, Some(True)} {
      VisitedFirst(host, fp, outer, e.whenTrue, false);
      KeepsEverywhere(host, fp, outer, Site(e.whenTrue, false));
    }
    if Decided(host, e.condition) != Some(True) {
      VisitedFirst(host, fp, outer, e.whenFalse, false);
      KeepsEverywhere(host, fp, outer, Site(e.whenFalse, false));
    }
  }

  /** The claim for what is visited below a node. */
  lemma {:induction false} PartsReflect(host: Host, fp: Fingerprint, outer: bool, e: Expr, lift: bool)
    ensures AllKeep(host, fp, outer, Visited(host, e, lift)[1..]) <==>
              AllSound(host, fp, outer, Visited(host, e, lift)[1..])
    decreases e, 1
  {
    hide AllKeep, AllSound, Decided, TakesLeft;
    AllNone(host, fp, outer);
    match e
    case UnaryE(_, op, input) => NormalizeReflectsExactly(host, fp, outer, input, op == NullableLift);
    case BinaryE(_, op, left, right) =>
      NormalizeReflectsExactly(host, fp, outer, left, false);
      NormalizeReflectsExactly(host, fp, outer, right, false);
      AllJoin(host, fp, outer, Visited(host, left, false), Visited(host, right, false));
      AllJoin(host, fp, outer, Visited(host, left, false), []);
    case MembershipE(_, input, candidates, _) =>
      NormalizeReflectsExactly(host, fp, outer, input, false);
      OperandsReflect(host, fp, outer, candidates);
      AllJoin(host, fp, outer, Visited(host, input, false), VisitedAll(host, candidates));
    case ConditionalE(_, condition, whenTrue, whenFalse) =>
      NormalizeReflectsExactly(host, fp, outer, condition, false);
      NormalizeReflectsExactly(host, fp, outer, whenTrue, false);
      NormalizeReflectsExactly(host, fp, outer, whenFalse, false);
      var c, t, f := Visited(host, condition, false), Visited(host, whenTrue, false), Visited(host, whenFalse, false);
      AllJoin(host, fp, outer, c, t + f);
      AllJoin(host, fp, outer, c, t);
      AllJoin(host, fp, outer, c, f);
      AllJoin(host, fp, outer, t, f);
    case CallE(_, _, arguments) => OperandsReflect(host, fp, outer, arguments);
    case _ =>
  }

  lemma AllNone(host: Host, fp: Fingerprint, outer: bool)
    ensures AllKeep(host, fp, outer, []) && AllSound(host, fp, outer, [])
  {
  }

  lemma AllOne(host: Host, fp: Fingerprint, outer: bool, s: Site)
    ensures AllKeep(host, fp, outer, [s]) <==> Keeps(host, fp, outer, s)
    ensures AllSound(host, fp, outer, [s]) <==> NormalizeNode(host, fp, s.e).Success? && FoldSound(host, fp, outer, s)
  {
    hide Keeps, FoldSound, NormalizeNode;
    assert [s][0] == s;
  }

  /**
   * Every visited subexpression fails and succeeds as its normal form does, in every admissible
   * context, exactly when the fold at every visited subexpression is sound.
   */
  lemma {:induction false} NormalizeReflectsExactly(host: Host, fp: Fingerprint, outer: bool, e: Expr, lift: bool)
    ensures AllKeep(host, fp, outer, Visited(host, e, lift)) <==> AllSound(host, fp, outer, Visited(host, e, lift))
    decreases e, 2
  {
    hide AllKeep, AllSound, Keeps, FoldSound, NormalizeNode, PartsKeep;
    var s, rest := Site(e, lift), Visited(host, e, lift)[1..];
    assert Visited(host, e, lift) == [s] + rest;
    AllJoin(host, fp, outer, [s], rest);
    AllOne(host, fp, outer, s);
    PartsReflect(host, fp, outer, e, lift);
    if AllKeep(host, fp, outer, rest) {
      PartsVisited(host, fp, outer, e, lift);
      if NormalizeNode(host, fp, e).Success? {
        NodeKeeps(host, fp, outer, s);
      } else if Keeps(host, fp, outer, s) {
        KeepsNormalizes(host, fp, outer, s);
      }
    }
  }

  lemma {:induction false} OperandsReflect(host: Host, fp: Fingerprint, outer: bool, es: seq<Expr>)
    ensures AllKeep(host, fp, outer, VisitedAll(host, es)) <==> AllSound(host, fp, outer, VisitedAll(host, es))
    decreases es, 0
  {
    hide AllKeep, AllSound, Visited;
    if es == [] {
      AllNone(host, fp, outer);
    } else {
      NormalizeReflectsExactly(host, fp, outer, es[0], false);
      OperandsReflect(host, fp, outer, es[1..]);
      AllJoin(host, fp, outer, Visited(host, es[0], false), VisitedAll(host, es[1..]));
    }
  }

  // ----- a condition on the tree alone -----

  /** Nodes that can only evaluate to a truth value. */
  predicate AlwaysTruth(e: Expr) {
    match e
    case UnaryE(_, op, _) => op in {Not, IsNull, IsMissing, IsPresent}
    case BinaryE(_, op, _, _) => op in {Eq, Ne, Lt, Le, Gt, Ge, And, Or, IsDistinctFrom, IsNotDistinctFrom}
    case MembershipE(_, _, _, _) => true
    case ExistsE(_, _) => true
    case _ => false
  }

  /** Soundness told from normal forms and their types, without evaluating anything. */
  predicate PlainlySound(host: Host, fp: Fingerprint, outer: bool, s: Site) {
    var n := NormalizeNode(host, fp, s.e);
    && n.Success?
    && match FoldOf(host, fp, s.e)
       case Kept => true
       case Evaluated(operands) => SoundLiteral(n.value) ==> SoundLiterals(operands)
       case Replaced(guards, types, isTruth) =>
         && SoundLiterals(guards)
         && (forall i | 0 <= i < |types| :: types[i] == n.value.ty)
         && (isTruth ==> AlwaysTruth(n.value))
         && !(outer && s.lift && NeedsLift(n.value))
  }

  lemma {:induction false} TruthEvaluates(bind: BindContext, rt: Runtime, e: Expr)
    requires ValidBind(bind)
    requires Eval(bind, rt, e, false).Success? && AlwaysTruth(e)
    ensures AsTruth(Eval(bind, rt, e, false).value).Success?
  {
    hide ValidDatum, EvalAll;
    if e.MembershipE? {
      var x := Eval(bind, rt, e.input, false).value;
      var ys := EvalAll(bind, rt, e.candidates).value;
      MembershipMeaning(x, ys, e.negate, false);
    }
  }

  lemma {:induction false} EvalConforms(bind: BindContext, rt: Runtime, e: Expr)
    requires ValidBind(bind)
    requires Eval(bind, rt, e, false).Success?
    ensures ValidDatum(e.ty, Optional, Eval(bind, rt, e, false).value)
  {
    hide EvalUnary, EvalBinary, Membership, EvalAll, ValidValue;
  }

  lemma PlainFoldsSound(host: Host, fp: Fingerprint, outer: bool, s: Site)
    requires PlainlySound(host, fp, outer, s)
    ensures FoldSound(host, fp, outer, s)
  {
    hide Eval, NormalizeNode, FoldOf, AlwaysTruth, SoundLiterals, SoundLiteral, ValidDatum;
    var n, fold := NormalizeNode(host, fp, s.e).value, FoldOf(host, fp, s.e);
    if fold.Replaced? {
      forall bind: BindContext, rt: Runtime | Admissible(host, outer, bind, rt) ensures AcceptedIn(bind, rt, n, fold) {
        if Eval(bind, rt, n, false).Success? {
          EvalConforms(bind, rt, n);
          if fold.isTruth { TruthEvaluates(bind, rt, n); }
        }
      }
    }
  }

  /** A normal form fails exactly where its source does, if the fold at every visited part is plainly sound. */
  lemma NormalizeReflects(bind: BindContext, rt: Runtime, fp: Fingerprint, outer: bool, e: Expr, lift: bool)
    requires Admissible(rt.host, outer, bind, rt)
    requires forall s | s in Visited(rt.host, e, lift) :: PlainlySound(rt.host, fp, outer, s)
    ensures NormalizeNode(rt.host, fp, e).Success?
    ensures SameOutcome(Eval(bind, rt, NormalizeNode(rt.host, fp, e).value, lift), Eval(bind, rt, e, lift))
  {
    hide PlainlySound, FoldSound, Keeps, Eval, Visited, NormalizeNode;
    var sites := Visited(rt.host, e, lift);
    forall i | 0 <= i < |sites|
      ensures NormalizeNode(rt.host, fp, sites[i].e).Success? && FoldSound(rt.host, fp, outer, sites[i])
    {
      assert sites[i] in sites;
      PlainlyNormalizes(rt.host, fp, outer, sites[i]);
      PlainFoldsSound(rt.host, fp, outer, sites[i]);
    }
    NormalizeReflectsExactly(rt.host, fp, outer, e, lift);
    VisitedFirst(rt.host, fp, outer, e, lift);
    KeepsEverywhere(rt.host, fp, outer, Site(e, lift));
    assert KeepsIn(bind, rt, fp, Site(e, lift));
  }

  lemma PlainlyNormalizes(host: Host, fp: Fingerprint, outer: bool, s: Site)
    requires PlainlySound(host, fp, outer, s)
    ensures NormalizeNode(host, fp, s.e).Success?
  {
  }

  // ----- the erasures left -----

  /** Leaving out two negations erases the failure of negating what is no truth. */
  lemma NegationErasesFailure(bind: BindContext, rt: Runtime, fp: Fingerprint, p: string)
    requires ValidBind(bind)
    requires p in rt.ctx.parameters && rt.ctx.parameters[p] == BoundParameter(TRUTH_TYPE, Missing)
    ensures var z := ParameterE(TRUTH_TYPE, p);
            var e := UnaryE(TRUTH_TYPE, Not, UnaryE(TRUTH_TYPE, Not, z));
            && Eval(bind, rt, e, false).Failure?
            && NormalizeNode(rt.host, fp, e) == Success(z)
            && Eval(bind, rt, z, false) == Success(Missing)
  {
    var z := ParameterE(TRUTH_TYPE, p);
    assert Eval(bind, rt, z, false) == Success(Missing);
    assert NormalizeNode(rt.host, fp, UnaryE(TRUTH_TYPE, Not, z)) == Success(UnaryE(TRUTH_TYPE, Not, z));
  }

  /** A choice that is always the first branch. */
  function Chosen(e: Expr): Expr { ConditionalE(e.ty, LiteralE(TRUTH_TYPE, TruthOf(true)), e, e) }

  /** Taking a branch can bring a field under a nullable lift it was not under, and erase the scope error. */
  lemma LiftErasesFailure(host: Host, fp: Fingerprint, ref: FieldRef)
    ensures var ty := I8.(nullable := true);
            var e := UnaryE(ty, NullableLift, Chosen(FieldE(I8, ref)));
            && NormalizeNode(host, fp, e) == Success(UnaryE(ty, NullableLift, FieldE(I8, ref)))
            && exists bind: BindContext, rt: Runtime ::
                 && Admissible(host, true, bind, rt)
                 && Eval(bind, rt, e, false).Failure?
                 && Eval(bind, rt, UnaryE(ty, NullableLift, FieldE(I8, ref)), false).Success?
  {
    hide Eval, EvalBinary;
    var ty, field := I8.(nullable := true), FieldE(I8, ref);
    var condition := LiteralE(TRUTH_TYPE, TruthOf(true));
    assert NormalizeNode(host, fp, condition) == Success(condition);
    assert NormalizeNode(host, fp, Chosen(field)) == Success(field);
    LiftedField(host, field);
    var bind: BindContext, rt: Runtime :|
      Admissible(host, true, bind, rt) && Eval(bind, rt, field, true).Success? && Eval(bind, rt, field, false).Failure?;
    LiftEvaluates(bind, rt, field, ty);
  }

  lemma LiftEvaluates(bind: BindContext, rt: Runtime, field: Expr, ty: TypeDef)
    requires ValidBind(bind) && field.FieldE? && field.ty == I8 && ty == I8.(nullable := true)
    requires Eval(bind, rt, field, true).Success? && Eval(bind, rt, field, false).Failure?
    ensures Eval(bind, rt, UnaryE(ty, NullableLift, field), false).Success?
    ensures Eval(bind, rt, UnaryE(ty, NullableLift, Chosen(field)), false).Failure?
  {
    hide BindField;
    assert Eval(bind, rt, Chosen(field), true).Failure?;
  }
}
