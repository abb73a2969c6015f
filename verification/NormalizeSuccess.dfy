/// When normalization succeeds (dol-core `expr/normalize.rs`): the folds the pass reaches, told
/// by a constant evaluation that builds no tree.

module NormalizeSuccess {
  import opened Results
  import opened Semantics
  import opened Models
  import opened Expressions
  import opened KeyedSort
  import opened Normalize
  import NormalForms

  // ----- what is constant and what is visited -----

  /** The datum an expression has whatever the context, before any type is checked. */
  function Constant(host: Host, e: Expr): Option<Datum>
    decreases e, 1
  {
    match e
    case LiteralE(_, datum) => Some(datum)
    case UnaryE(ty, op, input) =>
      var x := Constant(host, input);
      if x.None? then None else Known(EvalUnary(op, x.value, ty))
    case BinaryE(_, op, left, right) =>
      var x, y := Constant(host, left), Constant(host, right);
      if op == Coalesce && x.Some? then (if x.value.Val? then x else y)
      else if x.None? || y.None? then None
      else Known(EvalBinary(host, op, x.value, y.value))
    case MembershipE(_, input, candidates, negate) =>
      var x, ys := Constant(host, input), Constants(host, candidates);
      if x.None? || ys.None? then None else Some(Membership(x.value, ys.value, negate, false))
    case ConditionalE(_, condition, whenTrue, whenFalse) =>
      var t := Decided(host, condition);
      if t.None? then None
      else if t.value == True then Constant(host, whenTrue) else Constant(host, whenFalse)
    case CallE(ty, f, arguments) =>
      var xs := Constants(host, arguments);
      if !f.deterministic || xs.None? then None else Known(host.call(f, xs.value, ty))
    case _ => None
  }

  function Constants(host: Host, es: seq<Expr>): (r: Option<seq<Datum>>)
    ensures r.Some? ==> |r.value| == |es|
    decreases es, 0
  {
    if es == [] then Some([])
    else
      var x, xs := Constant(host, es[0]), Constants(host, es[1..]);
      if x.None? || xs.None? then None else Some([x.value] + xs.value)
  }

  function Known(r: Result<Datum>): Option<Datum> {
    if r.Success? then Some(r.value) else None
  }

  /** The truth a constant condition decides by. */
  function Decided(host: Host, condition: Expr): Option<Truth>
    decreases condition, 2
  {
    var x := Constant(host, condition);
    if x.Some? && AsTruth(x.value).Success? then Some(AsTruth(x.value).value) else None
  }

  /** An expression in its position: under a nullable lift or not. */
  datatype Site = Site(e: Expr, lift: bool)

  /** Every subexpression the pass visits: a constant left operand or condition hides what it decides against. */
  function Visited(host: Host, e: Expr, lift: bool): seq<Site>
    decreases e, 1
  {
    [Site(e, lift)] +
    match e
    case UnaryE(_, op, input) => Visited(host, input, op == NullableLift)
    case BinaryE(_, op, left, right) =>
      Visited(host, left, false) + (if TakesLeft(host, op, left) then [] else Visited(host, right, false))
    case MembershipE(_, input, candidates, _) => Visited(host, input, false) + VisitedAll(host, candidates)
    case ConditionalE(_, condition, whenTrue, whenFalse) =>
      Visited(host, condition, false)
      + (if Decided(host, condition).None? then Visited(host, whenTrue, false) + Visited(host, whenFalse, false)
         else if Decided(host, condition) == Some(True) then Visited(host, whenTrue, false)
         else Visited(host, whenFalse, false))
    case CallE(_, _, arguments) => VisitedAll(host, arguments)
    case _ => []
  }

  function VisitedAll(host: Host, es: seq<Expr>): seq<Site>
    decreases es, 0
  {
    if es == [] then [] else Visited(host, es[0], false) + VisitedAll(host, es[1..])
  }

  predicate TakesLeft(host: Host, op: BinaryOp, left: Expr) {
    op == Coalesce && Constant(host, left).Some? && Constant(host, left).value.Val?
  }

  /** The guards of the failing branches: an operator or call rejects constants, or a candidate has no fingerprint. */
  predicate Stuck(host: Host, fp: Fingerprint, e: Expr) {
    match e
    case UnaryE(ty, op, input) =>
      var x := Constant(host, input);
      x.Some? && EvalUnary(op, x.value, ty).Failure?
    case BinaryE(_, op, left, right) =>
      var x, y := Constant(host, left), Constant(host, right);
      x.Some? && y.Some? && EvalBinary(host, op, x.value, y.value).Failure?
    case MembershipE(_, _, candidates, _) =>
      exists i | 0 <= i < |candidates| :: Unsortable(host, fp, candidates[i])
    case CallE(ty, f, arguments) =>
      var xs := Constants(host, arguments);
      f.deterministic && xs.Some? && host.call(f, xs.value, ty).Failure?
    case _ => false
  }

  /** A candidate that normalizes to something without a fingerprint. */
  predicate Unsortable(host: Host, fp: Fingerprint, candidate: Expr) {
    var n := NormalizeNode(host, fp, candidate);
    n.Success? && fp(n.value).Failure?
  }

  // ----- constants are the literals of normal forms -----

  /** Literal candidates answer a membership test alike in any order. */
  lemma SameMembers(x: Datum, es: seq<Expr>, fs: seq<Expr>, negate: bool)
    requires AllLiterals(es) && AllLiterals(fs) && multiset(es) == multiset(fs)
    ensures Membership(x, Data(es), negate, false) == Membership(x, Data(fs), negate, false)
  {
    hide CompareEquality, Membership, AnyComparesTrue, AnyComparesUnknown, Data;
    InSequence(es, fs);
    MembershipMeaning(x, Data(es), negate, false);
    MembershipMeaning(x, Data(fs), negate, false);
    MembersCover(x, es, fs);
    MembersCover(x, fs, es);
  }

  lemma MembersCover(x: Datum, es: seq<Expr>, fs: seq<Expr>)
    requires AllLiterals(es) && AllLiterals(fs) && forall e :: e in es ==> e in fs
    ensures AnyComparesTrue(x, Data(es)) ==> AnyComparesTrue(x, Data(fs))
    ensures AnyComparesUnknown(x, Data(es)) ==> AnyComparesUnknown(x, Data(fs))
  {
    hide CompareEquality;
    forall i | 0 <= i < |es| ensures exists j :: 0 <= j < |fs| && Data(fs)[j] == Data(es)[i] {
      assert es[i] in fs;
      var j :| 0 <= j < |fs| && fs[j] == es[i];
      assert Data(fs)[j] == Data(es)[i];
    }
  }

  lemma NegatedLiteralUnstable(host: Host, fp: Fingerprint, n: Expr)
    requires n.UnaryE? && n.op == Not && n.input.LiteralE?
    ensures !NormalForms.Stable(host, fp, n)
  {
    assert NormalizeNode(host, fp, n.input) == Success(n.input);
  }

  /** The negation of a literal is never a normal form: it would have been folded. */
  lemma NegationNotLiteral(host: Host, fp: Fingerprint, e: Expr)
    requires NormalizeNode(host, fp, e).Success?
    ensures var n := NormalizeNode(host, fp, e).value; n.UnaryE? && n.op == Not ==> !n.input.LiteralE?
  {
    NormalForms.NormalFormStable(host, fp, e);
    var n := NormalizeNode(host, fp, e).value;
    if n.UnaryE? && n.op == Not && n.input.LiteralE? {
      NegatedLiteralUnstable(host, fp, n);
    }
  }

  lemma MembershipConstant(host: Host, fp: Fingerprint, e: Expr, input: Expr, ns: seq<Expr>)
    requires e.MembershipE? && NormalizeNode(host, fp, e).Success?
    requires NormalizeNode(host, fp, e.input) == Success(input) && NormalizeAll(host, fp, e.candidates) == Success(ns)
    requires input.LiteralE? <==> Constant(host, e.input).Some?
    requires input.LiteralE? ==> input.datum == Constant(host, e.input).value
    requires AllLiterals(ns) <==> Constants(host, e.candidates).Some?
    requires AllLiterals(ns) ==> Data(ns) == Constants(host, e.candidates).value
    ensures var n := NormalizeNode(host, fp, e).value;
            && (n.LiteralE? <==> Constant(host, e).Some?)
            && (n.LiteralE? ==> n.datum == Constant(host, e).value)
  {
    hide Membership;
    var candidates := SortCandidates(fp, ns).value;
    SortCandidatesPermutes(fp, ns);
    InSequence(candidates, ns);
    assert AllLiterals(candidates) <==> AllLiterals(ns) by {
      if AllLiterals(ns) {
        forall i | 0 <= i < |candidates| ensures candidates[i].LiteralE? { assert candidates[i] in ns; }
      }
      if AllLiterals(candidates) {
        forall i | 0 <= i < |ns| ensures ns[i].LiteralE? { assert ns[i] in candidates; }
      }
    }
    if input.LiteralE? && AllLiterals(ns) {
      SameMembers(input.datum, ns, candidates, e.negate);
    }
  }

  /** A normal form is a literal exactly when its source is constant, and then it holds the constant. */
  lemma {:induction false} ConstantIsLiteral(host: Host, fp: Fingerprint, e: Expr)
    requires NormalizeNode(host, fp, e).Success?
    ensures var n := NormalizeNode(host, fp, e).value;
            && (n.LiteralE? <==> Constant(host, e).Some?)
            && (n.LiteralE? ==> n.datum == Constant(host, e).value)
    decreases e, 1
  {
    hide EvalUnary, EvalBinary, FinishMembership, Membership;
    match e
    case UnaryE(_, _, input) =>
      ConstantIsLiteral(host, fp, input);
      NegationNotLiteral(host, fp, input);
    case BinaryE(_, _, left, right) =>
      ConstantIsLiteral(host, fp, left);
      if NormalizeNode(host, fp, right).Success? {
        ConstantIsLiteral(host, fp, right);
      }
    case MembershipE(_, input, candidates, _) =>
      ConstantIsLiteral(host, fp, input);
      ConstantsAreLiterals(host, fp, candidates);
      MembershipConstant(host, fp, e, NormalizeNode(host, fp, input).value, NormalizeAll(host, fp, candidates).value);
    case ConditionalE(_, condition, whenTrue, whenFalse) =>
      ConstantIsLiteral(host, fp, condition);
      if NormalizeNode(host, fp, whenTrue).Success? {
        ConstantIsLiteral(host, fp, whenTrue);
      }
      if NormalizeNode(host, fp, whenFalse).Success? {
        ConstantIsLiteral(host, fp, whenFalse);
      }
    case CallE(_, _, arguments) => ConstantsAreLiterals(host, fp, arguments);
    case _ =>
  }

  lemma {:induction false} ConstantsAreLiterals(host: Host, fp: Fingerprint, es: seq<Expr>)
    requires NormalizeAll(host, fp, es).Success?
    ensures var ns := NormalizeAll(host, fp, es).value;
            && (AllLiterals(ns) <==> Constants(host, es).Some?)
            && (AllLiterals(ns) ==> Data(ns) == Constants(host, es).value)
    decreases es, 0
  {
    hide NormalizeNode, Constant;
    if es != [] {
      ConstantIsLiteral(host, fp, es[0]);
      ConstantsAreLiterals(host, fp, es[1..]);
      var ns, rest := NormalizeAll(host, fp, es).value, NormalizeAll(host, fp, es[1..]).value;
      assert AllLiterals(ns) <==> ns[0].LiteralE? && AllLiterals(rest) by {
        assert forall i | 0 < i < |ns| :: ns[i] == rest[i - 1];
        assert forall i | 0 <= i < |rest| :: rest[i] == ns[i + 1];
      }
    }
  }

  // ----- the exact condition -----

  lemma {:induction false} KeysExist(fp: Fingerprint, es: seq<Expr>)
    ensures KeyAll(fp, es).Success? <==> forall i | 0 <= i < |es| :: fp(es[i]).Success?
  {
    NormalForms.KeyAllMeaning(fp, es);
  }

  lemma MembershipSucceeds(host: Host, fp: Fingerprint, e: Expr)
    requires e.MembershipE?
    ensures NormalizeNode(host, fp, e).Success? <==>
            NormalizeNode(host, fp, e.input).Success? && NormalizeAll(host, fp, e.candidates).Success?
              && !Stuck(host, fp, e)
  {
    if NormalizeNode(host, fp, e.input).Failure? || NormalizeAll(host, fp, e.candidates).Failure? {
      return;
    }
    var ns := NormalizeAll(host, fp, e.candidates).value;
    NormalizeAllMeaning(host, fp, e.candidates);
    hide NormalizeAll, Membership;
    KeysExist(fp, ns);
    assert forall i | 0 <= i < |ns| :: fp(ns[i]).Failure? <==> Unsortable(host, fp, e.candidates[i]);
  }

  /** None of these subexpressions is stuck. */
  predicate NoneStuck(host: Host, fp: Fingerprint, sites: seq<Site>) {
    forall i | 0 <= i < |sites| :: !Stuck(host, fp, sites[i].e)
  }

  lemma NoneStuckJoins(host: Host, fp: Fingerprint, sites: seq<Site>, more: seq<Site>)
    ensures NoneStuck(host, fp, sites + more) <==> NoneStuck(host, fp, sites) && NoneStuck(host, fp, more)
  {
    hide Stuck;
    var all := sites + more;
    assert forall i | 0 <= i < |sites| :: all[i] == sites[i];
    assert forall i | 0 <= i < |more| :: all[|sites| + i] == more[i];
  }

  /**
   * Normalization succeeds exactly when no visited subexpression is stuck: every operator and
   * deterministic call over constants succeeds on them, and every candidate has a fingerprint.
   */
  lemma {:induction false} NormalizeSucceedsExactly(host: Host, fp: Fingerprint, e: Expr, lift: bool)
    ensures NormalizeNode(host, fp, e).Success? <==> NoneStuck(host, fp, Visited(host, e, lift))
    decreases e, 1
  {
    hide EvalUnary, EvalBinary, FinishMembership, Constant, Constants, NoneStuck;
    NoneStuckJoins(host, fp, [Site(e, lift)], Visited(host, e, lift)[1..]);
    OneStuck(host, fp, Site(e, lift));
    assert Visited(host, e, lift) == [Site(e, lift)] + Visited(host, e, lift)[1..];
    match e
    case UnaryE(_, op, input) =>
      NormalizeSucceedsExactly(host, fp, input, op == NullableLift);
      LiteralWhenConstant(host, fp, input);
    case BinaryE(_, op, left, right) =>
      NormalizeSucceedsExactly(host, fp, left, false);
      NormalizeSucceedsExactly(host, fp, right, false);
      NoneStuckJoins(host, fp, Visited(host, left, false), Visited(host, right, false));
      NoneStuckJoins(host, fp, Visited(host, left, false), []);
      NothingStuck(host, fp);
      LiteralWhenConstant(host, fp, left);
      LiteralWhenConstant(host, fp, right);
      CoalesceNotStuck(host, fp, e);
    case MembershipE(_, input, candidates, _) =>
      NormalizeSucceedsExactly(host, fp, input, false);
      NormalizeAllSucceedsExactly(host, fp, candidates);
      NoneStuckJoins(host, fp, Visited(host, input, false), VisitedAll(host, candidates));
      MembershipSucceeds(host, fp, e);
    case ConditionalE(_, condition, whenTrue, whenFalse) =>
      NormalizeSucceedsExactly(host, fp, condition, false);
      NormalizeSucceedsExactly(host, fp, whenTrue, false);
      NormalizeSucceedsExactly(host, fp, whenFalse, false);
      LiteralWhenConstant(host, fp, condition);
      ConditionalNoneStuck(host, fp, e, lift);
    case CallE(_, _, arguments) =>
      NormalizeAllSucceedsExactly(host, fp, arguments);
      if NormalizeAll(host, fp, arguments).Success? {
        ConstantsAreLiterals(host, fp, arguments);
      }
    case _ => NothingStuck(host, fp);
  }

  lemma OneStuck(host: Host, fp: Fingerprint, s: Site)
    ensures NoneStuck(host, fp, [s]) <==> !Stuck(host, fp, s.e)
  {
    hide Stuck;
    assert [s][0] == s;
  }

  lemma NothingStuck(host: Host, fp: Fingerprint)
    ensures NoneStuck(host, fp, [])
  {
  }

  lemma ConditionalNoneStuck(host: Host, fp: Fingerprint, e: Expr, lift: bool)
    requires e.ConditionalE?
    ensures NoneStuck(host, fp, Visited(host, e, lift)[1..]) <==>
            && NoneStuck(host, fp, Visited(host, e.condition, false))
            && (Decided(host, e.condition) in {None, Some(True)} ==>
                NoneStuck(host, fp, Visited(host, e.whenTrue, false)))
            && (Decided(host, e.condition) != Some(True) ==> NoneStuck(host, fp, Visited(host, e.whenFalse, false)))
  {
    hide NoneStuck, Decided;
    var c, t, f :=
      Visited(host, e.condition, false), Visited(host, e.whenTrue, false), Visited(host, e.whenFalse, false);
    NoneStuckJoins(host, fp, c, t + f);
    NoneStuckJoins(host, fp, c, t);
    NoneStuckJoins(host, fp, c, f);
    NoneStuckJoins(host, fp, t, f);
  }

  lemma LiteralWhenConstant(host: Host, fp: Fingerprint, e: Expr)
    ensures var n := NormalizeNode(host, fp, e);
            n.Success? ==> (n.value.LiteralE? <==> Constant(host, e).Some?)
                           && (n.value.LiteralE? ==> n.value.datum == Constant(host, e).value)
  {
    if NormalizeNode(host, fp, e).Success? {
      ConstantIsLiteral(host, fp, e);
    }
  }

  lemma CoalesceNotStuck(host: Host, fp: Fingerprint, e: Expr)
    requires e.BinaryE?
    ensures e.bop == Coalesce ==> !Stuck(host, fp, e)
  {
  }

  lemma {:induction false} NormalizeAllSucceedsExactly(host: Host, fp: Fingerprint, es: seq<Expr>)
    ensures NormalizeAll(host, fp, es).Success? <==> NoneStuck(host, fp, VisitedAll(host, es))
    decreases es, 0
  {
    hide NormalizeNode, NoneStuck, Visited;
    if es == [] {
      NothingStuck(host, fp);
    } else {
      NormalizeSucceedsExactly(host, fp, es[0], false);
      NormalizeAllSucceedsExactly(host, fp, es[1..]);
      NoneStuckJoins(host, fp, Visited(host, es[0], false), VisitedAll(host, es[1..]));
    }
  }

  // ----- what evaluates is not stuck -----

  /** Wherever a constant expression evaluates, it evaluates to its constant. */
  lemma {:induction false} ConstantEvaluates(bind: BindContext, rt: Runtime, e: Expr, lift: bool)
    requires ValidBind(bind) && Eval(bind, rt, e, lift).Success? && Constant(rt.host, e).Some?
    ensures Eval(bind, rt, e, lift) == Success(Constant(rt.host, e).value)
    decreases e, 1
  {
    hide EvalUnary, EvalBinary, Membership, ValidDatum;
    match e
    case UnaryE(_, op, input) => ConstantEvaluates(bind, rt, input, op == NullableLift);
    case BinaryE(_, op, left, right) =>
      if Constant(rt.host, left).Some? {
        ConstantEvaluates(bind, rt, left, false);
      }
      if Eval(bind, rt, right, false).Success? && Constant(rt.host, right).Some? {
        ConstantEvaluates(bind, rt, right, false);
      }
      CoalesceChooses(rt.host);
    case MembershipE(_, input, candidates, _) =>
      ConstantEvaluates(bind, rt, input, false);
      ConstantsEvaluate(bind, rt, candidates);
    case ConditionalE(_, condition, whenTrue, whenFalse) =>
      ConstantEvaluates(bind, rt, condition, false);
      ConstantEvaluates(bind, rt, if Decided(rt.host, condition) == Some(True) then whenTrue else whenFalse, false);
    case CallE(_, _, arguments) => ConstantsEvaluate(bind, rt, arguments);
    case _ =>
  }

  lemma CoalesceChooses(host: Host)
    ensures forall d, d' :: EvalBinary(host, Coalesce, d, d') == Success(if d.Val? then d else d')
  {
  }

  lemma {:induction false} ConstantsEvaluate(bind: BindContext, rt: Runtime, es: seq<Expr>)
    requires ValidBind(bind) && EvalAll(bind, rt, es).Success? && Constants(rt.host, es).Some?
    ensures EvalAll(bind, rt, es) == Success(Constants(rt.host, es).value)
    decreases es, 0
  {
    hide Eval, Constant;
    if es != [] {
      ConstantEvaluates(bind, rt, es[0], false);
      ConstantsEvaluate(bind, rt, es[1..]);
    }
  }

  ghost predicate EvaluatesSomewhere(host: Host, s: Site) {
    exists bind: BindContext, rt: Runtime :: ValidBind(bind) && rt.host == host && Eval(bind, rt, s.e, s.lift).Success?
  }

  /** A node that evaluates in some context is not stuck, fingerprints aside. */
  lemma EvaluatedNotStuck(bind: BindContext, rt: Runtime, fp: Fingerprint, e: Expr, lift: bool)
    requires ValidBind(bind) && Eval(bind, rt, e, lift).Success? && !e.MembershipE?
    ensures !Stuck(rt.host, fp, e)
  {
    hide EvalUnary, EvalBinary, Constant, Constants, ValidDatum;
    match e
    case UnaryE(_, op, input) =>
      if Constant(rt.host, input).Some? { ConstantEvaluates(bind, rt, input, op == NullableLift); }
    case BinaryE(_, op, left, right) =>
      if Constant(rt.host, left).Some? && Constant(rt.host, right).Some? {
        ConstantEvaluates(bind, rt, left, false);
        CoalesceChooses(rt.host);
        if Eval(bind, rt, right, false).Success? { ConstantEvaluates(bind, rt, right, false); }
      }
    case CallE(_, _, arguments) =>
      if Constants(rt.host, arguments).Some? { ConstantsEvaluate(bind, rt, arguments); }
    case _ =>
  }

  /** With a total fingerprint, an expression whose visited parts each evaluate in some context normalizes. */
  lemma EvaluatedNormalizes(host: Host, fp: Fingerprint, e: Expr, lift: bool)
    requires forall x :: fp(x).Success?
    requires forall s | s in Visited(host, e, lift) :: EvaluatesSomewhere(host, s)
    ensures NormalizeNode(host, fp, e).Success?
  {
    hide Stuck, NormalizeNode, Visited, Eval;
    forall s | s in Visited(host, e, lift) ensures !Stuck(host, fp, s.e) {
      if s.e.MembershipE? {
        TotalNotStuck(host, fp, s.e);
      } else {
        var bind: BindContext, rt: Runtime :|
          ValidBind(bind) && rt.host == host && Eval(bind, rt, s.e, s.lift).Success?;
        EvaluatedNotStuck(bind, rt, fp, s.e, s.lift);
      }
    }
    NormalizeSucceedsExactly(host, fp, e, lift);
  }

  lemma TotalNotStuck(host: Host, fp: Fingerprint, e: Expr)
    requires e.MembershipE? && forall x :: fp(x).Success?
    ensures !Stuck(host, fp, e)
  {
  }
}
