/// Flattening and rebalancing of AND chains (dol-core `expr/existential.rs`).

module Conjunction {
  import opened Results
  import opened Semantics
  import opened Models
  import opened Expressions

  predicate IsAnd(e: Expr) { e.BinaryE? && e.bop == And }

  function Conjoin(left: Expr, right: Expr): Expr { BinaryE(TRUTH_TYPE, And, left, right) }

  /** The conjuncts from left to right. */
  function Leaves(e: Expr): (ls: seq<Expr>)
    ensures ls != [] && forall i | 0 <= i < |ls| :: !IsAnd(ls[i])
  {
    if IsAnd(e) then Leaves(e.left) + Leaves(e.right) else [e]
  }

  /** One round of pairing neighbours; an odd last element is carried over. */
  function Pair(es: seq<Expr>): (r: seq<Expr>)
    ensures |r| == (|es| + 1) / 2
  {
    if |es| <= 1 then es else [Conjoin(es[0], es[1])] + Pair(es[2..])
  }

  function Balance(es: seq<Expr>): Expr
    requires es != []
    decreases |es|
  {
    if |es| == 1 then es[0] else Balance(Pair(es))
  }

  /** The canonical form of a condition. */
  function Canonical(e: Expr): Expr { Balance(Leaves(e)) }

  function SizeOf(stack: seq<Expr>): nat {
    if stack == [] then 0 else SizeOf(stack[..|stack| - 1]) + Size(stack[|stack| - 1])
  }

  /** Conjuncts still to come when the top of the stack is the last element. */
  function Pending(stack: seq<Expr>): seq<Expr> {
    if stack == [] then [] else Leaves(stack[|stack| - 1]) + Pending(stack[..|stack| - 1])
  }

  /** The explicit stack visits the conjuncts from left to right. */
  method CollectLeaves(e: Expr) returns (leaves: seq<Expr>)
    ensures leaves == Leaves(e)
  {
    leaves := [];
    var stack := [e];
    while stack != []
      invariant leaves + Pending(stack) == Leaves(e)
      decreases SizeOf(stack)
    {
      var node := stack[|stack| - 1];
      var rest := stack[..|stack| - 1];
      if IsAnd(node) {
        PushBoth(rest, node);
        stack := rest + [node.right, node.left];
      } else {
        leaves := leaves + [node];
        stack := rest;
      }
    }
  }

  /** Right pushed before left, so that left is popped first. */
  lemma PushBoth(rest: seq<Expr>, node: Expr)
    requires IsAnd(node)
    ensures var stack := rest + [node.right, node.left];
            && Pending(stack) == Leaves(node) + Pending(rest)
            && SizeOf(stack) < SizeOf(rest + [node])
  {
    var stack := rest + [node.right, node.left];
    assert stack[..|stack| - 1] == rest + [node.right];
    assert (rest + [node.right])[..|rest|] == rest;
    assert (rest + [node])[..|rest|] == rest;
  }

  method PairRound(leaves: seq<Expr>) returns (next: seq<Expr>)
    ensures next == Pair(leaves)
  {
    next := [];
    var i := 0;
    while i < |leaves|
      invariant 0 <= i <= |leaves| + 1
      invariant i <= |leaves| ==> next + Pair(leaves[i..]) == Pair(leaves)
      invariant i == |leaves| + 1 ==> next == Pair(leaves)
    {
      if i + 1 < |leaves| {
        assert leaves[i..][2..] == leaves[i + 2..];
        next := next + [Conjoin(leaves[i], leaves[i + 1])];
      } else {
        assert leaves[i..] == [leaves[i]];
        next := next + [leaves[i]];
      }
      i := i + 2;
    }
  }

  /** The worklist and the pairing rounds compute the canonical form. */
  method CanonicalTruth(e: Expr) returns (r: Expr)
    ensures r == Canonical(e)
    ensures Leaves(r) == Leaves(e)
  {
    var leaves := CollectLeaves(e);
    while |leaves| > 1
      invariant leaves != [] && Balance(leaves) == Canonical(e)
      decreases |leaves|
    {
      leaves := PairRound(leaves);
    }
    r := leaves[0];
    CanonicalLeaves(e);
  }

  // ----- the leaf sequence is kept and is all that matters -----

  function AllLeaves(es: seq<Expr>): seq<Expr> {
    if es == [] then [] else Leaves(es[0]) + AllLeaves(es[1..])
  }

  lemma {:induction false} PairLeaves(es: seq<Expr>)
    ensures AllLeaves(Pair(es)) == AllLeaves(es)
  {
    if |es| > 1 {
      PairLeaves(es[2..]);
      assert es[1..][1..] == es[2..];
      assert AllLeaves(es) == Leaves(es[0]) + (Leaves(es[1]) + AllLeaves(es[2..]));
    }
  }

  lemma {:induction false} BalanceLeaves(es: seq<Expr>)
    requires es != []
    ensures Leaves(Balance(es)) == AllLeaves(es)
    decreases |es|
  {
    if |es| == 1 {
      assert es[1..] == [];
    } else {
      PairLeaves(es);
      BalanceLeaves(Pair(es));
    }
  }

  lemma {:induction false} LeavesOfLeaves(es: seq<Expr>)
    requires forall i | 0 <= i < |es| :: !IsAnd(es[i])
    ensures AllLeaves(es) == es
  {
    if es != [] {
      LeavesOfLeaves(es[1..]);
      assert es == [es[0]] + es[1..];
    }
  }

  lemma CanonicalLeaves(e: Expr)
    ensures Leaves(Canonical(e)) == Leaves(e)
  {
    BalanceLeaves(Leaves(e));
    LeavesOfLeaves(Leaves(e));
  }

  /** Two conditions have one canonical form exactly when they list the same conjuncts in the same order. */
  lemma CanonicalIffSameLeaves(a: Expr, b: Expr)
    ensures Canonical(a) == Canonical(b) <==> Leaves(a) == Leaves(b)
  {
    CanonicalLeaves(a);
    CanonicalLeaves(b);
  }

  /** Adding one more filter to an already canonical condition. */
  function AndTruth(a: Expr, b: Expr): Expr { Canonical(Conjoin(a, b)) }

  /** Stacking filters one at a time, in any grouping, gives one condition. */
  lemma FiltersAssociate(a: Expr, b: Expr, c: Expr)
    ensures AndTruth(AndTruth(a, b), c) == AndTruth(a, AndTruth(b, c)) == Canonical(Conjoin(a, Conjoin(b, c)))
  {
    CanonicalLeaves(Conjoin(a, b));
    CanonicalLeaves(Conjoin(b, c));
    assert Leaves(a) + Leaves(b) + Leaves(c) == Leaves(a) + (Leaves(b) + Leaves(c));
  }

  // ----- the three-valued outcome is kept -----

  function AndAll(ts: seq<Truth>): Truth {
    if ts == [] then True else ts[0].And(AndAll(ts[1..]))
  }

  lemma {:induction false} AndAllConcat(a: seq<Truth>, b: seq<Truth>)
    ensures AndAll(a + b) == AndAll(a).And(AndAll(b))
  {
    if a == [] {
      assert a + b == b;
    } else {
      AndAllConcat(a[1..], b);
      assert (a + b)[1..] == a[1..] + b;
    }
  }

  /** The truth of each conjunct, or a failure if one fails or is not a truth value. */
  function Truths(bind: BindContext, rt: Runtime, es: seq<Expr>): Result<seq<Truth>>
    requires ValidBind(bind)
  {
    if es == [] then Success([])
    else
      var x :- Eval(bind, rt, es[0], false);
      var t :- AsTruth(x);
      var ts :- Truths(bind, rt, es[1..]);
      Success([t] + ts)
  }

  lemma {:induction false} TruthsConcat(bind: BindContext, rt: Runtime, a: seq<Expr>, b: seq<Expr>)
    requires ValidBind(bind)
    ensures var l, r, all := Truths(bind, rt, a), Truths(bind, rt, b), Truths(bind, rt, a + b);
            && (all.Success? <==> l.Success? && r.Success?)
            && (all.Success? ==> all.value == l.value + r.value)
  {
    hide Eval;
    if a == [] {
      assert a + b == b;
    } else {
      TruthsConcat(bind, rt, a[1..], b);
      assert (a + b)[1..] == a[1..] + b;
    }
  }

  /** Every AND node carries the truth type, as authoring and rebalancing build it. */
  predicate AndsTyped(e: Expr) {
    IsAnd(e) ==> e.ty == TRUTH_TYPE && AndsTyped(e.left) && AndsTyped(e.right)
  }

  /** What one operand contributes. */
  function TruthOfExpr(bind: BindContext, rt: Runtime, e: Expr): Result<Truth>
    requires ValidBind(bind)
  {
    var x :- Eval(bind, rt, e, false);
    AsTruth(x)
  }

  lemma EvalAnd(bind: BindContext, rt: Runtime, e: Expr)
    requires ValidBind(bind) && IsAnd(e) && e.ty == TRUTH_TYPE
    ensures var l, r, both := TruthOfExpr(bind, rt, e.left), TruthOfExpr(bind, rt, e.right), Eval(bind, rt, e, false);
            && (both.Success? <==> l.Success? && r.Success?)
            && (both.Success? ==> both.value == Val(TruthV(l.value.And(r.value))))
  {
  }

  /** A conjunction's outcome, as a truth, is a function of its leaf sequence. */
  lemma {:induction false} ConjunctionOutcome(bind: BindContext, rt: Runtime, e: Expr)
    requires ValidBind(bind) && AndsTyped(e)
    ensures var ts, t := Truths(bind, rt, Leaves(e)), TruthOfExpr(bind, rt, e);
            && (ts.Success? <==> t.Success?)
            && (ts.Success? ==> t.value == AndAll(ts.value))
  {
    if IsAnd(e) {
      ConjunctionOutcome(bind, rt, e.left);
      ConjunctionOutcome(bind, rt, e.right);
      EvalAnd(bind, rt, e);
      TruthsConcat(bind, rt, Leaves(e.left), Leaves(e.right));
      var l, r := Truths(bind, rt, Leaves(e.left)), Truths(bind, rt, Leaves(e.right));
      if l.Success? && r.Success? {
        AndAllConcat(l.value, r.value);
      }
    } else {
      assert Leaves(e)[1..] == [];
      var t := TruthOfExpr(bind, rt, e);
      if t.Success? {
        assert [t.value][1..] == [];
      }
    }
  }

  lemma {:induction false} BalanceTyped(es: seq<Expr>)
    requires es != [] && forall i | 0 <= i < |es| :: AndsTyped(es[i])
    ensures AndsTyped(Balance(es))
    decreases |es|
  {
    if |es| > 1 {
      PairTyped(es);
      BalanceTyped(Pair(es));
    }
  }

  lemma {:induction false} PairTyped(es: seq<Expr>)
    requires forall i | 0 <= i < |es| :: AndsTyped(es[i])
    ensures forall i | 0 <= i < |Pair(es)| :: AndsTyped(Pair(es)[i])
  {
    if |es| > 1 {
      PairTyped(es[2..]);
      var r := Pair(es[2..]);
      assert forall i | 0 < i < |Pair(es)| :: Pair(es)[i] == r[i - 1];
    }
  }

  /** Rebalancing keeps the three-valued result and whether evaluation fails. */
  lemma CanonicalPreserves(bind: BindContext, rt: Runtime, e: Expr)
    requires ValidBind(bind) && AndsTyped(e)
    ensures SameOutcome(Eval(bind, rt, Canonical(e), false), Eval(bind, rt, e, false))
  {
    CanonicalLeaves(e);
    BalanceTyped(Leaves(e));
    ConjunctionOutcome(bind, rt, e);
    ConjunctionOutcome(bind, rt, Canonical(e));
    if IsAnd(e) {
      assert |Leaves(e)| >= 2;
      assert !IsAnd(Canonical(e)) ==> |Leaves(Canonical(e))| == 1;
      EvalAnd(bind, rt, e);
      EvalAnd(bind, rt, Canonical(e));
    } else {
      assert Canonical(e) == e;
    }
  }

  // ----- the canonical form is shallow -----

  lemma {:induction false} PairDepth(es: seq<Expr>)
    ensures DepthAll(Pair(es)) <= 1 + DepthAll(es)
  {
    if |es| > 1 {
      PairDepth(es[2..]);
      assert es[1..][1..] == es[2..];
      assert DepthAll(es) == Max(Depth(es[0]), Max(Depth(es[1]), DepthAll(es[2..])));
      assert Pair(es)[1..] == Pair(es[2..]);
    }
  }

  lemma {:induction false} BalanceDepth(es: seq<Expr>, k: nat)
    requires es != [] && |es| <= Pow2(k)
    ensures Depth(Balance(es)) <= DepthAll(es) + k
    decreases |es|
  {
    if |es| > 1 {
      PairDepth(es);
      BalanceDepth(Pair(es), k - 1);
    }
  }

  /** At most k levels above the deepest conjunct, for every k with at most two-to-the-k conjuncts. */
  lemma CanonicalShallow(e: Expr, k: nat)
    requires |Leaves(e)| <= Pow2(k)
    ensures Depth(Canonical(e)) <= DepthAll(Leaves(e)) + k
  {
    BalanceDepth(Leaves(e), k);
  }
}
