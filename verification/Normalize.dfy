/// Expression normalization: constant folding, double negation, lazy literal
/// branches and canonical candidate order (dol-core `expr/normalize.rs`).

module KeyedSort {

  /** A candidate with the fingerprint it is sorted by. */
  datatype Keyed<T> = Keyed(key: nat, item: T)

  predicate Sorted<T>(s: seq<Keyed<T>>) {
    forall i, j | 0 <= i < j < |s| :: s[i].key <= s[j].key
  }

  function Insert<T>(x: Keyed<T>, s: seq<Keyed<T>>): seq<Keyed<T>> {
    if s == [] then [x]
    else if x.key <= s[0].key then [x] + s
    else [s[0]] + Insert(x, s[1..])
  }

  /** Stable sort by key. */
  function SortByKey<T>(s: seq<Keyed<T>>): seq<Keyed<T>> {
    if s == [] then [] else Insert(s[0], SortByKey(s[1..]))
  }

  lemma {:induction false} InsertProperties<T>(x: Keyed<T>, s: seq<Keyed<T>>)
    ensures multiset(Insert(x, s)) == multiset{x} + multiset(s)
    ensures Sorted(s) ==> Sorted(Insert(x, s))
  {
    if s == [] || x.key <= s[0].key {
    } else {
      assert s == [s[0]] + s[1..];
      var rest := Insert(x, s[1..]);
      InsertProperties(x, s[1..]);
      if Sorted(s) {
        forall k | 0 <= k < |rest| ensures s[0].key <= rest[k].key {
          assert rest[k] in multiset(rest);
          assert rest[k] == x || rest[k] in s[1..];
        }
      }
    }
  }

  lemma {:induction false} SortProperties<T>(s: seq<Keyed<T>>)
    ensures multiset(SortByKey(s)) == multiset(s)
    ensures Sorted(SortByKey(s))
  {
    if s != [] {
      assert s == [s[0]] + s[1..];
      SortProperties(s[1..]);
      InsertProperties(s[0], SortByKey(s[1..]));
    }
  }

  lemma {:induction false} SortSorted<T>(s: seq<Keyed<T>>)
    requires Sorted(s)
    ensures SortByKey(s) == s
  {
    if s != [] {
      SortSorted(s[1..]);
      assert s == [s[0]] + s[1..];
    }
  }

  /** Keys determine elements within the sequence. */
  predicate KeysInjective<T(==)>(s: seq<Keyed<T>>) {
    forall i, j | 0 <= i < |s| && 0 <= j < |s| && s[i].key == s[j].key :: s[i] == s[j]
  }

  lemma HeadsAgree<T>(a: seq<Keyed<T>>, b: seq<Keyed<T>>)
    requires Sorted(a) && Sorted(b) && multiset(a) == multiset(b) && KeysInjective(a) && a != []
    ensures b != [] && a[0] == b[0]
  {
    assert a[0] in multiset(b);
    assert b[0] in multiset(a);
    var i :| 0 <= i < |a| && a[i] == b[0];
    var j :| 0 <= j < |b| && b[j] == a[0];
    assert a[0].key <= a[i].key;
    assert b[0].key <= b[j].key;
  }

  /** Taking one element out of a sequence takes it out of its multiset. */
  lemma RemoveOne<T>(s: seq<T>, i: nat)
    requires i < |s|
    ensures multiset(s[..i] + s[i + 1..]) == multiset(s) - multiset{s[i]}
  {
    assert s == s[..i] + [s[i]] + s[i + 1..];
  }

  lemma RemoveSame<T>(a: seq<T>, b: seq<T>, j: nat)
    requires multiset(a) == multiset(b) && a != [] && j < |b| && b[j] == a[0]
    ensures multiset(a[..0] + a[1..]) == multiset(b[..j] + b[j + 1..])
  {
    RemoveOne(a, 0);
    RemoveOne(b, j);
  }

  function Apply<T, U>(g: T -> U, s: seq<T>): (r: seq<U>)
    ensures |r| == |s| && forall i | 0 <= i < |s| :: r[i] == g(s[i])
  {
    seq(|s|, i requires 0 <= i < |s| => g(s[i]))
  }

  /** Mapping a function over two arrangements of the same elements gives two arrangements of the same results. */
  lemma {:induction false} ApplyMultiset<T, U>(g: T -> U, a: seq<T>, b: seq<T>)
    requires multiset(a) == multiset(b)
    ensures multiset(Apply(g, a)) == multiset(Apply(g, b))
    decreases |a|
  {
    if a == [] {
      assert |b| == |multiset(b)| == 0;
    } else {
      hide Apply;
      assert a[0] in multiset(b);
      var j :| 0 <= j < |b| && b[j] == a[0];
      var a', b' := a[..0] + a[1..], b[..j] + b[j + 1..];
      RemoveSame(a, b, j);
      ApplyMultiset(g, a', b');
      ApplySplit(g, a, 0);
      ApplySplit(g, b, j);
    }
  }

  lemma ApplySplit<T, U>(g: T -> U, s: seq<T>, j: nat)
    requires j < |s|
    ensures multiset(Apply(g, s)) == multiset(Apply(g, s[..j] + s[j + 1..])) + multiset{g(s[j])}
  {
    assert Apply(g, s) == Apply(g, s[..j]) + [g(s[j])] + Apply(g, s[j + 1..]);
    assert Apply(g, s[..j] + s[j + 1..]) == Apply(g, s[..j]) + Apply(g, s[j + 1..]);
  }

  lemma SortedTail<T>(s: seq<Keyed<T>>)
    requires s != [] && Sorted(s)
    ensures Sorted(s[1..])
  {
  }

  lemma TailMultisets<T>(a: seq<T>, b: seq<T>)
    requires a != [] && b != [] && a[0] == b[0] && multiset(a) == multiset(b)
    ensures multiset(a[1..]) == multiset(b[1..])
  {
    assert a == [a[0]] + a[1..];
    assert b == [b[0]] + b[1..];
    assert multiset(a[1..]) == multiset(a) - multiset{a[0]};
    assert multiset(b[1..]) == multiset(b) - multiset{a[0]};
  }

  lemma TailKeysInjective<T>(s: seq<Keyed<T>>)
    requires s != [] && KeysInjective(s)
    ensures KeysInjective(s[1..])
  {
    var t := s[1..];
    forall i, j | 0 <= i < |t| && 0 <= j < |t| && t[i].key == t[j].key ensures t[i] == t[j] {
      assert t[i] == s[i + 1] && t[j] == s[j + 1];
    }
  }

  /** A multiset with injective keys has only one sorted arrangement. */
  lemma {:induction false} SortedUnique<T>(a: seq<Keyed<T>>, b: seq<Keyed<T>>)
    requires Sorted(a) && Sorted(b) && multiset(a) == multiset(b) && KeysInjective(a)
    ensures a == b
    decreases |a|
  {
    if a == [] {
      assert |b| == |multiset(b)| == 0;
    } else {
      var x, a', b' := a[0], a[1..], b[1..];
      HeadsAgree(a, b);
      SortedTail(a);
      SortedTail(b);
      TailMultisets(a, b);
      TailKeysInjective(a);
      SortedUnique(a', b');
      assert a == [x] + a';
      assert b == [x] + b';
    }
  }
}

module Normalize {
  import opened Results
  import opened Semantics
  import opened Models
  import opened Expressions
  import opened KeyedSort

  /** The fingerprint of a normalized node; it fails where a subquery has none. */
  type Fingerprint = Expr -> Result<nat>

  predicate AllLiterals(es: seq<Expr>) {
    forall i | 0 <= i < |es| :: es[i].LiteralE?
  }

  function Data(es: seq<Expr>): (ds: seq<Datum>)
    requires AllLiterals(es)
    ensures |ds| == |es| && forall i | 0 <= i < |es| :: ds[i] == es[i].datum
  {
    seq(|es|, i requires 0 <= i < |es| => es[i].datum)
  }

  function Items<T>(s: seq<Keyed<T>>): (r: seq<T>)
    ensures |r| == |s| && forall i | 0 <= i < |s| :: r[i] == s[i].item
  {
    seq(|s|, i requires 0 <= i < |s| => s[i].item)
  }

  function KeyAll(fp: Fingerprint, es: seq<Expr>): (r: Result<seq<Keyed<Expr>>>)
    ensures r.Success? ==> |r.value| == |es|
                           && forall i | 0 <= i < |es| ::
                                fp(es[i]) == Success(r.value[i].key) && r.value[i].item == es[i]
  {
    if es == [] then Success([])
    else
      var key :- fp(es[0]);
      var rest :- KeyAll(fp, es[1..]);
      Success([Keyed(key, es[0])] + rest)
  }

  function SortCandidates(fp: Fingerprint, es: seq<Expr>): Result<seq<Expr>> {
    var keyed :- KeyAll(fp, es);
    Success(Items(SortByKey(keyed)))
  }

  /** The last step for a membership test: order the candidates, then fold if everything is known. */
  function FinishMembership(fp: Fingerprint, ty: TypeDef, input: Expr, normalized: seq<Expr>,
      negate: bool): Result<Expr> {
    var candidates :- SortCandidates(fp, normalized);
    if input.LiteralE? && AllLiterals(candidates)
    then Success(LiteralE(ty, Membership(input.datum, Data(candidates), negate, false)))
    else Success(MembershipE(ty, input, candidates, negate))
  }

  function NormalizeNode(host: Host, fp: Fingerprint, e: Expr): Result<Expr>
    decreases e, 1
  {
    match e
    case UnaryE(ty, op, input0) =>
      var input :- NormalizeNode(host, fp, input0);
      if op == Not && input.UnaryE? && input.op == Not then Success(input.input)
      else if input.LiteralE? then
        var folded :- EvalUnary(op, input.datum, ty);
        Success(LiteralE(ty, folded))
      else Success(UnaryE(ty, op, input))
    case BinaryE(ty, op, left0, right0) =>
      var left :- NormalizeNode(host, fp, left0);
      if op == Coalesce && left.LiteralE? then
        if left.datum.Val? then Success(LiteralE(ty, left.datum)) else NormalizeNode(host, fp, right0)
      else
        var right :- NormalizeNode(host, fp, right0);
        if left.LiteralE? && right.LiteralE? then
          var folded :- EvalBinary(host, op, left.datum, right.datum);
          Success(LiteralE(ty, folded))
        else Success(BinaryE(ty, op, left, right))
    case MembershipE(ty, input0, candidates0, negate) =>
      var input :- NormalizeNode(host, fp, input0);
      var normalized :- NormalizeAll(host, fp, candidates0);
      FinishMembership(fp, ty, input, normalized, negate)
    case ConditionalE(ty, condition0, whenTrue0, whenFalse0) =>
      var condition :- NormalizeNode(host, fp, condition0);
      if condition.LiteralE? && AsTruth(condition.datum).Success? then
        if AsTruth(condition.datum).value == True then NormalizeNode(host, fp, whenTrue0)
        else NormalizeNode(host, fp, whenFalse0)
      else
        var whenTrue :- NormalizeNode(host, fp, whenTrue0);
        var whenFalse :- NormalizeNode(host, fp, whenFalse0);
        Success(ConditionalE(ty, condition, whenTrue, whenFalse))
    case CallE(ty, f, arguments0) =>
      var arguments :- NormalizeAll(host, fp, arguments0);
      if f.deterministic && AllLiterals(arguments) then
        var folded :- host.call(f, Data(arguments), ty);
        Success(LiteralE(ty, folded))
      else Success(CallE(ty, f, arguments))
    case _ => Success(e)
  }

  function NormalizeAll(host: Host, fp: Fingerprint, es: seq<Expr>): (r: Result<seq<Expr>>)
    ensures r.Success? ==> |r.value| == |es|
    decreases es, 0
  {
    if es == [] then Success([])
    else
      var n :- NormalizeNode(host, fp, es[0]);
      var rest :- NormalizeAll(host, fp, es[1..]);
      Success([n] + rest)
  }

  lemma {:induction false} NormalizeAllMeaning(host: Host, fp: Fingerprint, es: seq<Expr>)
    ensures var r := NormalizeAll(host, fp, es);
            && (r.Success? <==> forall i | 0 <= i < |es| :: NormalizeNode(host, fp, es[i]).Success?)
            && (r.Success? ==> forall i | 0 <= i < |es| :: NormalizeNode(host, fp, es[i]) == Success(r.value[i]))
  {
    if es != [] {
      var rest := es[1..];
      NormalizeAllMeaning(host, fp, rest);
      assert forall i | 0 <= i < |rest| :: rest[i] == es[i + 1];
      assert forall i | 0 < i < |es| :: es[i] == rest[i - 1];
    }
  }

  /** Sorting candidates rearranges them and nothing else. */
  lemma SortCandidatesPermutes(fp: Fingerprint, es: seq<Expr>)
    requires SortCandidates(fp, es).Success?
    ensures multiset(SortCandidates(fp, es).value) == multiset(es)
  {
    var keyed := KeyAll(fp, es).value;
    SortProperties(keyed);
    var item := (k: Keyed<Expr>) => k.item;
    ApplyMultiset(item, keyed, SortByKey(keyed));
    assert Apply(item, keyed) == es;
    assert Apply(item, SortByKey(keyed)) == Items(SortByKey(keyed));
  }

  lemma InSequence<T>(a: seq<T>, b: seq<T>)
    requires multiset(a) == multiset(b)
    ensures |a| == |b|
    ensures forall x :: x in a <==> x in b
  {
    assert |a| == |multiset(a)| == |multiset(b)| == |b|;
    forall x ensures x in a <==> x in b {
      assert x in a <==> x in multiset(a);
      assert x in b <==> x in multiset(b);
    }
  }

  // ----- meaning is preserved -----

  /** Two candidate lists with the same members answer every membership test alike. */
  lemma MembershipOfSame(bind: BindContext, rt: Runtime, x: Datum, es: seq<Expr>, fs: seq<Expr>, negate: bool)
    requires ValidBind(bind)
    requires multiset(es) == multiset(fs)
    requires EvalAll(bind, rt, es).Success?
    ensures EvalAll(bind, rt, fs).Success?
    ensures Membership(x, EvalAll(bind, rt, es).value, negate, false)
              == Membership(x, EvalAll(bind, rt, fs).value, negate, false)
  {
    InSequence(es, fs);
    EvalAllMeaning(bind, rt, es);
    EvalAllMeaning(bind, rt, fs);
    forall i | 0 <= i < |fs| ensures Eval(bind, rt, fs[i], false).Success? {
      assert fs[i] in es;
    }
    var xs, ys := EvalAll(bind, rt, es).value, EvalAll(bind, rt, fs).value;
    MembershipMeaning(x, xs, negate, false);
    MembershipMeaning(x, ys, negate, false);
    SameComparisons(bind, rt, x, es, fs);
    SameComparisons(bind, rt, x, fs, es);
  }

  lemma SameComparisons(bind: BindContext, rt: Runtime, x: Datum, es: seq<Expr>, fs: seq<Expr>)
    requires ValidBind(bind)
    requires forall e :: e in es ==> e in fs
    requires EvalAll(bind, rt, es).Success? && EvalAll(bind, rt, fs).Success?
    ensures AnyComparesTrue(x, EvalAll(bind, rt, es).value) ==> AnyComparesTrue(x, EvalAll(bind, rt, fs).value)
    ensures AnyComparesUnknown(x, EvalAll(bind, rt, es).value) ==> AnyComparesUnknown(x, EvalAll(bind, rt, fs).value)
  {
    EvalAllMeaning(bind, rt, es);
    EvalAllMeaning(bind, rt, fs);
    var xs, ys := EvalAll(bind, rt, es).value, EvalAll(bind, rt, fs).value;
    forall i | 0 <= i < |es| ensures exists j :: 0 <= j < |fs| && ys[j] == xs[i] {
      assert es[i] in fs;
      var j :| 0 <= j < |fs| && fs[j] == es[i];
      assert ys[j] == xs[i];
    }
  }

  /** A field that reads without a nullable lift reads the same with one. */
  lemma LiftMonotone(bind: BindContext, rt: Runtime, e: Expr, lift: bool, lift': bool)
    requires ValidBind(bind)
    requires lift ==> lift'
    requires Eval(bind, rt, e, lift).Success?
    ensures Eval(bind, rt, e, lift') == Eval(bind, rt, e, lift)
  {
  }

  /** The single-node step of preservation for an operator, given it for the operand. */
  lemma UnaryPreserved(
    bind: BindContext, rt: Runtime, fp: Fingerprint, e: Expr, lift': bool, input: Expr)
    requires ValidBind(bind)
    requires e.UnaryE? && NormalizeNode(rt.host, fp, e.input) == Success(input)
    requires NormalizeNode(rt.host, fp, e).Success?
    requires Eval(bind, rt, e, false).Success?
    requires Eval(bind, rt, input, e.op == NullableLift) == Eval(bind, rt, e.input, e.op == NullableLift)
    ensures Eval(bind, rt, NormalizeNode(rt.host, fp, e).value, lift') == Eval(bind, rt, e, false)
  {
    if e.op == Not && input.UnaryE? && input.op == Not {
      DoubleNegation(bind, rt, e.ty, input);
      LiftMonotone(bind, rt, input.input, false, lift');
    } else if input.LiteralE? {
      var x := Eval(bind, rt, input, e.op == NullableLift).value;
      assert x == input.datum;
      assert Eval(bind, rt, e, false) == Checked(e.ty, EvalUnary(e.op, x, e.ty).value);
    } else {
      assert Eval(bind, rt, UnaryE(e.ty, e.op, input), lift') == Eval(bind, rt, e, false);
    }
  }

  /** Negating a truth value twice gives it back; only a truth value survives the attempt. */
  lemma DoubleNegation(bind: BindContext, rt: Runtime, ty: TypeDef, inner: Expr)
    requires ValidBind(bind) && inner.UnaryE? && inner.op == Not
    requires Eval(bind, rt, UnaryE(ty, Not, inner), false).Success?
    ensures Eval(bind, rt, inner.input, false) == Eval(bind, rt, UnaryE(ty, Not, inner), false)
  {
    var x := Eval(bind, rt, inner.input, false);
    assert Eval(bind, rt, inner, false).Success?;
    assert x.Success? && AsTruth(x.value).Success?;
  }

  lemma BinaryPreserved(
    bind: BindContext, rt: Runtime, fp: Fingerprint, e: Expr, lift': bool, left: Expr)
    requires ValidBind(bind)
    requires e.BinaryE? && NormalizeNode(rt.host, fp, e.left) == Success(left)
    requires NormalizeNode(rt.host, fp, e).Success?
    requires Eval(bind, rt, e, false).Success?
    requires Eval(bind, rt, left, false) == Eval(bind, rt, e.left, false)
    requires Eval(bind, rt, e.right, false).Success? && NormalizeNode(rt.host, fp, e.right).Success? ==>
               && Eval(bind, rt, NormalizeNode(rt.host, fp, e.right).value, false) == Eval(bind, rt, e.right, false)
               && Eval(bind, rt, NormalizeNode(rt.host, fp, e.right).value, lift') == Eval(bind, rt, e.right, false)
    ensures Eval(bind, rt, NormalizeNode(rt.host, fp, e).value, lift') == Eval(bind, rt, e, false)
  {
    var x := Eval(bind, rt, e.left, false).value;
    if e.bop == Coalesce && left.LiteralE? {
      assert x == left.datum;
    } else {
      var right := NormalizeNode(rt.host, fp, e.right).value;
      if left.LiteralE? && right.LiteralE? {
        assert x == left.datum;
      }
    }
  }

  lemma MembershipPreserved(
    bind: BindContext, rt: Runtime, fp: Fingerprint, e: Expr, lift': bool, input: Expr, normalized: seq<Expr>)
    requires ValidBind(bind)
    requires e.MembershipE? && NormalizeNode(rt.host, fp, e.input) == Success(input)
    requires NormalizeAll(rt.host, fp, e.candidates) == Success(normalized)
    requires NormalizeNode(rt.host, fp, e).Success?
    requires Eval(bind, rt, e, false).Success?
    requires Eval(bind, rt, input, false) == Eval(bind, rt, e.input, false)
    requires EvalAll(bind, rt, normalized) == EvalAll(bind, rt, e.candidates)
    ensures Eval(bind, rt, NormalizeNode(rt.host, fp, e).value, lift') == Eval(bind, rt, e, false)
  {
    var candidates := SortCandidates(fp, normalized).value;
    var x := Eval(bind, rt, input, false).value;
    SortCandidatesPermutes(fp, normalized);
    MembershipOfSame(bind, rt, x, normalized, candidates, e.negate);
    if input.LiteralE? && AllLiterals(candidates) {
      LiteralsEvaluate(bind, rt, candidates);
      assert x == input.datum;
    }
  }

  lemma CallPreserved(
    bind: BindContext, rt: Runtime, fp: Fingerprint, e: Expr, lift': bool, arguments: seq<Expr>)
    requires ValidBind(bind)
    requires e.CallE? && NormalizeAll(rt.host, fp, e.arguments) == Success(arguments)
    requires NormalizeNode(rt.host, fp, e).Success?
    requires Eval(bind, rt, e, false).Success?
    requires EvalAll(bind, rt, arguments) == EvalAll(bind, rt, e.arguments)
    ensures Eval(bind, rt, NormalizeNode(rt.host, fp, e).value, lift') == Eval(bind, rt, e, false)
  {
    if AllLiterals(arguments) {
      LiteralsEvaluate(bind, rt, arguments);
    }
  }

  /** Whatever evaluates still evaluates, to the same datum, after normalization. */
  lemma {:induction false} NormalizePreserves(
    bind: BindContext, rt: Runtime, fp: Fingerprint, e: Expr, lift: bool, lift': bool)
    requires ValidBind(bind)
    requires lift ==> lift'
    requires NormalizeNode(rt.host, fp, e).Success?
    requires Eval(bind, rt, e, lift).Success?
    ensures Eval(bind, rt, NormalizeNode(rt.host, fp, e).value, lift') == Eval(bind, rt, e, lift)
    decreases e, 1
  {
    match e
    case UnaryE(ty, op, input0) =>
      NormalizePreserves(bind, rt, fp, input0, op == NullableLift, op == NullableLift);
      UnaryPreserved(bind, rt, fp, e, lift', NormalizeNode(rt.host, fp, input0).value);
    case BinaryE(ty, op, left0, right0) =>
      NormalizePreserves(bind, rt, fp, left0, false, false);
      if Eval(bind, rt, right0, false).Success? && NormalizeNode(rt.host, fp, right0).Success? {
        NormalizePreserves(bind, rt, fp, right0, false, false);
        NormalizePreserves(bind, rt, fp, right0, false, lift');
      }
      BinaryPreserved(bind, rt, fp, e, lift', NormalizeNode(rt.host, fp, left0).value);
    case MembershipE(ty, input0, candidates0, negate) =>
      NormalizePreserves(bind, rt, fp, input0, false, false);
      NormalizeAllPreserves(bind, rt, fp, candidates0);
      MembershipPreserved(bind, rt, fp, e, lift', NormalizeNode(rt.host, fp, input0).value,
                          NormalizeAll(rt.host, fp, candidates0).value);
    case ConditionalE(ty, condition0, whenTrue0, whenFalse0) =>
      NormalizePreserves(bind, rt, fp, condition0, false, false);
      var t := AsTruth(Eval(bind, rt, condition0, false).value).value;
      var branch := if t == True then whenTrue0 else whenFalse0;
      NormalizePreserves(bind, rt, fp, branch, false, false);
      NormalizePreserves(bind, rt, fp, branch, false, lift');
    case CallE(ty, f, arguments0) =>
      NormalizeAllPreserves(bind, rt, fp, arguments0);
      CallPreserved(bind, rt, fp, e, lift', NormalizeAll(rt.host, fp, arguments0).value);
    case _ =>
      LiftMonotone(bind, rt, e, lift, lift');
  }

  lemma {:induction false} NormalizeAllPreserves(bind: BindContext, rt: Runtime, fp: Fingerprint, es: seq<Expr>)
    requires ValidBind(bind)
    requires NormalizeAll(rt.host, fp, es).Success?
    requires EvalAll(bind, rt, es).Success?
    ensures EvalAll(bind, rt, NormalizeAll(rt.host, fp, es).value) == EvalAll(bind, rt, es)
    decreases es, 0
  {
    if es != [] {
      NormalizePreserves(bind, rt, fp, es[0], false, false);
      NormalizeAllPreserves(bind, rt, fp, es[1..]);
    }
  }

  lemma LiteralsEvaluate(bind: BindContext, rt: Runtime, es: seq<Expr>)
    requires ValidBind(bind) && AllLiterals(es) && EvalAll(bind, rt, es).Success?
    ensures EvalAll(bind, rt, es).value == Data(es)
  {
    EvalAllMeaning(bind, rt, es);
  }
}
