/// Normal forms are small, stable and canonical (dol-core `expr/normalize.rs`).

module NormalForms {
  import opened Results
  import opened Semantics
  import opened Models
  import opened Expressions
  import opened KeyedSort
  import opened Normalize

  lemma {:induction false} SizeAllPermuted(a: seq<Expr>, b: seq<Expr>)
    requires multiset(a) == multiset(b)
    ensures SizeAll(a) == SizeAll(b)
    decreases |a|
  {
    if a == [] {
      assert |b| == |multiset(b)| == 0;
    } else {
      assert a[0] in multiset(b);
      var j :| 0 <= j < |b| && b[j] == a[0];
      var a', b' := a[..0] + a[1..], b[..j] + b[j + 1..];
      assert multiset(a') == multiset(b') by {
        RemoveOne(a, 0);
        RemoveOne(b, j);
      }
      SizeAllPermuted(a', b');
      SizeAllSplit(a, 0);
      SizeAllSplit(b, j);
    }
  }

  lemma {:induction false} SizeAllSplit(s: seq<Expr>, j: nat)
    requires j < |s|
    ensures SizeAll(s) == SizeAll(s[..j] + s[j + 1..]) + Size(s[j])
  {
    if j == 0 {
      assert s[..0] + s[1..] == s[1..];
    } else {
      SizeAllSplit(s[1..], j - 1);
      var t := s[..j] + s[j + 1..];
      assert t[1..] == s[1..][..j - 1] + s[1..][j..];
    }
  }

  lemma {:induction false} DepthAllBound(es: seq<Expr>, bound: nat)
    ensures DepthAll(es) <= bound <==> forall i | 0 <= i < |es| :: Depth(es[i]) <= bound
  {
    if es != [] {
      DepthAllBound(es[1..], bound);
      assert forall i | 0 < i < |es| :: es[i] == es[1..][i - 1];
      assert forall i | 0 <= i < |es[1..]| :: es[1..][i] == es[i + 1];
    }
  }

  lemma DepthAllPermuted(a: seq<Expr>, b: seq<Expr>)
    requires multiset(a) == multiset(b)
    ensures DepthAll(a) == DepthAll(b)
  {
    DepthAllCovers(a, b);
    DepthAllCovers(b, a);
  }

  lemma DepthAllCovers(a: seq<Expr>, b: seq<Expr>)
    requires multiset(a) == multiset(b)
    ensures DepthAll(b) <= DepthAll(a)
  {
    InSequence(a, b);
    DepthAllBound(a, DepthAll(a));
    forall i | 0 <= i < |b| ensures Depth(b[i]) <= DepthAll(a) {
      assert b[i] in a;
    }
    DepthAllBound(b, DepthAll(a));
  }

  lemma FinishMembershipShrinks(fp: Fingerprint, ty: TypeDef, input: Expr, normalized: seq<Expr>, negate: bool)
    requires FinishMembership(fp, ty, input, normalized, negate).Success?
    ensures var n := FinishMembership(fp, ty, input, normalized, negate).value;
            && Size(n) <= 1 + Size(input) + SizeAll(normalized)
            && Depth(n) <= 1 + Max(Depth(input), DepthAll(normalized))
  {
    SortCandidatesPermutes(fp, normalized);
    SizeAllPermuted(SortCandidates(fp, normalized).value, normalized);
    DepthAllPermuted(SortCandidates(fp, normalized).value, normalized);
  }

  ghost predicate NoLarger(n: Expr, e: Expr) {
    Size(n) <= Size(e) && Depth(n) <= Depth(e)
  }

  lemma UnaryShrinks(host: Host, fp: Fingerprint, e: Expr)
    requires e.UnaryE? && NormalizeNode(host, fp, e).Success?
    requires NoLarger(NormalizeNode(host, fp, e.input).value, e.input)
    ensures NoLarger(NormalizeNode(host, fp, e).value, e)
  {
  }

  lemma BinaryShrinks(host: Host, fp: Fingerprint, e: Expr)
    requires e.BinaryE? && NormalizeNode(host, fp, e).Success?
    requires NoLarger(NormalizeNode(host, fp, e.left).value, e.left)
    requires NormalizeNode(host, fp, e.right).Success? ==> NoLarger(NormalizeNode(host, fp, e.right).value, e.right)
    ensures NoLarger(NormalizeNode(host, fp, e).value, e)
  {
  }

  lemma ConditionalShrinks(host: Host, fp: Fingerprint, e: Expr)
    requires e.ConditionalE? && NormalizeNode(host, fp, e).Success?
    requires NoLarger(NormalizeNode(host, fp, e.condition).value, e.condition)
    requires NormalizeNode(host, fp, e.whenTrue).Success? ==>
               NoLarger(NormalizeNode(host, fp, e.whenTrue).value, e.whenTrue)
    requires NormalizeNode(host, fp, e.whenFalse).Success? ==>
               NoLarger(NormalizeNode(host, fp, e.whenFalse).value, e.whenFalse)
    ensures NoLarger(NormalizeNode(host, fp, e).value, e)
  {
  }

  /** Normalization never grows an expression, in nodes or in depth. */
  lemma {:induction false} NormalizeShrinks(host: Host, fp: Fingerprint, e: Expr)
    requires NormalizeNode(host, fp, e).Success?
    ensures NoLarger(NormalizeNode(host, fp, e).value, e)
    decreases e, 1
  {
    match e
    case UnaryE(_, _, input0) =>
      NormalizeShrinks(host, fp, input0);
      UnaryShrinks(host, fp, e);
    case BinaryE(_, _, left0, right0) =>
      NormalizeShrinks(host, fp, left0);
      if NormalizeNode(host, fp, right0).Success? {
        NormalizeShrinks(host, fp, right0);
      }
      BinaryShrinks(host, fp, e);
    case MembershipE(ty, input0, candidates0, negate) =>
      NormalizeShrinks(host, fp, input0);
      NormalizeAllShrinks(host, fp, candidates0);
      FinishMembershipShrinks(fp, ty, NormalizeNode(host, fp, input0).value,
                              NormalizeAll(host, fp, candidates0).value, negate);
    case ConditionalE(_, condition0, whenTrue0, whenFalse0) =>
      NormalizeShrinks(host, fp, condition0);
      if NormalizeNode(host, fp, whenTrue0).Success? {
        NormalizeShrinks(host, fp, whenTrue0);
      }
      if NormalizeNode(host, fp, whenFalse0).Success? {
        NormalizeShrinks(host, fp, whenFalse0);
      }
      ConditionalShrinks(host, fp, e);
    case CallE(_, _, arguments0) =>
      NormalizeAllShrinks(host, fp, arguments0);
    case _ =>
  }

  lemma {:induction false} NormalizeAllShrinks(host: Host, fp: Fingerprint, es: seq<Expr>)
    requires NormalizeAll(host, fp, es).Success?
    ensures SizeAll(NormalizeAll(host, fp, es).value) <= SizeAll(es)
    ensures DepthAll(NormalizeAll(host, fp, es).value) <= DepthAll(es)
    decreases es, 0
  {
    if es != [] {
      NormalizeShrinks(host, fp, es[0]);
      NormalizeAllShrinks(host, fp, es[1..]);
    }
  }

  ghost predicate Stable(host: Host, fp: Fingerprint, e: Expr) {
    NormalizeNode(host, fp, e) == Success(e)
  }

  /** A stable negation has a stable operand: a double negation would have shrunk. */
  lemma OperandStable(host: Host, fp: Fingerprint, e: Expr)
    requires e.UnaryE? && e.op == Not && Stable(host, fp, e)
    ensures Stable(host, fp, e.input)
  {
    var input := NormalizeNode(host, fp, e.input).value;
    NormalizeShrinks(host, fp, e.input);
    assert Size(input) < Size(e);
    assert input.UnaryE? ==> Size(input.input) < Size(input);
  }

  lemma {:induction false} AllStable(host: Host, fp: Fingerprint, es: seq<Expr>)
    requires forall i | 0 <= i < |es| :: Stable(host, fp, es[i])
    ensures NormalizeAll(host, fp, es) == Success(es)
  {
    if es != [] {
      AllStable(host, fp, es[1..]);
      assert es == [es[0]] + es[1..];
    }
  }

  /** Sorting the candidates a second time changes nothing. */
  lemma SortCandidatesStable(fp: Fingerprint, es: seq<Expr>)
    requires SortCandidates(fp, es).Success?
    ensures SortCandidates(fp, SortCandidates(fp, es).value) == SortCandidates(fp, es)
  {
    var keyed := KeyAll(fp, es).value;
    var sorted := SortByKey(keyed);
    SortProperties(keyed);
    InSequence(sorted, keyed);
    forall i | 0 <= i < |sorted| ensures fp(sorted[i].item) == Success(sorted[i].key) {
      assert sorted[i] in keyed;
    }
    KeyAllOf(fp, sorted);
    SortSorted(sorted);
  }

  lemma {:induction false} KeyAllOf(fp: Fingerprint, keyed: seq<Keyed<Expr>>)
    requires forall i | 0 <= i < |keyed| :: fp(keyed[i].item) == Success(keyed[i].key)
    ensures KeyAll(fp, Items(keyed)) == Success(keyed)
  {
    if keyed != [] {
      KeyAllOf(fp, keyed[1..]);
      assert Items(keyed)[1..] == Items(keyed[1..]);
      assert keyed == [keyed[0]] + keyed[1..];
    }
  }

  /** A normal form is a fixed point: normalizing it again returns it unchanged. */
  lemma {:induction false} NormalFormStable(host: Host, fp: Fingerprint, e: Expr)
    requires NormalizeNode(host, fp, e).Success?
    ensures Stable(host, fp, NormalizeNode(host, fp, e).value)
    decreases e, 1
  {
    match e
    case UnaryE(_, op, input0) =>
      NormalFormStable(host, fp, input0);
      var input := NormalizeNode(host, fp, input0).value;
      if op == Not && input.UnaryE? && input.op == Not {
        OperandStable(host, fp, input);
      }
    case BinaryE(_, op, left0, right0) =>
      NormalFormStable(host, fp, left0);
      if NormalizeNode(host, fp, right0).Success? {
        NormalFormStable(host, fp, right0);
      }
    case MembershipE(_, input0, candidates0, _) =>
      NormalFormStable(host, fp, input0);
      AllNormalStable(host, fp, candidates0);
      var normalized := NormalizeAll(host, fp, candidates0).value;
      var candidates := SortCandidates(fp, normalized).value;
      SortCandidatesPermutes(fp, normalized);
      InSequence(candidates, normalized);
      forall i | 0 <= i < |candidates| ensures Stable(host, fp, candidates[i]) {
        assert candidates[i] in normalized;
      }
      AllStable(host, fp, candidates);
      SortCandidatesStable(fp, normalized);
    case ConditionalE(_, condition0, whenTrue0, whenFalse0) =>
      NormalFormStable(host, fp, condition0);
      if NormalizeNode(host, fp, whenTrue0).Success? {
        NormalFormStable(host, fp, whenTrue0);
      }
      if NormalizeNode(host, fp, whenFalse0).Success? {
        NormalFormStable(host, fp, whenFalse0);
      }
    case CallE(_, _, arguments0) =>
      AllNormalStable(host, fp, arguments0);
      AllStable(host, fp, NormalizeAll(host, fp, arguments0).value);
    case _ =>
  }

  lemma {:induction false} AllNormalStable(host: Host, fp: Fingerprint, es: seq<Expr>)
    requires NormalizeAll(host, fp, es).Success?
    ensures var ns := NormalizeAll(host, fp, es).value;
            forall i | 0 <= i < |ns| :: Stable(host, fp, ns[i])
    decreases es, 0
  {
    if es != [] {
      NormalFormStable(host, fp, es[0]);
      AllNormalStable(host, fp, es[1..]);
    }
  }

  // ----- normal forms are reduced -----

  predicate Ordered(fp: Fingerprint, es: seq<Expr>) {
    && (forall i | 0 <= i < |es| :: fp(es[i]).Success?)
    && forall i, j | 0 <= i < j < |es| :: fp(es[i]).value <= fp(es[j]).value
  }

  /** Nothing is left to fold, to choose, to cancel or to reorder. */
  predicate Reduced(fp: Fingerprint, e: Expr)
    decreases e, 1
  {
    match e
    case UnaryE(_, op, input) =>
      Reduced(fp, input) && !input.LiteralE? && !(op == Not && input.UnaryE? && input.op == Not)
    case BinaryE(_, op, left, right) =>
      && Reduced(fp, left) && Reduced(fp, right)
      && !(left.LiteralE? && (op == Coalesce || right.LiteralE?))
    case MembershipE(_, input, candidates, _) =>
      && Reduced(fp, input) && AllReduced(fp, candidates) && Ordered(fp, candidates)
      && !(input.LiteralE? && forall i | 0 <= i < |candidates| :: candidates[i].LiteralE?)
    case ConditionalE(_, condition, whenTrue, whenFalse) =>
      && Reduced(fp, condition) && Reduced(fp, whenTrue) && Reduced(fp, whenFalse)
      && !(condition.LiteralE? && condition.datum.Val? && condition.datum.value.TruthV?)
    case CallE(_, f, arguments) =>
      AllReduced(fp, arguments) && !(f.deterministic && forall i | 0 <= i < |arguments| :: arguments[i].LiteralE?)
    case _ => true
  }

  predicate AllReduced(fp: Fingerprint, es: seq<Expr>)
    decreases es, 0
  {
    es == [] || (Reduced(fp, es[0]) && AllReduced(fp, es[1..]))
  }

  lemma {:induction false} AllReducedIs(fp: Fingerprint, es: seq<Expr>)
    ensures AllReduced(fp, es) <==> forall i | 0 <= i < |es| :: Reduced(fp, es[i])
  {
    hide Reduced;
    if es != [] {
      AllReducedIs(fp, es[1..]);
      assert forall i | 0 < i < |es| :: es[i] == es[1..][i - 1];
      assert forall i | 0 <= i < |es[1..]| :: es[1..][i] == es[i + 1];
    }
  }

  lemma CandidatesReduced(fp: Fingerprint, normalized: seq<Expr>)
    requires SortCandidates(fp, normalized).Success? && AllReduced(fp, normalized)
    ensures var candidates := SortCandidates(fp, normalized).value;
            AllReduced(fp, candidates) && Ordered(fp, candidates)
  {
    hide Reduced;
    var candidates, keyed := SortCandidates(fp, normalized).value, KeyAll(fp, normalized).value;
    SortCandidatesPermutes(fp, normalized);
    InSequence(candidates, normalized);
    AllReducedIs(fp, normalized);
    forall i | 0 <= i < |candidates| ensures Reduced(fp, candidates[i]) {
      assert candidates[i] in normalized;
    }
    AllReducedIs(fp, candidates);
    SortProperties(keyed);
    forall i | 0 <= i < |candidates| ensures fp(candidates[i]) == Success(SortByKey(keyed)[i].key) {
      KeyStays(fp, normalized, keyed, i);
    }
  }

  lemma KeyStays(fp: Fingerprint, es: seq<Expr>, keyed: seq<Keyed<Expr>>, i: nat)
    requires KeyAll(fp, es) == Success(keyed) && multiset(SortByKey(keyed)) == multiset(keyed) && i < |SortByKey(keyed)|
    ensures fp(SortByKey(keyed)[i].item) == Success(SortByKey(keyed)[i].key)
  {
    assert SortByKey(keyed)[i] in multiset(keyed);
    var j :| 0 <= j < |keyed| && keyed[j] == SortByKey(keyed)[i];
  }

  /** Normal forms are reduced: no constant operation, no decided choice, no double negation, candidates in order. */
  lemma {:induction false} NormalFormReduced(host: Host, fp: Fingerprint, e: Expr)
    requires NormalizeNode(host, fp, e).Success?
    ensures Reduced(fp, NormalizeNode(host, fp, e).value)
    decreases e, 1
  {
    hide EvalUnary, EvalBinary, Membership, Ordered, SortCandidates;
    match e
    case UnaryE(_, _, input) => NormalFormReduced(host, fp, input);
    case BinaryE(_, _, left, right) =>
      NormalFormReduced(host, fp, left);
      if NormalizeNode(host, fp, right).Success? {
        NormalFormReduced(host, fp, right);
      }
    case MembershipE(_, input, candidates, _) =>
      NormalFormReduced(host, fp, input);
      AllNormalReduced(host, fp, candidates);
      CandidatesReduced(fp, NormalizeAll(host, fp, candidates).value);
    case ConditionalE(_, condition, whenTrue, whenFalse) =>
      NormalFormReduced(host, fp, condition);
      if NormalizeNode(host, fp, whenTrue).Success? {
        NormalFormReduced(host, fp, whenTrue);
      }
      if NormalizeNode(host, fp, whenFalse).Success? {
        NormalFormReduced(host, fp, whenFalse);
      }
    case CallE(_, _, arguments) => AllNormalReduced(host, fp, arguments);
    case _ =>
  }

  lemma {:induction false} AllNormalReduced(host: Host, fp: Fingerprint, es: seq<Expr>)
    requires NormalizeAll(host, fp, es).Success?
    ensures AllReduced(fp, NormalizeAll(host, fp, es).value)
    decreases es, 0
  {
    hide NormalizeNode, Reduced;
    if es != [] {
      NormalFormReduced(host, fp, es[0]);
      AllNormalReduced(host, fp, es[1..]);
    }
  }

  ghost predicate InjectiveFingerprint(fp: Fingerprint) {
    forall a, b {:trigger fp(a), fp(b)} :: fp(a).Success? && fp(a) == fp(b) ==> a == b
  }

  /** Candidate order is not semantic: permuted candidate lists normalize to one tree, or fail together. */
  lemma CandidateOrderIrrelevant(
    host: Host, fp: Fingerprint, ty: TypeDef, input: Expr, a: seq<Expr>, b: seq<Expr>, negate: bool)
    requires multiset(a) == multiset(b)
    requires InjectiveFingerprint(fp)
    ensures SameOutcome(NormalizeNode(host, fp, MembershipE(ty, input, a, negate)),
                        NormalizeNode(host, fp, MembershipE(ty, input, b, negate)))
  {
    hide FinishMembership, NormalizeAll;
    NormalizeAllPermuted(host, fp, a, b);
    var na, nb := NormalizeAll(host, fp, a), NormalizeAll(host, fp, b);
    var n := NormalizeNode(host, fp, input);
    if na.Success? && n.Success? {
      FinishMembershipCanonical(fp, ty, n.value, na.value, nb.value, negate);
    }
  }

  lemma FinishMembershipCanonical(
    fp: Fingerprint, ty: TypeDef, input: Expr, a: seq<Expr>, b: seq<Expr>, negate: bool)
    requires multiset(a) == multiset(b)
    requires InjectiveFingerprint(fp)
    ensures SameOutcome(FinishMembership(fp, ty, input, a, negate), FinishMembership(fp, ty, input, b, negate))
  {
    hide SortCandidates, Membership;
    SortCandidatesCanonical(fp, a, b);
  }

  lemma NormalizeAllPermuted(host: Host, fp: Fingerprint, a: seq<Expr>, b: seq<Expr>)
    requires multiset(a) == multiset(b)
    ensures NormalizeAll(host, fp, a).Success? <==> NormalizeAll(host, fp, b).Success?
    ensures NormalizeAll(host, fp, a).Success? ==>
              multiset(NormalizeAll(host, fp, a).value) == multiset(NormalizeAll(host, fp, b).value)
  {
    InSequence(a, b);
    NormalizeAllMeaning(host, fp, a);
    NormalizeAllMeaning(host, fp, b);
    forall e | e in a ensures e in b {}
    if NormalizeAll(host, fp, a).Success? {
      forall i | 0 <= i < |b| ensures NormalizeNode(host, fp, b[i]).Success? {
        assert b[i] in a;
      }
      var normal := (e: Expr) => if NormalizeNode(host, fp, e).Success? then NormalizeNode(host, fp, e).value else e;
      ApplyMultiset(normal, a, b);
      assert Apply(normal, a) == NormalizeAll(host, fp, a).value;
      assert Apply(normal, b) == NormalizeAll(host, fp, b).value;
    } else {
      var i :| 0 <= i < |a| && NormalizeNode(host, fp, a[i]).Failure?;
      assert a[i] in b;
      var j :| 0 <= j < |b| && b[j] == a[i];
    }
  }

  lemma SortCandidatesCanonical(fp: Fingerprint, a: seq<Expr>, b: seq<Expr>)
    requires multiset(a) == multiset(b)
    requires InjectiveFingerprint(fp)
    ensures SameOutcome(SortCandidates(fp, a), SortCandidates(fp, b))
  {
    InSequence(a, b);
    KeyAllMeaning(fp, a);
    KeyAllMeaning(fp, b);
    if KeyAll(fp, a).Success? {
      forall i | 0 <= i < |b| ensures fp(b[i]).Success? {
        assert b[i] in a;
      }
      var ka, kb := KeyAll(fp, a).value, KeyAll(fp, b).value;
      var keyed := (e: Expr) => Keyed(if fp(e).Success? then fp(e).value else 0, e);
      ApplyMultiset(keyed, a, b);
      assert Apply(keyed, a) == ka;
      assert Apply(keyed, b) == kb;
      SortProperties(ka);
      SortProperties(kb);
      SortedKeysInjective(fp, ka);
      SortedUnique(SortByKey(ka), SortByKey(kb));
    } else {
      var i :| 0 <= i < |a| && fp(a[i]).Failure?;
      assert a[i] in b;
      var j :| 0 <= j < |b| && b[j] == a[i];
    }
  }

  lemma {:induction false} KeyAllMeaning(fp: Fingerprint, es: seq<Expr>)
    ensures KeyAll(fp, es).Success? <==> forall i | 0 <= i < |es| :: fp(es[i]).Success?
  {
    if es != [] {
      KeyAllMeaning(fp, es[1..]);
      assert forall i | 0 < i < |es| :: es[i] == es[1..][i - 1];
      assert forall i | 0 <= i < |es[1..]| :: es[1..][i] == es[i + 1];
    }
  }

  lemma SortedKeysInjective(fp: Fingerprint, keyed: seq<Keyed<Expr>>)
    requires InjectiveFingerprint(fp)
    requires forall i | 0 <= i < |keyed| :: fp(keyed[i].item) == Success(keyed[i].key)
    ensures KeysInjective(SortByKey(keyed))
  {
    var sorted := SortByKey(keyed);
    SortProperties(keyed);
    InSequence(sorted, keyed);
    forall i | 0 <= i < |sorted| ensures fp(sorted[i].item) == Success(sorted[i].key) {
      assert sorted[i] in keyed;
    }
  }
}
