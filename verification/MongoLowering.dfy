/// Expression lowering preserves meaning, and the totality analysis is sound
/// (`engines/mongodb/src/compiler.rs` against `expr/eval.rs`).

module MongoLowering {
  import opened Results
  import opened Semantics
  import opened Models
  import opened Expressions
  import opened Bson
  import opened MongoCompiler

  /** In this document the pair evaluates to the datum: its tag, and its value when it has one. */
  ghost predicate Represents(doc: Document, c: Lowered, d: Datum) {
    && EvalAgg(c.state, doc) == Success(BInt32(Tag(d)))
    && EvalAgg(c.value, doc).Success?
    && (d.Val? ==> Carries(EvalAgg(c.value, doc).value, d.value) && ValidValue(c.ty, d.value))
    && (!d.Val? ==> EvalAgg(c.value, doc).value in {BNull, BMissing})
    && (c.always ==> d.Val?)
  }

  /** A document column holds a datum of the source row. */
  ghost predicate ColumnHolds(doc: Document, column: Column, d: Datum) {
    && EvalAgg(Path(column.stateField), doc) == Success(BInt32(Tag(d)))
    && var value := EvalAgg(Path(column.valueField), doc).value;
       && (d.Val? ==> Carries(value, d.value))
       && (!d.Val? ==> value in {BNull, BMissing})
       && (column.always ==> d.Val?)
  }

  ghost predicate DocumentHolds(doc: Document, layouts: seq<ScopeLayout>, records: seq<Row>) {
    && |layouts| == |records|
    && forall s | 0 <= s < |layouts| ::
         && |layouts[s].fields| == |records[s].values|
         && forall f | 0 <= f < |layouts[s].fields| :: ColumnHolds(doc, layouts[s].fields[f], records[s].values[f])
  }

  // ----- elementary tests -----

  lemma StateIs(doc: Document, c: Lowered, d: Datum, tag: int)
    requires Represents(doc, c, d)
    ensures Computes(EqOp(c.state, IntLit(tag)), doc, Tag(d) == tag)
    ensures Computes(NeOp(c.state, IntLit(tag)), doc, Tag(d) != tag)
  {
    NumbersCompare(BInt32(Tag(d)), BInt32(tag), Tag(d), tag);
  }

  lemma TruthIs(doc: Document, e: Agg, t: Truth, u: Truth)
    requires EvalAgg(e, doc).Success? && Carries(EvalAgg(e, doc).value, TruthV(t))
    ensures Computes(EqOp(e, IntLit(TruthTag(u))), doc, t == u)
  {
    TruthsCompare(EvalAgg(e, doc).value, BInt32(TruthTag(u)), t, u);
  }

  lemma CondIs(doc: Document, test: Agg, b: bool, x: Agg, y: Agg)
    requires Computes(test, doc, b)
    ensures EvalAgg(CondOp(test, x, y), doc) == EvalAgg(if b then x else y, doc)
  {
  }

  /** A two-level choice between constants. */
  lemma ThreeWay(doc: Document, test: Agg, b: bool, i: int, test': Agg, b': bool, j: int, k: int)
    requires Computes(test, doc, b) && Computes(test', doc, b')
    ensures EvalAgg(CondOp(test, IntLit(i), CondOp(test', IntLit(j), IntLit(k))), doc)
         == Success(BInt32(if b then i else if b' then j else k))
  {
    CondIs(doc, test, b, IntLit(i), CondOp(test', IntLit(j), IntLit(k)));
    CondIs(doc, test', b', IntLit(j), IntLit(k));
  }

  lemma LitIs(doc: Document, i: int)
    ensures EvalAgg(IntLit(i), doc) == Success(BInt32(i))
  {
  }

  lemma TwoWay(doc: Document, test: Agg, b: bool, i: int, j: int)
    requires Computes(test, doc, b)
    ensures EvalAgg(CondOp(test, IntLit(i), IntLit(j)), doc) == Success(BInt32(if b then i else j))
  {
  }

  /** An expression that evaluates to the tag of a truth value. */
  ghost predicate Yields(e: Agg, doc: Document, t: Truth) {
    EvalAgg(e, doc) == Success(BInt32(TruthTag(t)))
  }

  lemma TruthRepresents(doc: Document, e: Agg, t: Truth)
    requires Yields(e, doc, t)
    ensures Represents(doc, TruthLowered(e), Val(TruthV(t)))
  {
  }

  // ----- comparisons -----

  /** Two valid values of one scalar shape are of one kind. */
  lemma OneShapeOneKind(ty: TypeDef, ty': TypeDef, v: Value, w: Value)
    requires SupportedType(ty) && ty.shape == ty'.shape
    requires ValidValue(ty, v) && ValidValue(ty', w)
    ensures SameKind(v, w)
    ensures ty.shape.repr.FloatRepr? <==> v.FloatV?
    ensures ty.shape.repr.TruthRepr? <==> v.TruthV?
    ensures ty.shape.repr.BytesRepr? <==> v.BytesV?
  {
  }

  lemma OnlyNaNReadsNaN(f: F64)
    ensures Text(BDouble(f)).Success? && Text(BDouble(f)).value.BString?
    ensures Text(BDouble(f)).value.s == "NaN" <==> f == NaN
  {
    if f.Finite? {
      assert Text(BDouble(f)).value.s[0] != 'N';
    }
  }

  lemma CmpComputes(doc: Document, op: CompareOp, x: Agg, y: Agg, b: Bson, c: Bson)
    requires EvalAgg(x, doc) == Success(b) && EvalAgg(y, doc) == Success(c)
    ensures Computes(Cmp(op, x, y), doc, Holds(op, CompareBson(b, c)))
  {
  }

  lemma TextIs(doc: Document, e: Agg, b: Bson)
    requires EvalAgg(e, doc) == Success(b)
    ensures EvalAgg(ToText(e), doc) == Text(b)
  {
  }

  lemma TextDiffers(doc: Document, e: Agg, b: Bson, name: string)
    requires EvalAgg(e, doc) == Success(b) && Text(b).Success? && Text(b).value.BString?
    ensures Computes(NeOp(ToText(e), Lit(BString(name))), doc, Text(b).value.s != name)
  {
    assert EvalAgg(Lit(BString(name)), doc) == Success(BString(name));
    hide Text, EvalAgg;
    CompareStringEqual(Text(b).value.s, name);
    TextIs(doc, e, b);
    CmpComputes(doc, CNe, ToText(e), Lit(BString(name)), Text(b).value, BString(name));
  }

  lemma NotNaNIs(doc: Document, e: Agg, f: F64)
    requires EvalAgg(e, doc) == Success(BDouble(f))
    ensures Computes(NotNaN(e), doc, f != NaN)
  {
    hide EvalAgg, Text;
    OnlyNaNReadsNaN(f);
    TextDiffers(doc, e, BDouble(f), "NaN");
  }

  lemma ValueEqualCorrect(doc: Document, l: Lowered, r: Lowered, v: Value, w: Value)
    requires Represents(doc, l, Val(v)) && Represents(doc, r, Val(w))
    requires ValueEqual(l, r).Success?
    ensures Computes(ValueEqual(l, r).value, doc, ValueEq(v, w))
  {
    OneShapeOneKind(l.ty, r.ty, v, w);
    var b, c := EvalAgg(l.value, doc).value, EvalAgg(r.value, doc).value;
    CarriersEqual(b, c, v, w);
    assert Computes(EqOp(l.value, r.value), doc, CompareBson(b, c) == Equal);
    if l.ty.shape.repr.FloatRepr? {
      NotNaNIs(doc, l.value, v.f);
      NotNaNIs(doc, r.value, w.f);
      AndThree(doc, NotNaN(l.value), NotNaN(r.value), EqOp(l.value, r.value), v.f != NaN, w.f != NaN,
               CompareBson(b, c) == Equal);
    }
  }

  lemma RankIs(doc: Document, e: Agg, t: Truth)
    requires EvalAgg(e, doc).Success? && Carries(EvalAgg(e, doc).value, TruthV(t))
    ensures EvalAgg(TruthOrderRank(e), doc) == Success(BInt32(t.Rank()))
  {
    hide EvalAgg;
    TruthIs(doc, e, t, True);
    TruthIs(doc, e, t, False);
    ThreeWay(doc, EqOp(e, IntLit(TRUTH_TRUE)), t == True, 0, EqOp(e, IntLit(TRUTH_FALSE)), t == False, 1, 2);
  }

  lemma HoldsIsOrder(op: BinaryOp, o: Ordering)
    requires IsOrder(op)
    ensures Holds(OrderOperator(op), o) <==> OrderHolds(op, o)
  {
  }

  /** DOL order of two values as a boolean; incomparable values are in no order. */
  predicate InOrder(op: BinaryOp, v: Value, w: Value) {
    match CompareValue(v, w)
    case None => false
    case Some(o) => OrderHolds(op, o)
  }

  lemma RankedOrder(doc: Document, op: BinaryOp, x: Agg, y: Agg, t: Truth, u: Truth)
    requires IsOrder(op)
    requires EvalAgg(x, doc).Success? && Carries(EvalAgg(x, doc).value, TruthV(t))
    requires EvalAgg(y, doc).Success? && Carries(EvalAgg(y, doc).value, TruthV(u))
    ensures Computes(Cmp(OrderOperator(op), TruthOrderRank(x), TruthOrderRank(y)), doc,
                     InOrder(op, TruthV(t), TruthV(u)))
  {
    hide EvalAgg;
    RankIs(doc, x, t);
    RankIs(doc, y, u);
    CmpComputes(doc, OrderOperator(op), TruthOrderRank(x), TruthOrderRank(y), BInt32(t.Rank()), BInt32(u.Rank()));
    NumbersCompare(BInt32(t.Rank()), BInt32(u.Rank()), t.Rank(), u.Rank());
    HoldsIsOrder(op, CompareInt(t.Rank(), u.Rank()));
  }

  lemma ValueOrderCorrect(doc: Document, op: BinaryOp, l: Lowered, r: Lowered, v: Value, w: Value)
    requires IsOrder(op)
    requires Represents(doc, l, Val(v)) && Represents(doc, r, Val(w))
    requires ValueOrder(op, l, r).Success?
    ensures Computes(ValueOrder(op, l, r).value, doc, InOrder(op, v, w))
  {
    hide EvalAgg, CompareBson, Computes;
    OneShapeOneKind(l.ty, r.ty, v, w);
    var b, c := EvalAgg(l.value, doc).value, EvalAgg(r.value, doc).value;
    if l.ty.shape.repr.TruthRepr? {
      RankedOrder(doc, op, l.value, r.value, v.t, w.t);
    } else {
      var ordered := Cmp(OrderOperator(op), l.value, r.value);
      CmpComputes(doc, OrderOperator(op), l.value, r.value, b, c);
      HoldsIsOrder(op, CompareBson(b, c));
      if CompareValue(v, w).Some? {
        CarriersCompare(b, c, v, w);
      }
      if l.ty.shape.repr.FloatRepr? {
        NotNaNIs(doc, l.value, v.f);
        NotNaNIs(doc, r.value, w.f);
        AndThree(doc, NotNaN(l.value), NotNaN(r.value), ordered, v.f != NaN, w.f != NaN,
                 OrderHolds(op, CompareBson(b, c)));
      }
    }
  }

  /** Absent operands make a comparison unknown; the comparison itself only matters when both are values. */
  lemma ComparisonTruthCorrect(doc: Document, l: Lowered, r: Lowered, d: Datum, e: Datum, comparison: Agg, b: bool)
    requires Represents(doc, l, d) && Represents(doc, r, e)
    requires d.Val? && e.Val? ==> Computes(comparison, doc, b)
    ensures Represents(doc, ComparisonTruth(l, r, comparison), if d.Val? && e.Val? then TruthOf(b) else UNKNOWN)
  {
    hide EvalAgg, Represents;
    StateIs(doc, l, d, STATE_VALUE);
    StateIs(doc, r, e, STATE_VALUE);
    AndTwo(doc, NeOp(l.state, IntLit(STATE_VALUE)), NeOp(r.state, IntLit(STATE_VALUE)), !d.Val?, !e.Val?);
    var both := d.Val? && e.Val?;
    var test := MkOr([NeOp(l.state, IntLit(STATE_VALUE)), NeOp(r.state, IntLit(STATE_VALUE))]);
    var inner := CondOp(comparison, IntLit(TRUTH_TRUE), IntLit(TRUTH_FALSE));
    CondIs(doc, test, !both, IntLit(TRUTH_UNKNOWN), inner);
    if both {
      TwoWay(doc, comparison, b, TRUTH_TRUE, TRUTH_FALSE);
    } else {
      LitIs(doc, TRUTH_UNKNOWN);
    }
    var t := if both then (if b then True else False) else Unknown;
    TruthRepresents(doc, ComparisonTruth(l, r, comparison).value, t);
  }

  // ----- operators -----

  lemma TotalTruthValue(doc: Document, c: Lowered, d: Datum)
    requires Represents(doc, c, d) && RequireTotalTruth(c).Success?
    ensures d.Val? && d.value.TruthV?
  {
  }

  lemma PresenceCorrect(doc: Document, op: UnaryOp, c: Lowered, d: Datum, ty: TypeDef)
    requires Represents(doc, c, d) && op in {IsNull, IsMissing, IsPresent}
    ensures Represents(doc, CompileUnary(op, c, ty).value, EvalUnary(op, d, ty).value)
  {
    hide EvalAgg, Represents;
    var tag := if op == IsNull then STATE_NULL else STATE_MISSING;
    StateIs(doc, c, d, tag);
    var yes, no := if op == IsPresent then False else True, if op == IsPresent then True else False;
    TwoWay(doc, EqOp(c.state, IntLit(tag)), Tag(d) == tag, TruthTag(yes), TruthTag(no));
    TruthRepresents(doc, CompileUnary(op, c, ty).value.value, if Tag(d) == tag then yes else no);
  }

  lemma NotCorrect(doc: Document, c: Lowered, t: Truth, ty: TypeDef)
    requires Represents(doc, c, Val(TruthV(t))) && CompileUnary(Not, c, ty).Success?
    ensures Represents(doc, CompileUnary(Not, c, ty).value, Val(TruthV(t.Negate())))
  {
    TruthIs(doc, c.value, t, True);
    TruthIs(doc, c.value, t, False);
    hide EvalAgg, Represents;
    ThreeWay(doc, EqOp(c.value, IntLit(TRUTH_TRUE)), t == True, TRUTH_FALSE,
             EqOp(c.value, IntLit(TRUTH_FALSE)), t == False, TRUTH_TRUE, TRUTH_UNKNOWN);
    TruthRepresents(doc, CompileUnary(Not, c, ty).value.value, t.Negate());
  }

  lemma UnaryCorrect(doc: Document, op: UnaryOp, c: Lowered, d: Datum, ty: TypeDef)
    requires Represents(doc, c, d)
    requires CompileUnary(op, c, ty).Success? && EvalUnary(op, d, ty).Success?
    requires ValidDatum(ty, Optional, EvalUnary(op, d, ty).value)
    ensures Represents(doc, CompileUnary(op, c, ty).value, EvalUnary(op, d, ty).value)
  {
    match op
    case Not =>
      TotalTruthValue(doc, c, d);
      NotCorrect(doc, c, d.value.t, ty);
    case IsNull => PresenceCorrect(doc, op, c, d, ty);
    case IsMissing => PresenceCorrect(doc, op, c, d, ty);
    case IsPresent => PresenceCorrect(doc, op, c, d, ty);
    case NullableLift =>
  }

  lemma ConnectiveCorrect(doc: Document, l: Lowered, r: Lowered, t: Truth, u: Truth, dominant: Truth, other: Truth)
    requires Represents(doc, l, Val(TruthV(t))) && Represents(doc, r, Val(TruthV(u)))
    ensures Yields(Connective(l, r, TruthTag(dominant), TruthTag(other)), doc,
                   if t == dominant || u == dominant then dominant
                   else if t == other && u == other then other
                   else Unknown)
  {
    TruthIs(doc, l.value, t, dominant);
    TruthIs(doc, r.value, u, dominant);
    TruthIs(doc, l.value, t, other);
    TruthIs(doc, r.value, u, other);
    hide EvalAgg, Represents;
    var ld, rd := EqOp(l.value, IntLit(TruthTag(dominant))), EqOp(r.value, IntLit(TruthTag(dominant)));
    var lo, ro := EqOp(l.value, IntLit(TruthTag(other))), EqOp(r.value, IntLit(TruthTag(other)));
    AndTwo(doc, ld, rd, t == dominant, u == dominant);
    AndTwo(doc, lo, ro, t == other, u == other);
    ThreeWay(doc, MkOr([ld, rd]), t == dominant || u == dominant, TruthTag(dominant),
             MkAnd([lo, ro]), t == other && u == other, TruthTag(other), TRUTH_UNKNOWN);
  }

  lemma StatesEqual(doc: Document, l: Lowered, r: Lowered, d: Datum, e: Datum)
    requires Represents(doc, l, d) && Represents(doc, r, e)
    ensures Computes(EqOp(l.state, r.state), doc, Tag(d) == Tag(e))
  {
    NumbersCompare(BInt32(Tag(d)), BInt32(Tag(e)), Tag(d), Tag(e));
  }

  lemma DistinctCorrect(doc: Document, l: Lowered, r: Lowered, d: Datum, e: Datum, equal: Agg)
    requires Represents(doc, l, d) && Represents(doc, r, e)
    requires d.Val? && e.Val? ==> Computes(equal, doc, ValueEq(d.value, e.value))
    ensures Computes(DistinctEqualAgg(l, r, equal), doc, DistinctEqual(d, e))
  {
    StateIs(doc, l, d, STATE_VALUE);
    StateIs(doc, r, e, STATE_VALUE);
    StatesEqual(doc, l, r, d, e);
    hide EvalAgg, Represents;
    var bothValue := MkAnd([EqOp(l.state, IntLit(STATE_VALUE)), EqOp(r.state, IntLit(STATE_VALUE))]);
    AndTwo(doc, EqOp(l.state, IntLit(STATE_VALUE)), EqOp(r.state, IntLit(STATE_VALUE)), d.Val?, e.Val?);
    var inner := CondOp(bothValue, equal, Lit(BBool(true)));
    CondIs(doc, bothValue, d.Val? && e.Val?, equal, Lit(BBool(true)));
    assert Computes(inner, doc, d.Val? && e.Val? ==> ValueEq(d.value, e.value)) by {
      TrueIs(doc);
    }
    AndTwo(doc, EqOp(l.state, r.state), inner, Tag(d) == Tag(e), d.Val? && e.Val? ==> ValueEq(d.value, e.value));
  }

  lemma CoalesceCorrect(doc: Document, l: Lowered, r: Lowered, d: Datum, e: Datum, ty: TypeDef)
    requires Represents(doc, l, d)
    requires !d.Val? ==> Represents(doc, r, e)
    requires ValidDatum(ty, Optional, if d.Val? then d else e)
    ensures Represents(doc, CompileBinary(Coalesce, l, r, ty).value, if d.Val? then d else e)
  {
    hide EvalAgg;
    StateIs(doc, l, d, STATE_VALUE);
    CondIs(doc, EqOp(l.state, IntLit(STATE_VALUE)), d.Val?, l.state, r.state);
    CondIs(doc, EqOp(l.state, IntLit(STATE_VALUE)), d.Val?, l.value, r.value);
  }

  lemma BinaryCorrect(doc: Document, host: Host, op: BinaryOp, l: Lowered, r: Lowered, d: Datum, e: Datum, ty: TypeDef)
    requires Represents(doc, l, d) && Represents(doc, r, e)
    requires CompileBinary(op, l, r, ty).Success? && EvalBinary(host, op, d, e).Success?
    requires ValidDatum(ty, Optional, EvalBinary(host, op, d, e).value)
    ensures Represents(doc, CompileBinary(op, l, r, ty).value, EvalBinary(host, op, d, e).value)
  {
    hide EvalAgg, Represents;
    if op == Eq || op == Ne {
      var equal := ValueEqual(l, r).value;
      if d.Val? && e.Val? {
        ValueEqualCorrect(doc, l, r, d.value, e.value);
        NotIs(doc, equal, ValueEq(d.value, e.value));
      }
      var b := d.Val? && e.Val? && (ValueEq(d.value, e.value) == (op == Eq));
      ComparisonTruthCorrect(doc, l, r, d, e, if op == Eq then equal else NotOp(equal), b);
    } else if IsOrder(op) {
      if d.Val? && e.Val? {
        ValueOrderCorrect(doc, op, l, r, d.value, e.value);
      }
      ComparisonTruthCorrect(doc, l, r, d, e, ValueOrder(op, l, r).value,
                             d.Val? && e.Val? && InOrder(op, d.value, e.value));
    } else if op == IsDistinctFrom || op == IsNotDistinctFrom {
      var equal := ValueEqual(l, r).value;
      if d.Val? && e.Val? {
        ValueEqualCorrect(doc, l, r, d.value, e.value);
      }
      DistinctCorrect(doc, l, r, d, e, equal);
      DistinctTruth(doc, DistinctEqualAgg(l, r, equal), DistinctEqual(d, e), op == IsNotDistinctFrom);
    } else if op == And || op == Or {
      TotalTruthValue(doc, l, d);
      TotalTruthValue(doc, r, e);
      if op == And {
        ConnectiveCorrect(doc, l, r, d.value.t, e.value.t, False, True);
        TruthRepresents(doc, Connective(l, r, TRUTH_FALSE, TRUTH_TRUE), d.value.t.And(e.value.t));
      } else {
        ConnectiveCorrect(doc, l, r, d.value.t, e.value.t, True, False);
        TruthRepresents(doc, Connective(l, r, TRUTH_TRUE, TRUTH_FALSE), d.value.t.Or(e.value.t));
      }
    } else {
      CoalesceCorrect(doc, l, r, d, e, ty);
    }
  }

  lemma DistinctTruth(doc: Document, same: Agg, b: bool, keep: bool)
    requires Computes(same, doc, b)
    ensures Represents(doc,
              TruthLowered(CondOp(if keep then same else NotOp(same), IntLit(TRUTH_TRUE), IntLit(TRUTH_FALSE))),
                       TruthOf(b == keep))
  {
    NotIs(doc, same, b);
    TruthRepresents(doc, CondOp(if keep then same else NotOp(same), IntLit(TRUTH_TRUE), IntLit(TRUTH_FALSE)),
                    if b == keep then True else False);
  }

  // ----- membership -----

  lemma {:induction false} ComparisonsCorrect(doc: Document, c: Lowered, d: Datum, candidates: seq<Lowered>,
      ds: seq<Datum>)
    requires Represents(doc, c, d) && |candidates| == |ds|
    requires forall i | 0 <= i < |ds| :: Represents(doc, candidates[i], ds[i])
    requires Comparisons(c, candidates).Success?
    ensures var rs := Comparisons(c, candidates).value;
            forall i | 0 <= i < |ds| :: Represents(doc, rs[i], CompareEquality(d, ds[i], false))
    decreases |ds|
  {
    if ds != [] {
      hide Represents, EvalAgg;
      ComparisonsCorrect(doc, c, d, candidates[1..], ds[1..]);
      var equal := ValueEqual(c, candidates[0]).value;
      if d.Val? && ds[0].Val? {
        ValueEqualCorrect(doc, c, candidates[0], d.value, ds[0].value);
      }
      ComparisonTruthCorrect(doc, c, candidates[0], d, ds[0], equal,
                             d.Val? && ds[0].Val? && ValueEq(d.value, ds[0].value));
      var rs, rest := Comparisons(c, candidates).value, Comparisons(c, candidates[1..]).value;
      forall i | 0 <= i < |ds| ensures Represents(doc, rs[i], CompareEquality(d, ds[i], false)) {
        if i > 0 {
          assert rs[i] == rest[i - 1] && ds[i] == ds[1..][i - 1];
        }
      }
    }
  }

  lemma TagTestsCorrect(doc: Document, rs: seq<Lowered>, d: Datum, ds: seq<Datum>, u: Truth)
    requires |rs| == |ds|
    requires forall i | 0 <= i < |ds| :: Represents(doc, rs[i], CompareEquality(d, ds[i], false))
    ensures Computes(MkOr(TagTests(rs, TruthTag(u))), doc,
                     exists i | 0 <= i < |ds| :: CompareEquality(d, ds[i], false) == Val(TruthV(u)))
  {
    var bs := seq(|ds|, i requires 0 <= i < |ds| => CompareEquality(d, ds[i], false) == Val(TruthV(u)));
    forall i | 0 <= i < |ds| ensures Computes(TagTests(rs, TruthTag(u))[i], doc, bs[i]) {
      TruthIs(doc, rs[i].value, CompareEquality(d, ds[i], false).value.t, u);
    }
    OrMany(doc, TagTests(rs, TruthTag(u)), bs);
    assert true in bs <==> exists i | 0 <= i < |bs| :: bs[i];
  }

  lemma MembershipCorrect(doc: Document, c: Lowered, d: Datum, candidates: seq<Lowered>, ds: seq<Datum>, negate: bool)
    requires Represents(doc, c, d) && |candidates| == |ds|
    requires forall i | 0 <= i < |ds| :: Represents(doc, candidates[i], ds[i])
    requires CompileMembership(c, candidates, negate).Success?
    ensures Represents(doc, CompileMembership(c, candidates, negate).value, Membership(d, ds, negate, false))
  {
    hide EvalAgg, Represents, Membership;
    var rs := Comparisons(c, candidates).value;
    ComparisonsCorrect(doc, c, d, candidates, ds);
    TagTestsCorrect(doc, rs, d, ds, True);
    TagTestsCorrect(doc, rs, d, ds, Unknown);
    MembershipMeaning(d, ds, negate, false);
    var hit, miss := if negate then False else True, if negate then True else False;
    var t := if AnyComparesTrue(d, ds) then hit else if AnyComparesUnknown(d, ds) then Unknown else miss;
    assert Membership(d, ds, negate, false) == Val(TruthV(t));
    if rs == [] {
      LitIs(doc, TruthTag(miss));
    } else {
      ThreeWay(doc, MkOr(TagTests(rs, TRUTH_TRUE)), AnyComparesTrue(d, ds), TruthTag(hit),
               MkOr(TagTests(rs, TRUTH_UNKNOWN)), AnyComparesUnknown(d, ds), TRUTH_UNKNOWN, TruthTag(miss));
    }
    TruthRepresents(doc, CompileMembership(c, candidates, negate).value.value, t);
  }

  lemma ConditionalCorrect(doc: Document, c: Lowered, t: Lowered, f: Lowered, u: Truth, d: Datum, ty: TypeDef)
    requires Represents(doc, c, Val(TruthV(u)))
    requires Represents(doc, if u == True then t else f, d)
    requires ValidDatum(ty, Optional, d)
    requires CompileConditional(c, t, f, ty).Success?
    ensures Represents(doc, CompileConditional(c, t, f, ty).value, d)
  {
    TruthIs(doc, c.value, u, True);
    CondIs(doc, EqOp(c.value, IntLit(TRUTH_TRUE)), u == True, t.state, f.state);
    CondIs(doc, EqOp(c.value, IntLit(TRUTH_TRUE)), u == True, t.value, f.value);
  }

  lemma BoundDatumCorrect(doc: Document, ty: TypeDef, d: Datum)
    requires BoundDatum(ty, d).Success?
    ensures Represents(doc, BoundDatum(ty, d).value, d)
  {
    if d.Val? {
      CodecRoundTrip(ty, d.value, BNull);
    }
  }

  // ----- the whole expression -----

  /** Every node lowered so far represents what the evaluator computes for it. */
  ghost predicate PrefixRepresents(doc: Document, rt: Runtime, p: Prepared, values: seq<Lowered>)
    requires Topological(p.nodes) && |values| <= |p.nodes|
  {
    forall id | 0 <= id < |values| ::
      EvalNode(rt, p.nodes, id).Success? ==> Represents(doc, values[id], EvalNode(rt, p.nodes, id).value)
  }

  lemma {:induction false} OperandsRepresent(
    doc: Document, rt: Runtime, p: Prepared, values: seq<Lowered>, ids: seq<nat>, bound: nat)
    requires Topological(p.nodes) && |values| <= |p.nodes| && bound <= |values|
    requires PrefixRepresents(doc, rt, p, values)
    requires forall i | 0 <= i < |ids| :: ids[i] < bound
    requires EvalNodes(rt, p.nodes, ids, bound).Success?
    ensures Operands(values, ids).Success?
    ensures forall i | 0 <= i < |ids| ::
              Represents(doc, Operands(values, ids).value[i], EvalNodes(rt, p.nodes, ids, bound).value[i])
    decreases |ids|
  {
    hide Represents, EvalNode;
    if ids != [] {
      OperandsRepresent(doc, rt, p, values, ids[1..], bound);
      var ds, rest := EvalNodes(rt, p.nodes, ids, bound).value, EvalNodes(rt, p.nodes, ids[1..], bound).value;
      assert ds == [ds[0]] + rest;
      forall i | 0 <= i < |ids| ensures Represents(doc, values[ids[i]], ds[i]) {
        if i > 0 {
          assert ids[i] == ids[1..][i - 1] && ds[i] == rest[i - 1];
          assert Operands(values, ids[1..]).value[i - 1] == values[ids[i]];
        }
      }
    }
  }

  lemma FieldCorrect(doc: Document, rt: Runtime, p: Prepared, layouts: seq<ScopeLayout>, id: nat, lowered: Lowered)
    requires Topological(p.nodes) && id < |p.nodes| && p.nodes[id].kind.FieldK?
    requires DocumentHolds(doc, layouts, rt.ctx.records)
    requires LowerNode(p.nodes[id], [], p.scopes, layouts, rt.ctx.parameters) == Success(lowered)
    requires EvalNode(rt, p.nodes, id).Success?
    ensures Represents(doc, lowered, EvalNode(rt, p.nodes, id).value)
  {
    var kind := p.nodes[id].kind;
    var column := layouts[kind.scope].fields[kind.slot];
    var d := rt.ctx.records[kind.scope].values[kind.slot];
    assert ColumnHolds(doc, column, d);
    assert EvalNode(rt, p.nodes, id) == Checked(p.nodes[id].ty, d);
  }

  lemma UnaryNode(doc: Document, rt: Runtime, p: Prepared, layouts: seq<ScopeLayout>, values: seq<Lowered>, id: nat,
      lowered: Lowered)
    requires Topological(p.nodes) && id < |p.nodes| && |values| == id && p.nodes[id].kind.UnaryK?
    requires PrefixRepresents(doc, rt, p, values)
    requires LowerNode(p.nodes[id], values, p.scopes, layouts, rt.ctx.parameters) == Success(lowered)
    requires EvalNode(rt, p.nodes, id).Success?
    ensures Represents(doc, lowered, EvalNode(rt, p.nodes, id).value)
  {
    hide Represents, CompileUnary, EvalUnary;
    var UnaryK(op, input) := p.nodes[id].kind;
    UnaryCorrect(doc, op, values[input], EvalNode(rt, p.nodes, input).value, p.nodes[id].ty);
  }

  lemma BinaryNode(doc: Document, rt: Runtime, p: Prepared, layouts: seq<ScopeLayout>, values: seq<Lowered>, id: nat,
      lowered: Lowered)
    requires Topological(p.nodes) && id < |p.nodes| && |values| == id && p.nodes[id].kind.BinaryK?
    requires PrefixRepresents(doc, rt, p, values)
    requires LowerNode(p.nodes[id], values, p.scopes, layouts, rt.ctx.parameters) == Success(lowered)
    requires EvalNode(rt, p.nodes, id).Success?
    ensures Represents(doc, lowered, EvalNode(rt, p.nodes, id).value)
  {
    hide Represents;
    var BinaryK(op, left, right) := p.nodes[id].kind;
    var d := EvalNode(rt, p.nodes, left).value;
    if op == Coalesce && d.Val? {
      CoalesceCorrect(doc, values[left], values[right], d, d, p.nodes[id].ty);
    } else {
      hide CompileBinary, EvalBinary;
      BinaryCorrect(doc, rt.host, op, values[left], values[right], d, EvalNode(rt, p.nodes, right).value,
                    p.nodes[id].ty);
    }
  }

  lemma MembershipNode(doc: Document, rt: Runtime, p: Prepared, layouts: seq<ScopeLayout>, values: seq<Lowered>,
      id: nat, lowered: Lowered)
    requires Topological(p.nodes) && id < |p.nodes| && |values| == id && p.nodes[id].kind.MembershipK?
    requires PrefixRepresents(doc, rt, p, values)
    requires LowerNode(p.nodes[id], values, p.scopes, layouts, rt.ctx.parameters) == Success(lowered)
    requires EvalNode(rt, p.nodes, id).Success?
    ensures Represents(doc, lowered, EvalNode(rt, p.nodes, id).value)
  {
    hide Represents, CompileMembership, Membership;
    var MembershipK(input, candidates, negate) := p.nodes[id].kind;
    OperandsRepresent(doc, rt, p, values, candidates, id);
    MembershipCorrect(doc, values[input], EvalNode(rt, p.nodes, input).value, Operands(values, candidates).value,
                      EvalNodes(rt, p.nodes, candidates, id).value, negate);
  }

  lemma ConditionalNode(doc: Document, rt: Runtime, p: Prepared, layouts: seq<ScopeLayout>, values: seq<Lowered>,
      id: nat, lowered: Lowered)
    requires Topological(p.nodes) && id < |p.nodes| && |values| == id && p.nodes[id].kind.ConditionalK?
    requires PrefixRepresents(doc, rt, p, values)
    requires LowerNode(p.nodes[id], values, p.scopes, layouts, rt.ctx.parameters) == Success(lowered)
    requires EvalNode(rt, p.nodes, id).Success?
    ensures Represents(doc, lowered, EvalNode(rt, p.nodes, id).value)
  {
    hide Represents, CompileConditional;
    var ConditionalK(condition, whenTrue, whenFalse) := p.nodes[id].kind;
    var u := AsTruth(EvalNode(rt, p.nodes, condition).value).value;
    var branch := if u == True then whenTrue else whenFalse;
    ConditionalCorrect(doc, values[condition], values[whenTrue], values[whenFalse], u,
                       EvalNode(rt, p.nodes, branch).value, p.nodes[id].ty);
  }

  lemma NodeCorrect(doc: Document, rt: Runtime, p: Prepared, layouts: seq<ScopeLayout>, values: seq<Lowered>, id: nat,
      lowered: Lowered)
    requires Topological(p.nodes) && id < |p.nodes| && |values| == id
    requires DocumentHolds(doc, layouts, rt.ctx.records)
    requires PrefixRepresents(doc, rt, p, values)
    requires LowerNode(p.nodes[id], values, p.scopes, layouts, rt.ctx.parameters) == Success(lowered)
    requires EvalNode(rt, p.nodes, id).Success?
    ensures Represents(doc, lowered, EvalNode(rt, p.nodes, id).value)
  {
    hide Represents, PrefixRepresents, DocumentHolds;
    match p.nodes[id].kind
    case FieldK(_, _, _) => FieldCorrect(doc, rt, p, layouts, id, lowered);
    case LiteralK(d) => BoundDatumCorrect(doc, p.nodes[id].ty, d);
    case ParameterK(name) => BoundDatumCorrect(doc, p.nodes[id].ty, rt.ctx.parameters[name].datum);
    case UnaryK(_, _) => UnaryNode(doc, rt, p, layouts, values, id, lowered);
    case BinaryK(_, _, _) => BinaryNode(doc, rt, p, layouts, values, id, lowered);
    case MembershipK(_, _, _) => MembershipNode(doc, rt, p, layouts, values, id, lowered);
    case ConditionalK(_, _, _) => ConditionalNode(doc, rt, p, layouts, values, id, lowered);
    case _ =>
  }

  lemma {:induction false} PrefixCorrect(doc: Document, rt: Runtime, p: Prepared, layouts: seq<ScopeLayout>, k: nat)
    requires Topological(p.nodes) && k <= |p.nodes|
    requires DocumentHolds(doc, layouts, rt.ctx.records)
    requires LowerPrefix(p, layouts, rt.ctx.parameters, k).Success?
    ensures PrefixRepresents(doc, rt, p, LowerPrefix(p, layouts, rt.ctx.parameters, k).value)
    decreases k
  {
    hide Represents, EvalNode, DocumentHolds;
    if k > 0 {
      PrefixCorrect(doc, rt, p, layouts, k - 1);
      var values := LowerPrefix(p, layouts, rt.ctx.parameters, k - 1).value;
      var last := LowerNode(p.nodes[k - 1], values, p.scopes, layouts, rt.ctx.parameters).value;
      if EvalNode(rt, p.nodes, k - 1).Success? {
        NodeCorrect(doc, rt, p, layouts, values, k - 1, last);
      }
    }
  }

  /** When the compiler accepts and evaluation succeeds, the compiled pair evaluates to the evaluated datum. */
  lemma LoweringPreservesMeaning(doc: Document, rt: Runtime, p: Prepared, layouts: seq<ScopeLayout>)
    requires WellFormed(p)
    requires DocumentHolds(doc, layouts, rt.ctx.records)
    requires LowerExpr(p, layouts, rt.ctx.parameters).Success?
    requires EvaluateDatum(p, rt).Success?
    ensures Represents(doc, LowerExpr(p, layouts, rt.ctx.parameters).value, EvaluateDatum(p, rt).value)
  {
    hide Represents, DocumentHolds;
    PrefixCorrect(doc, rt, p, layouts, |p.nodes|);
  }
}
