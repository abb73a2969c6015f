/// Laws of the value language: checked arithmetic, equality, order, casts, integer widths and the reading of
/// outer-joined fields (dol-core `semantics`, `expr/semantic.rs`, `expr/eval.rs`).

module SemanticLaws {
  import opened Results
  import opened Semantics
  import opened Models
  import opened Expressions

  function Signed(i: int): Datum { Val(IntV(i)) }

  function Unsigned(n: nat): Datum { Val(UIntV(n)) }

  // ----- arithmetic -----

  /** Signed arithmetic is exact, and fails exactly where the result leaves 128 bits. */
  lemma SignedExact(host: Host, i: int, j: int)
    ensures EvalBinary(host, Add, Signed(i), Signed(j))
         == if I128_MIN <= i + j <= I128_MAX then Success(Signed(i + j)) else Failure("EXPR-EVAL-003")
    ensures EvalBinary(host, Sub, Signed(i), Signed(j))
         == if I128_MIN <= i - j <= I128_MAX then Success(Signed(i - j)) else Failure("EXPR-EVAL-003")
    ensures EvalBinary(host, Mul, Signed(i), Signed(j))
         == if I128_MIN <= i * j <= I128_MAX then Success(Signed(i * j)) else Failure("EXPR-EVAL-003")
  {
  }

  /** Unsigned arithmetic is exact, and fails exactly where the result is negative or leaves 128 bits. */
  lemma UnsignedExact(host: Host, m: nat, n: nat)
    ensures EvalBinary(host, Add, Unsigned(m), Unsigned(n))
         == if m + n <= U128_MAX then Success(Unsigned(m + n)) else Failure("EXPR-EVAL-003")
    ensures EvalBinary(host, Sub, Unsigned(m), Unsigned(n))
         == if n <= m && m - n <= U128_MAX then Success(Unsigned(m - n)) else Failure("EXPR-EVAL-003")
    ensures EvalBinary(host, Mul, Unsigned(m), Unsigned(n))
         == if m * n <= U128_MAX then Success(Unsigned(m * n)) else Failure("EXPR-EVAL-003")
  {
  }

  /** Subtraction undoes addition, and division undoes multiplication without a remainder. */
  lemma ArithmeticInverts(host: Host, i: int, j: int)
    requires I128_MIN <= i <= I128_MAX && I128_MIN <= j <= I128_MAX
    ensures var sum := EvalBinary(host, Add, Signed(i), Signed(j));
            sum.Success? ==> EvalBinary(host, Sub, sum.value, Signed(j)) == Success(Signed(i))
                             && EvalBinary(host, Sub, sum.value, Signed(i)) == Success(Signed(j))
    ensures var product := EvalBinary(host, Mul, Signed(i), Signed(j));
            product.Success? && j != 0 && !(product.value == Signed(I128_MIN) && j == -1) ==>
              && EvalBinary(host, Div, product.value, Signed(j)) == Success(Signed(i))
              && EvalBinary(host, Rem, product.value, Signed(j)) == Success(Signed(0))
  {
    if j != 0 {
      ProductDivides(i, j);
      hide TruncDiv;
    }
  }

  lemma ProductDivides(i: int, j: int)
    requires j != 0
    ensures IntegerArithmetic(Div, i * j, j) == Success(i) && IntegerArithmetic(Rem, i * j, j) == Success(0)
  {
    DivisionTruncates(i * j, j);
    OnlyQuotient(i, IntegerArithmetic(Div, i * j, j).value, j, IntegerArithmetic(Rem, i * j, j).value);
  }

  lemma OnlyQuotient(i: int, q: int, j: int, r: int)
    requires j != 0 && i * j == q * j + r && Magnitude(r) < Magnitude(j)
    ensures i == q && r == 0
  {
    assert (i - q) * j == r && (q - i) * j == -r;
    if i - q >= 1 {
      MagnitudeGrows(i - q, j);
    } else if i - q <= -1 {
      MagnitudeGrows(q - i, j);
    }
  }

  lemma MagnitudeGrows(d: int, j: int)
    requires d >= 1
    ensures Magnitude(d * j) >= Magnitude(j)
  {
    if j >= 0 {
      assert d * j == (d - 1) * j + j && (d - 1) * j >= 0;
    } else {
      assert d * j == (d - 1) * j + j && (d - 1) * j <= 0;
    }
  }

  /** A missing operand makes the result missing, else a null operand makes it null. */
  lemma AbsenceSpreads(host: Host, op: BinaryOp, d: Datum, e: Datum)
    requires op in {Add, Sub, Mul, Div, Rem}
    ensures d == Missing || e == Missing ==> EvalBinary(host, op, d, e) == Success(Missing)
    ensures d != Missing && e != Missing && (d == Datum.Null || e == Datum.Null) ==>
              EvalBinary(host, op, d, e) == Success(Datum.Null)
  {
  }

  /** Division and remainder by zero fail, and so does the one quotient that leaves 128 bits. */
  lemma DivisionFails(host: Host, i: int)
    ensures EvalBinary(host, Div, Signed(i), Signed(0)).Failure? && EvalBinary(host, Rem, Signed(i), Signed(0)).Failure?
    ensures EvalBinary(host, Div, Signed(I128_MIN), Signed(-1)).Failure?
    ensures EvalBinary(host, Rem, Signed(I128_MIN), Signed(-1)).Failure?
  {
    var q: int, m: int := Magnitude(I128_MIN), Magnitude(-1);
    assert q / m == q;
  }

  /** Negation is its own inverse and fails exactly on the least integer; so does the absolute value. */
  lemma NegationInverts(i: int, output: TypeDef)
    requires I128_MIN <= i <= I128_MAX
    ensures var n, a := EvalUnary(Negate, Signed(i), output), EvalUnary(Abs, Signed(i), output);
            && (n.Success? <==> i != I128_MIN) && (a.Success? <==> i != I128_MIN)
            && (n.Success? ==> EvalUnary(Negate, n.value, output) == Success(Signed(i)))
            && (n.Success? ==> n.value.Val? && n.value.value.IntV? && i + n.value.value.i == 0)
            && (a.Success? ==> a.value.value.i >= 0 && (a.value == Signed(i) || a == n))
  {
  }

  /** A finite float and its negation cancel, its magnitude is not negative, and no float fails. */
  lemma FloatSigns(f: F64, output: TypeDef)
    ensures var n, a := EvalUnary(Negate, Val(FloatV(f)), output), EvalUnary(Abs, Val(FloatV(f)), output);
            match f
            case Finite(r) =>
              && n.Success? && n.value.Val? && n.value.value.FloatV? && n.value.value.f.Finite?
              && r + n.value.value.f.r == 0.0
              && a == (if r >= 0.0 then Success(Val(FloatV(f))) else n)
            case PosInf => n == Success(Val(FloatV(NegInf))) && a == Success(Val(FloatV(f)))
            case NegInf => n == a == Success(Val(FloatV(PosInf)))
            case NaN => n == a == Success(Val(FloatV(NaN)))
  {
  }

  // ----- casts and widths -----

  /** A cast changes no number: it fails, or keeps the integer, which a signed result holds when it fits 128 bits. */
  lemma CastKeeps(value: Value, target: TypeDef)
    ensures var r := EvalUnary(LosslessCast, Val(value), target);
            && (value.IntV? && target.shape.Scalar? && target.shape.repr.IntRepr? ==> r == Success(Val(value)))
            && (value.UIntV? && target.shape.Scalar? && target.shape.repr.UIntRepr? ==> r == Success(Val(value)))
            && (value.FloatV? && target.shape.Scalar? && target.shape.repr.FloatRepr? ==> r == Success(Val(value)))
            && (value.UIntV? && target.shape.Scalar? && target.shape.repr.IntRepr? ==>
                  if value.n <= I128_MAX then r == Success(Signed(value.n)) else r.Failure?)
            && (r.Success? ==> target.shape.Scalar? && (value.IntV? || value.UIntV? || value.FloatV?)
                               && (r.value == Val(value) || (value.UIntV? && r.value == Signed(value.n))))
  {
  }

  ghost predicate InWidth(bits: nat, low: int, high: int) {
    forall i: int :: ScalarMatches(IntRepr(bits), IntV(i)) <==> low <= i <= high
  }

  /** The standard widths hold exactly the two's complement and the binary ranges, and no other width holds anything. */
  lemma IntegerWidths(n: nat)
    ensures InWidth(8, -0x80, 0x7f) && InWidth(16, -0x8000, 0x7fff) && InWidth(32, -0x8000_0000, 0x7fff_ffff)
    ensures ScalarMatches(UIntRepr(8), UIntV(n)) <==> n <= 0xff
    ensures ScalarMatches(UIntRepr(16), UIntV(n)) <==> n <= 0xffff
    ensures ScalarMatches(UIntRepr(32), UIntV(n)) <==> n <= 0xffff_ffff
    ensures n !in {8, 16, 32, 64, 128} ==>
              forall i, m :: !ScalarMatches(IntRepr(n), IntV(i)) && !ScalarMatches(UIntRepr(n), UIntV(m))
  {
    Powers();
  }

  lemma Powers()
    ensures Pow2(7) == 0x80 && Pow2(8) == 0x100 && Pow2(15) == 0x8000 && Pow2(16) == 0x1_0000
    ensures Pow2(31) == 0x8000_0000 && Pow2(32) == 0x1_0000_0000
  {
    assert Pow2(4) == 16 by { assert Pow2(2) == 4; }
    Pow2Adds(4, 3);
    Pow2Adds(4, 4);
    Pow2Adds(8, 7);
    Pow2Adds(8, 8);
    Pow2Adds(16, 15);
    Pow2Adds(16, 16);
    assert Pow2(3) == 8 by { assert Pow2(1) == 2; }
  }

  lemma {:induction false} Pow2Adds(m: nat, n: nat)
    ensures Pow2(m + n) == Pow2(m) * Pow2(n)
  {
    if m > 0 {
      Pow2Adds(m - 1, n);
    }
  }

  // ----- equality -----

  /** No float in the value is not-a-number. */
  predicate NaNFree(v: Value)
    decreases v
  {
    match v
    case FloatV(f) => f != NaN
    case ListV(items) => forall i | 0 <= i < |items| :: NaNFreeDatum(items[i])
    case TupleV(items) => forall i | 0 <= i < |items| :: NaNFreeDatum(items[i])
    case RecordV(fields) => forall i | 0 <= i < |fields| :: NaNFreeDatum(fields[i].datum)
    case _ => true
  }

  predicate NaNFreeDatum(d: Datum)
    decreases d
  {
    d.Val? ==> NaNFree(d.value)
  }

  /** Two values are equal exactly when they are the same value and hold no not-a-number. */
  lemma {:induction false} EqualityIs(v: Value, w: Value)
    ensures ValueEq(v, w) <==> v == w && NaNFree(v)
    decreases v
  {
    match (v, w)
    case (ListV(xs), ListV(ys)) => ItemsEqual(v, xs, ys);
    case (TupleV(xs), TupleV(ys)) => ItemsEqual(v, xs, ys);
    case (RecordV(xs), RecordV(ys)) =>
      if |xs| == |ys| {
        forall i | 0 <= i < |xs|
          ensures DatumEq(xs[i].datum, ys[i].datum) <==> xs[i].datum == ys[i].datum && NaNFreeDatum(xs[i].datum) {
          DatumEqualityIs(xs[i].datum, ys[i].datum);
        }
      }
    case _ =>
  }

  lemma {:induction false} ItemsEqual(v: Value, xs: seq<Datum>, ys: seq<Datum>)
    requires v == ListV(xs) || v == TupleV(xs)
    ensures |xs| == |ys| && (forall i | 0 <= i < |xs| :: DatumEq(xs[i], ys[i])) <==>
            xs == ys && forall i | 0 <= i < |xs| :: NaNFreeDatum(xs[i])
    decreases v, 0
  {
    hide DatumEq, NaNFreeDatum;
    if |xs| == |ys| {
      forall i | 0 <= i < |xs| ensures DatumEq(xs[i], ys[i]) <==> xs[i] == ys[i] && NaNFreeDatum(xs[i]) {
        DatumEqualityIs(xs[i], ys[i]);
      }
    }
  }

  lemma {:induction false} DatumEqualityIs(d: Datum, e: Datum)
    ensures DatumEq(d, e) <==> d == e && NaNFreeDatum(d)
    decreases d
  {
    if d.Val? && e.Val? {
      EqualityIs(d.value, e.value);
    }
  }

  // ----- order -----

  /** `s` comes first: they part where its element is smaller, or it ends first. */
  ghost predicate PartsBelow(s: seq<int>, t: seq<int>) {
    exists k: nat :: k <= |s| && k < |t| && s[..k] == t[..k] && (k == |s| || s[k] < t[k])
  }

  function Codes(s: string): (r: seq<int>)
    ensures |r| == |s| && forall i | 0 <= i < |s| :: r[i] == s[i] as int
  {
    seq(|s|, i requires 0 <= i < |s| => s[i] as int)
  }

  function Numbers(s: seq<Byte>): (r: seq<int>)
    ensures |r| == |s| && forall i | 0 <= i < |s| :: r[i] == s[i] as int
  {
    seq(|s|, i requires 0 <= i < |s| => s[i] as int)
  }

  lemma PartsLater(s: seq<int>, t: seq<int>)
    requires s != [] && t != [] && s[0] == t[0]
    ensures PartsBelow(s, t) <==> PartsBelow(s[1..], t[1..])
  {
    if PartsBelow(s, t) {
      var k: nat :| k <= |s| && k < |t| && s[..k] == t[..k] && (k == |s| || s[k] < t[k]);
      assert k > 0;
      assert s[1..][..k - 1] == s[..k][1..] && t[1..][..k - 1] == t[..k][1..];
    }
    if PartsBelow(s[1..], t[1..]) {
      var k: nat :|
        k <= |s[1..]| && k < |t[1..]| && s[1..][..k] == t[1..][..k] && (k == |s[1..]| || s[1..][k] < t[1..][k]);
      assert s[..k + 1] == [s[0]] + s[1..][..k] && t[..k + 1] == [t[0]] + t[1..][..k];
    }
  }

  lemma PartsNow(s: seq<int>, t: seq<int>)
    requires s == [] || t == [] || s[0] != t[0]
    ensures PartsBelow(s, t) <==> t != [] && (s == [] || s[0] < t[0])
  {
    if t != [] && (s == [] || s[0] < t[0]) {
      assert s[..0] == t[..0];
    }
    assert forall k: nat | 0 < k <= |s| && k < |t| && s[..k] == t[..k] :: s[..k][0] == t[..k][0];
  }

  /** Texts are ordered by the first character in which they differ, a beginning before its continuations. */
  lemma {:induction false} TextOrder(s: string, t: string)
    ensures CompareString(s, t) == Less <==> PartsBelow(Codes(s), Codes(t))
  {
    if s == [] || t == [] || s[0] != t[0] {
      PartsNow(Codes(s), Codes(t));
    } else {
      TextOrder(s[1..], t[1..]);
      PartsLater(Codes(s), Codes(t));
      assert Codes(s)[1..] == Codes(s[1..]) && Codes(t)[1..] == Codes(t[1..]);
    }
  }

  lemma {:induction false} ByteOrder(s: seq<Byte>, t: seq<Byte>)
    ensures CompareBytes(s, t) == Less <==> PartsBelow(Numbers(s), Numbers(t))
  {
    if s == [] || t == [] || s[0] != t[0] {
      PartsNow(Numbers(s), Numbers(t));
    } else {
      ByteOrder(s[1..], t[1..]);
      PartsLater(Numbers(s), Numbers(t));
      assert Numbers(s)[1..] == Numbers(s[1..]) && Numbers(t)[1..] == Numbers(t[1..]);
    }
  }

  /** What "less than" says of two values. */
  ghost predicate Below(v: Value, w: Value) {
    match (v, w)
    case (BoolV(b), BoolV(c)) => !b && c
    case (TruthV(t), TruthV(u)) => (t == True && u != True) || (t == False && u == Unknown)
    case (IntV(i), IntV(j)) => i < j
    case (UIntV(m), UIntV(n)) => m < n
    case (FloatV(Finite(x)), FloatV(Finite(y))) => x < y
    case (FloatV(NegInf), FloatV(g)) => g.Finite? || g.PosInf?
    case (FloatV(f), FloatV(PosInf)) => f.Finite?
    case (CharV(c), CharV(d)) => c < d
    case (StringV(s), StringV(t)) => PartsBelow(Codes(s), Codes(t))
    case (BytesV(s), BytesV(t)) => PartsBelow(Numbers(s), Numbers(t))
    case _ => false
  }

  lemma CompareIs(v: Value, w: Value)
    ensures CompareValue(v, w) == Some(Less) <==> Below(v, w)
    ensures CompareValue(v, w) == Some(Greater) <==> Below(w, v)
  {
    hide PartsBelow, CompareString, CompareBytes;
    match (v, w)
    case (StringV(s), StringV(t)) =>
      TextOrder(s, t);
      TextOrder(t, s);
      CompareStringFlips(s, t);
    case (BytesV(s), BytesV(t)) =>
      ByteOrder(s, t);
      ByteOrder(t, s);
      CompareBytesFlips(s, t);
    case _ =>
  }

  /** The order operators on values: below, below or equal, and the two reversed. */
  lemma OrderIs(host: Host, v: Value, w: Value)
    ensures EvalBinary(host, Lt, Val(v), Val(w)) == Success(TruthOf(Below(v, w)))
    ensures EvalBinary(host, Gt, Val(v), Val(w)) == Success(TruthOf(Below(w, v)))
    ensures CompareValue(v, w).Some? ==>
              && EvalBinary(host, Le, Val(v), Val(w)) == Success(TruthOf(!Below(w, v)))
              && EvalBinary(host, Ge, Val(v), Val(w)) == Success(TruthOf(!Below(v, w)))
    ensures CompareValue(v, w).None? ==>
              && EvalBinary(host, Le, Val(v), Val(w)) == Success(TruthOf(false))
              && EvalBinary(host, Ge, Val(v), Val(w)) == Success(TruthOf(false))
  {
    CompareIs(v, w);
    hide CompareValue, Below;
  }

  // ----- truth and states -----

  function Strength(t: Truth): int {
    match t
    case False => -1
    case Unknown => 0
    case True => 1
  }

  /** A conjunction is the weaker of its operands, a disjunction the stronger, and negation reverses strength. */
  lemma Kleene(host: Host, t: Truth, u: Truth, output: TypeDef)
    ensures var weaker := if Strength(t) <= Strength(u) then t else u;
            EvalBinary(host, And, Val(TruthV(t)), Val(TruthV(u))) == Success(Val(TruthV(weaker)))
    ensures var stronger := if Strength(t) <= Strength(u) then u else t;
            EvalBinary(host, Or, Val(TruthV(t)), Val(TruthV(u))) == Success(Val(TruthV(stronger)))
    ensures EvalUnary(Not, Val(TruthV(t)), output) == Success(Val(TruthV(u))) <==> Strength(u) == -Strength(t)
  {
  }

  /** Every datum is missing, null or a value, and the state tests tell which, with a definite answer. */
  lemma StatesTold(host: Host, d: Datum, e: Datum, output: TypeDef)
    ensures EvalUnary(IsMissing, d, output) == Success(TruthOf(!d.Null? && !d.Val?))
    ensures EvalUnary(IsNull, d, output) == Success(TruthOf(!d.Missing? && !d.Val?))
    ensures EvalUnary(IsPresent, d, output) == Success(TruthOf(d.Null? || d.Val?))
    ensures d.Val? ==> EvalBinary(host, Coalesce, d, e) == Success(d)
    ensures !d.Val? ==> EvalBinary(host, Coalesce, d, e) == Success(e)
  {
  }

  /** Being distinct is told of absent data as well; only a not-a-number is distinct from itself. */
  lemma DistinctIs(host: Host, d: Datum, e: Datum)
    ensures EvalBinary(host, IsDistinctFrom, d, e) == Success(TruthOf(d != e || !NaNFreeDatum(d)))
    ensures EvalBinary(host, IsNotDistinctFrom, d, e) == Success(TruthOf(d == e && NaNFreeDatum(d)))
  {
    DatumEqualityIs(d, e);
  }

  // ----- fields of outer-joined rows -----

  /**
   * A field of a nullable scope and a type without null: without a lift it is a scope error; with one it reads
   * null where the join put the row, and otherwise what the row holds.
   */
  lemma OuterJoinedField(bind: BindContext, rt: Runtime, ty: TypeDef, ref: FieldRef, scope: nat, slot: nat)
    requires ValidBind(bind) && scope < |bind.models| && bind.nullable[scope] && !ty.nullable
    requires ResolveFrom(bind, ref, 0, None) == Success(scope) && FieldSlot(bind.models[scope], ref.key) == Some(slot)
    requires bind.models[scope].fields[slot].ty == ty
    requires scope < |rt.ctx.records| == |rt.ctx.nullExtended| && slot < |rt.ctx.records[scope].values|
    ensures var datum, field := rt.ctx.records[scope].values[slot], FieldE(ty, ref);
            && Eval(bind, rt, field, false) == Failure("EXPR-SCOPE-006")
            && (datum == Datum.Null && rt.ctx.nullExtended[scope] ==>
                Eval(bind, rt, field, true) == Success(Datum.Null))
            && (datum == Datum.Null && !rt.ctx.nullExtended[scope] ==> Eval(bind, rt, field, true).Failure?)
            && (datum.Val? && ValidValue(ty, datum.value) ==> Eval(bind, rt, field, true) == Success(datum))
            && (datum == Missing ==> Eval(bind, rt, field, true) == Success(Missing))
  {
    hide ResolveFrom, FieldSlot, ValidValue;
  }

  /** A field of a scope that is not nullable reads what the row holds, lift or no lift. */
  lemma PlainField(bind: BindContext, rt: Runtime, ty: TypeDef, ref: FieldRef, scope: nat, slot: nat, lift: bool)
    requires ValidBind(bind) && scope < |bind.models| && !bind.nullable[scope]
    requires ResolveFrom(bind, ref, 0, None) == Success(scope) && FieldSlot(bind.models[scope], ref.key) == Some(slot)
    requires bind.models[scope].fields[slot].ty == ty
    requires scope < |rt.ctx.records| && slot < |rt.ctx.records[scope].values|
    ensures var datum := rt.ctx.records[scope].values[slot];
            Eval(bind, rt, FieldE(ty, ref), lift)
            == if ValidDatum(ty, Optional, datum) then Success(datum) else Failure("EXPR-EVAL-110")
  {
    hide ResolveFrom, FieldSlot, ValidDatum;
  }

  /** A parameter reads what is bound to its name with exactly its type. */
  lemma ParameterReads(bind: BindContext, rt: Runtime, ty: TypeDef, name: string, lift: bool)
    requires ValidBind(bind)
    ensures Eval(bind, rt, ParameterE(ty, name), lift).Success? <==>
              && name in rt.ctx.parameters && rt.ctx.parameters[name].ty == ty
              && ValidDatum(ty, Optional, rt.ctx.parameters[name].datum)
    ensures Eval(bind, rt, ParameterE(ty, name), lift).Success? ==>
              Eval(bind, rt, ParameterE(ty, name), lift).value == rt.ctx.parameters[name].datum
  {
    hide ValidDatum;
  }

  /** A prepared expression is only evaluated over records of the models it was prepared for. */
  lemma OtherScopesFail(p: Prepared, rt: Runtime)
    requires WellFormed(p)
    requires || |rt.ctx.records| != |p.scopes|
             || exists i | 0 <= i < |p.scopes| :: rt.ctx.records[i].model.key != p.scopes[i]
    ensures EvaluateDatum(p, rt).Failure?
  {
    hide EvalNode;
  }

  /** A list is of its type when no item is missing and each is of the element type, or null where that allows it. */
  lemma ListsValid(element: TypeDef, key: string, items: seq<Datum>, v: Value)
    ensures var ty := TypeDef(key, ListOf(element), false);
            && (ValidDatum(ty, Required, Val(ListV(items))) <==>
                forall i | 0 <= i < |items| ::
                  items[i] != Missing && (items[i] == Datum.Null ==> element.nullable)
                  && (items[i].Val? ==> ValidValue(element, items[i].value)))
            && (ValidDatum(ty, Required, Val(v)) ==> v.ListV?)
  {
    hide ValidNested;
    forall i | 0 <= i < |items|
      ensures ValidNested(element, items[i]) <==>
                && items[i] != Missing && (items[i] == Datum.Null ==> element.nullable)
                && (items[i].Val? ==> ValidValue(element, items[i].value))
    {
      NestedIs(element, items[i]);
    }
  }

  lemma NestedIs(ty: TypeDef, d: Datum)
    ensures ValidNested(ty, d) <==>
              d != Missing && (d == Datum.Null ==> ty.nullable) && (d.Val? ==> ValidValue(ty, d.value))
  {
    hide ValidValue;
  }
}
