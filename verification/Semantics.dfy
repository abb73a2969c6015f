/// The DOL value language: three-state data, Kleene truth, semantic types and the
/// operators every executor shares (dol-core `semantics`, `value`, `types`,
/// `expr/semantic.rs`).

module Results {

  /** Success, or the stable diagnostic code of the failure. */
  datatype Result<+T> = Success(value: T) | Failure(code: string) {
    predicate IsFailure() {
      Failure?
    }

    function PropagateFailure<U>(): Result<U>
      requires Failure?
    {
      Failure(code)
    }

    function Extract(): T
      requires Success?
    {
      value
    }
  }

  datatype Option<+T> = None | Some(value: T)

  /** Two outcomes agree on the value and on whether there is one, whatever the codes. */
  ghost predicate SameOutcome<T(!new)>(left: Result<T>, right: Result<T>) {
    (left.Success? <==> right.Success?) && (left.Success? ==> left == right)
  }
}

module Sequences {

  lemma Assoc<T>(a: seq<T>, b: seq<T>, c: seq<T>)
    ensures (a + b) + c == a + (b + c)
  {
  }
}

module Semantics {
  import opened Results

  type Byte = x: int | 0 <= x < 256

  // ----- three-valued truth -----

  datatype Truth = True | False | Unknown {
    function And(other: Truth): Truth {
      if this == False || other == False then False
      else if this == True && other == True then True
      else Unknown
    }

    function Or(other: Truth): Truth {
      if this == True || other == True then True
      else if this == False && other == False then False
      else Unknown
    }

    function Negate(): Truth {
      match this
      case True => False
      case False => True
      case Unknown => Unknown
    }

    /** Position in the derived declaration order. */
    function Rank(): nat {
      match this
      case True => 0
      case False => 1
      case Unknown => 2
    }
  }

  // ----- values -----

  /** A double without rounding: signed zeros are one value and arithmetic is a parameter. */
  datatype F64 = NaN | NegInf | Finite(r: real) | PosInf

  datatype Value =
    | BoolV(b: bool)
    | TruthV(t: Truth)
    | IntV(i: int)
    | UIntV(n: nat)
    | FloatV(f: F64)
    | CharV(c: char)
    | StringV(s: string)
    | BytesV(bytes: seq<Byte>)
    | ListV(items: seq<Datum>)
    | TupleV(items: seq<Datum>)
    | RecordV(fields: seq<Field>) // entries in ascending name order, as the B-tree map iterates

  datatype Field = Field(name: string, datum: Datum)

  datatype Datum = Missing | Null | Val(value: Value)

  const I128_MIN: int := -0x8000_0000_0000_0000_0000_0000_0000_0000
  const I128_MAX: int := 0x7fff_ffff_ffff_ffff_ffff_ffff_ffff_ffff
  const U128_MAX: int := 0xffff_ffff_ffff_ffff_ffff_ffff_ffff_ffff

  predicate InI128(i: int) { I128_MIN <= i <= I128_MAX }

  predicate InU128(i: int) { 0 <= i <= U128_MAX }

  /** DOL equality. It is not an equivalence: NaN differs from itself. */
  predicate ValueEq(left: Value, right: Value)
    decreases left
  {
    match (left, right)
    case (FloatV(f), FloatV(g)) => f == g && f != NaN
    case (ListV(xs), ListV(ys)) =>
      |xs| == |ys| && forall i | 0 <= i < |xs| :: DatumEq(xs[i], ys[i])
    case (TupleV(xs), TupleV(ys)) =>
      |xs| == |ys| && forall i | 0 <= i < |xs| :: DatumEq(xs[i], ys[i])
    case (RecordV(xs), RecordV(ys)) =>
      |xs| == |ys| && forall i | 0 <= i < |xs| :: xs[i].name == ys[i].name && DatumEq(xs[i].datum, ys[i].datum)
    case _ => left == right
  }

  predicate DatumEq(left: Datum, right: Datum)
    decreases left
  {
    match (left, right)
    case (Val(v), Val(w)) => ValueEq(v, w)
    case _ => left == right
  }

  datatype Ordering = Less | Equal | Greater

  function CompareInt(left: int, right: int): Ordering {
    if left < right then Less else if left == right then Equal else Greater
  }

  function CompareReal(left: real, right: real): Ordering {
    if left < right then Less else if left == right then Equal else Greater
  }

  /** Scalar order, which is also the byte order of the UTF-8 encodings. */
  function CompareString(left: string, right: string): Ordering {
    if left == [] || right == [] then CompareInt(|left|, |right|)
    else if left[0] == right[0] then CompareString(left[1..], right[1..])
    else CompareInt(left[0] as int, right[0] as int)
  }

  function CompareBytes(left: seq<Byte>, right: seq<Byte>): Ordering {
    if left == [] || right == [] then CompareInt(|left|, |right|)
    else if left[0] == right[0] then CompareBytes(left[1..], right[1..])
    else CompareInt(left[0], right[0])
  }

  function BoolRank(b: bool): nat { if b then 1 else 0 }

  /** IEEE partial order: nothing is comparable with NaN. */
  function CompareF64(left: F64, right: F64): Option<Ordering> {
    match (left, right)
    case (NaN, _) => None
    case (_, NaN) => None
    case (Finite(r), Finite(s)) => Some(CompareReal(r, s))
    case (NegInf, NegInf) => Some(Equal)
    case (PosInf, PosInf) => Some(Equal)
    case (NegInf, _) => Some(Less)
    case (_, PosInf) => Some(Less)
    case (PosInf, _) => Some(Greater)
    case (_, NegInf) => Some(Greater)
  }

  function CompareValue(left: Value, right: Value): Option<Ordering> {
    match (left, right)
    case (BoolV(b), BoolV(c)) => Some(CompareInt(BoolRank(b), BoolRank(c)))
    case (TruthV(t), TruthV(u)) => Some(CompareInt(t.Rank(), u.Rank()))
    case (IntV(i), IntV(j)) => Some(CompareInt(i, j))
    case (UIntV(m), UIntV(n)) => Some(CompareInt(m, n))
    case (FloatV(f), FloatV(g)) => CompareF64(f, g)
    case (CharV(c), CharV(d)) => Some(CompareInt(c as int, d as int))
    case (StringV(s), StringV(t)) => Some(CompareString(s, t))
    case (BytesV(s), BytesV(t)) => Some(CompareBytes(s, t))
    case _ => None
  }

  // ----- semantic types -----

  datatype ScalarRepr =
    | BoolRepr
    | TruthRepr
    | IntRepr(bits: nat)
    | UIntRepr(bits: nat)
    | FloatRepr
    | CharRepr
    | StringRepr
    | BytesRepr

  datatype Presence = Required | Optional

  datatype RecordField = RecordField(name: string, ty: TypeDef, presence: Presence)

  datatype TypeShape =
    | Scalar(repr: ScalarRepr)
    | ListOf(element: TypeDef)
    | TupleOf(elements: seq<TypeDef>)
    | RecordOf(fields: seq<RecordField>)

  /** `key` stands for the lineage key together with version, properties and parameters. */
  datatype TypeDef = TypeDef(key: string, shape: TypeShape, nullable: bool)

  const TRUTH_TYPE := TypeDef("dol/truth", Scalar(TruthRepr), false)

  function Pow2(n: nat): (p: int)
    ensures p >= 1
  {
    if n == 0 then 1 else 2 * Pow2(n - 1)
  }

  predicate StandardWidth(bits: nat) {
    bits == 8 || bits == 16 || bits == 32 || bits == 64 || bits == 128
  }

  /** A width other than the five standard ones fits nothing. */
  predicate SignedFits(bits: nat, i: int) {
    StandardWidth(bits) && -Pow2(bits - 1) <= i < Pow2(bits - 1)
  }

  predicate UnsignedFits(bits: nat, n: nat) {
    StandardWidth(bits) && n < Pow2(bits)
  }

  predicate ScalarMatches(repr: ScalarRepr, value: Value) {
    match (repr, value)
    case (IntRepr(bits), IntV(i)) => SignedFits(bits, i)
    case (UIntRepr(bits), UIntV(n)) => UnsignedFits(bits, n)
    case (BoolRepr, BoolV(_)) => true
    case (TruthRepr, TruthV(_)) => true
    case (FloatRepr, FloatV(_)) => true
    case (CharRepr, CharV(_)) => true
    case (StringRepr, StringV(_)) => true
    case (BytesRepr, BytesV(_)) => true
    case _ => false
  }

  predicate ValidValue(ty: TypeDef, value: Value)
    decreases value
  {
    match ty.shape
    case Scalar(repr) => ScalarMatches(repr, value)
    case ListOf(element) =>
      value.ListV? && forall i | 0 <= i < |value.items| :: ValidNested(element, value.items[i])
    case TupleOf(elements) =>
      && value.TupleV?
      && |value.items| == |elements|
      && forall i | 0 <= i < |elements| :: ValidNested(elements[i], value.items[i])
    case RecordOf(fields) =>
      && value.RecordV?
      && (forall i | 0 <= i < |value.fields| :: exists j | 0 <= j < |fields| :: fields[j].name == value.fields[i].name)
      && (forall j | 0 <= j < |fields| ::
            || (exists i | 0 <= i < |value.fields| ::
                  value.fields[i].name == fields[j].name && ValidNested(fields[j].ty, value.fields[i].datum))
            || (fields[j].presence == Optional
                && forall i | 0 <= i < |value.fields| :: value.fields[i].name != fields[j].name))
  }

  predicate ValidNested(ty: TypeDef, datum: Datum)
    decreases datum
  {
    match datum
    case Missing => false
    case Null => ty.nullable
    case Val(value) => ValidValue(ty, value)
  }

  predicate ValidDatum(ty: TypeDef, presence: Presence, datum: Datum) {
    match datum
    case Missing => presence == Optional
    case Null => ty.nullable
    case Val(value) => ValidValue(ty, value)
  }

  // ----- operators -----

  datatype UnaryOp = Not | IsNull | IsMissing | IsPresent | NullableLift | LosslessCast | Negate | Abs

  datatype BinaryOp =
    | Eq | Ne | Lt | Le | Gt | Ge
    | And | Or
    | Add | Sub | Mul | Div | Rem
    | IsDistinctFrom | IsNotDistinctFrom
    | Coalesce

  datatype FunctionRef = FunctionRef(key: string, version: nat, deterministic: bool)

  /** What the model does not define: rounded float arithmetic and semantic functions. */
  datatype Host = Host(
    floatArith: (BinaryOp, F64, F64) -> F64,
    call: (FunctionRef, seq<Datum>, TypeDef) -> Result<Datum>
  )

  function TruthOf(b: bool): Datum {
    Val(TruthV(if b then True else False))
  }

  const UNKNOWN: Datum := Val(TruthV(Unknown))

  function AsTruth(datum: Datum): Result<Truth> {
    if datum.Val? && datum.value.TruthV? then Success(datum.value.t) else Failure("EXPR-EVAL-001")
  }

  function EvalUnary(op: UnaryOp, input: Datum, output: TypeDef): Result<Datum> {
    match op
    case Not =>
      var t :- AsTruth(input);
      Success(Val(TruthV(t.Negate())))
    case IsNull => Success(TruthOf(input == Datum.Null))
    case IsMissing => Success(TruthOf(input == Missing))
    case IsPresent => Success(TruthOf(input != Missing))
    case NullableLift => Success(input)
    case LosslessCast => CastLossless(input, output)
    case Negate => NumericNegate(input)
    case Abs => NumericAbs(input)
  }

  function CastLossless(input: Datum, target: TypeDef): Result<Datum> {
    match input
    case Missing => Success(Missing)
    case Null => if target.nullable then Success(Datum.Null) else Failure("EXPR-CAST-004")
    case Val(value) =>
      if !target.shape.Scalar? then Failure("EXPR-CAST-002")
      else match (value, target.shape.repr)
        case (IntV(_), IntRepr(_)) => Success(input)
        case (UIntV(_), UIntRepr(_)) => Success(input)
        case (UIntV(n), IntRepr(_)) => if InI128(n) then Success(Val(IntV(n))) else Failure("EXPR-CAST-005")
        case (FloatV(_), FloatRepr) => Success(input)
        case _ => Failure("EXPR-CAST-006")
  }

  function NumericNegate(input: Datum): Result<Datum> {
    match input
    case Val(IntV(i)) => if InI128(-i) then Success(Val(IntV(-i))) else Failure("EXPR-EVAL-003")
    case Val(FloatV(f)) =>
      Success(Val(FloatV(match f
                         case NaN => NaN
                         case NegInf => PosInf
                         case PosInf => NegInf
                         case Finite(r) => Finite(-r))))
    case Val(_) => Failure("EXPR-EVAL-002")
    case _ => Success(input)
  }

  function NumericAbs(input: Datum): Result<Datum> {
    match input
    case Val(IntV(i)) =>
      var a := if i < 0 then -i else i;
      if InI128(a) then Success(Val(IntV(a))) else Failure("EXPR-EVAL-003")
    case Val(FloatV(f)) =>
      Success(Val(FloatV(match f
                         case NaN => NaN
                         case NegInf => PosInf
                         case PosInf => PosInf
                         case Finite(r) => Finite(if r < 0.0 then -r else r))))
    case Val(_) => Failure("EXPR-EVAL-002")
    case _ => Success(input)
  }

  function EvalBinary(host: Host, op: BinaryOp, left: Datum, right: Datum): Result<Datum> {
    match op
    case Eq => Success(CompareEquality(left, right, false))
    case Ne => Success(CompareEquality(left, right, true))
    case Lt => Success(CompareOrder(op, left, right))
    case Le => Success(CompareOrder(op, left, right))
    case Gt => Success(CompareOrder(op, left, right))
    case Ge => Success(CompareOrder(op, left, right))
    case And =>
      var l :- AsTruth(left);
      var r :- AsTruth(right);
      Success(Val(TruthV(l.And(r))))
    case Or =>
      var l :- AsTruth(left);
      var r :- AsTruth(right);
      Success(Val(TruthV(l.Or(r))))
    case IsDistinctFrom => Success(TruthOf(!DistinctEqual(left, right)))
    case IsNotDistinctFrom => Success(TruthOf(DistinctEqual(left, right)))
    case Coalesce => Success(if left.Val? then left else right)
    case _ => Arithmetic(host, op, left, right)
  }

  function CompareEquality(left: Datum, right: Datum, negate: bool): Datum {
    if left.Val? && right.Val?
    then TruthOf(ValueEq(left.value, right.value) != negate)
    else UNKNOWN
  }

  /** Null-safe equality. */
  predicate DistinctEqual(left: Datum, right: Datum) {
    match (left, right)
    case (Missing, Missing) => true
    case (Null, Null) => true
    case (Val(v), Val(w)) => ValueEq(v, w)
    case _ => false
  }

  predicate OrderHolds(op: BinaryOp, ordering: Ordering) {
    match op
    case Lt => ordering == Less
    case Le => ordering != Greater
    case Gt => ordering == Greater
    case Ge => ordering != Less
    case _ => false
  }

  function CompareOrder(op: BinaryOp, left: Datum, right: Datum): Datum {
    if !left.Val? || !right.Val? then UNKNOWN
    else match CompareValue(left.value, right.value)
      case None => TruthOf(false)
      case Some(ordering) => TruthOf(OrderHolds(op, ordering))
  }

  function Arithmetic(host: Host, op: BinaryOp, left: Datum, right: Datum): Result<Datum> {
    if left == Missing || right == Missing then Success(Missing)
    else if left == Datum.Null || right == Datum.Null then Success(Datum.Null)
    else
      var v :- ArithmeticValues(host, op, left.value, right.value);
      Success(Val(v))
  }

  function ArithmeticValues(host: Host, op: BinaryOp, left: Value, right: Value): Result<Value> {
    match (left, right)
    case (IntV(i), IntV(j)) =>
      var r :- IntegerArithmetic(op, i, j);
      if InI128(r) && !(op == Rem && i == I128_MIN && j == -1) then Success(IntV(r)) else Failure("EXPR-EVAL-003")
    case (UIntV(m), UIntV(n)) =>
      var r :- IntegerArithmetic(op, m, n);
      if InU128(r) then Success(UIntV(r)) else Failure("EXPR-EVAL-003")
    case (FloatV(f), FloatV(g)) =>
      if op in {Add, Sub, Mul, Div} then Success(FloatV(host.floatArith(op, f, g))) else Failure("EXPR-EVAL-004")
    case _ => Failure("EXPR-EVAL-002")
  }

  /** The unbounded result; division truncates toward zero. */
  function IntegerArithmetic(op: BinaryOp, i: int, j: int): Result<int> {
    match op
    case Add => Success(i + j)
    case Sub => Success(i - j)
    case Mul => Success(i * j)
    case Div => if j == 0 then Failure("EXPR-EVAL-003") else Success(TruncDiv(i, j))
    case Rem => if j == 0 then Failure("EXPR-EVAL-003") else Success(i - TruncDiv(i, j) * j)
    case _ => Failure("EXPR-EVAL-004")
  }

  function Magnitude(i: int): nat { if i < 0 then -i else i }

  function TruncDiv(i: int, j: int): int
    requires j != 0
  {
    var q := Magnitude(i) / Magnitude(j);
    if (i < 0) == (j < 0) then q else -q
  }

  /** Division truncates: the remainder is smaller than the divisor and has the sign of the dividend. */
  lemma DivisionTruncates(i: int, j: int)
    requires j != 0
    ensures var q, r := IntegerArithmetic(Div, i, j), IntegerArithmetic(Rem, i, j);
            && q.Success? && r.Success? && i == q.value * j + r.value
            && Magnitude(r.value) < Magnitude(j) && (r.value == 0 || (r.value < 0 <==> i < 0))
  {
    var m: int, n: int := Magnitude(i), Magnitude(j);
    var q: int := m / n;
    var p: int := q * n;
    assert m == p + m % n;
    SignsMultiply(q, n);
    assert TruncDiv(i, j) == if (i < 0) == (j < 0) then q else -q;
    assert TruncDiv(i, j) * j == if i < 0 then -p else p;
  }

  lemma SignsMultiply(q: int, n: int)
    ensures (-q) * n == q * (-n) == -(q * n) && (-q) * (-n) == q * n
  {
  }

  // ----- order and equality -----

  function Flip(o: Ordering): Ordering {
    match o
    case Less => Greater
    case Equal => Equal
    case Greater => Less
  }

  lemma {:induction false} CompareStringEqual(s: string, t: string)
    ensures CompareString(s, t) == Equal <==> s == t
  {
    if s != [] && t != [] && s[0] == t[0] {
      CompareStringEqual(s[1..], t[1..]);
      assert s == [s[0]] + s[1..] && t == [t[0]] + t[1..];
    }
  }

  lemma {:induction false} CompareBytesEqual(s: seq<Byte>, t: seq<Byte>)
    ensures CompareBytes(s, t) == Equal <==> s == t
  {
    if s != [] && t != [] && s[0] == t[0] {
      CompareBytesEqual(s[1..], t[1..]);
      assert s == [s[0]] + s[1..] && t == [t[0]] + t[1..];
    }
  }

  lemma {:induction false} CompareStringFlips(s: string, t: string)
    ensures CompareString(t, s) == Flip(CompareString(s, t))
  {
    if s != [] && t != [] && s[0] == t[0] {
      CompareStringFlips(s[1..], t[1..]);
    }
  }

  lemma {:induction false} CompareBytesFlips(s: seq<Byte>, t: seq<Byte>)
    ensures CompareBytes(t, s) == Flip(CompareBytes(s, t))
  {
    if s != [] && t != [] && s[0] == t[0] {
      CompareBytesFlips(s[1..], t[1..]);
    }
  }

  /** Where two values are ordered, the order reverses with them and is equal exactly where they are equal. */
  lemma OrderCoherent(v: Value, w: Value)
    requires CompareValue(v, w).Some?
    ensures CompareValue(w, v) == Some(Flip(CompareValue(v, w).value))
    ensures CompareValue(v, w).value == Equal <==> ValueEq(v, w)
  {
    match v
    case StringV(s) =>
      CompareStringFlips(s, w.s);
      CompareStringEqual(s, w.s);
    case BytesV(bytes) =>
      CompareBytesFlips(bytes, w.bytes);
      CompareBytesEqual(bytes, w.bytes);
    case _ =>
  }

  /** So the order operators and equality fit together on values, and every one of them is unknown on anything else. */
  lemma ComparisonsCohere(host: Host, d: Datum, e: Datum)
    ensures var lt, gt := EvalBinary(host, Lt, d, e).value, EvalBinary(host, Gt, d, e).value;
            var le, eq := EvalBinary(host, Le, d, e).value, EvalBinary(host, Eq, d, e).value;
            if !d.Val? || !e.Val? then lt == gt == le == eq == UNKNOWN
            else if CompareValue(d.value, e.value).None? then lt == gt == le == TruthOf(false)
            else
              && gt == EvalBinary(host, Lt, e, d).value
              && (le == TruthOf(true) <==> lt == TruthOf(true) || eq == TruthOf(true))
              && !(lt == TruthOf(true) && (gt == TruthOf(true) || eq == TruthOf(true)))
              && (lt == TruthOf(true) || gt == TruthOf(true) || eq == TruthOf(true))
  {
    if d.Val? && e.Val? && CompareValue(d.value, e.value).Some? {
      OrderCoherent(d.value, e.value);
    }
  }

  // ----- membership -----

  ghost predicate AnyComparesTrue(input: Datum, candidates: seq<Datum>) {
    exists i | 0 <= i < |candidates| :: CompareEquality(input, candidates[i], false) == TruthOf(true)
  }

  ghost predicate AnyComparesUnknown(input: Datum, candidates: seq<Datum>) {
    exists i | 0 <= i < |candidates| :: CompareEquality(input, candidates[i], false) == UNKNOWN
  }

  /** Membership folded from the left, as the flag-carrying loop runs it. */
  function Membership(input: Datum, candidates: seq<Datum>, negate: bool, sawUnknown: bool): Datum
    decreases |candidates|
  {
    if candidates == [] then
      if sawUnknown then UNKNOWN else TruthOf(negate)
    else
      var comparison := CompareEquality(input, candidates[0], false);
      if comparison == TruthOf(true) then TruthOf(!negate)
      else Membership(input, candidates[1..], negate, sawUnknown || comparison == UNKNOWN)
  }

  /** The loop's answer by what the comparisons contain, so candidate order cannot matter. */
  lemma {:induction false} MembershipMeaning(input: Datum, candidates: seq<Datum>, negate: bool, sawUnknown: bool)
    ensures Membership(input, candidates, negate, sawUnknown)
         == if AnyComparesTrue(input, candidates) then TruthOf(!negate)
            else if sawUnknown || AnyComparesUnknown(input, candidates) then UNKNOWN
            else TruthOf(negate)
    decreases |candidates|
  {
    if candidates != [] {
      var comparison := CompareEquality(input, candidates[0], false);
      if comparison == TruthOf(true) {
        assert AnyComparesTrue(input, candidates);
      } else {
        var rest := candidates[1..];
        MembershipMeaning(input, rest, negate, sawUnknown || comparison == UNKNOWN);
        forall i | 0 <= i < |rest| ensures rest[i] == candidates[i + 1] {}
        assert AnyComparesTrue(input, candidates) ==> AnyComparesTrue(input, rest) by {
          if i :| 0 <= i < |candidates| && CompareEquality(input, candidates[i], false) == TruthOf(true) {
            assert rest[i - 1] == candidates[i];
          }
        }
        assert AnyComparesUnknown(input, candidates) ==> comparison == UNKNOWN || AnyComparesUnknown(input, rest) by {
          if i :| 0 <= i < |candidates| && CompareEquality(input, candidates[i], false) == UNKNOWN {
            if i > 0 {
              assert rest[i - 1] == candidates[i];
            }
          }
        }
      }
    }
  }

  /** The membership loop itself: one pass, a flag, and an early return on a true comparison. */
  method EvalMembership(input: Datum, candidates: seq<Datum>, negate: bool) returns (r: Datum)
    ensures r == Membership(input, candidates, negate, false)
    ensures r == if AnyComparesTrue(input, candidates) then TruthOf(!negate)
                 else if AnyComparesUnknown(input, candidates) then UNKNOWN
                 else TruthOf(negate)
  {
    MembershipMeaning(input, candidates, negate, false);
    var sawUnknown := false;
    for i := 0 to |candidates|
      invariant Membership(input, candidates, negate, false) == Membership(input, candidates[i..], negate, sawUnknown)
    {
      var comparison := CompareEquality(input, candidates[i], false);
      assert candidates[i..][1..] == candidates[i + 1..];
      if comparison == TruthOf(true) {
        return TruthOf(!negate);
      }
      if comparison == UNKNOWN {
        sawUnknown := true;
      }
    }
    return if sawUnknown then UNKNOWN else TruthOf(negate);
  }
}
