/// The part of MongoDB's aggregation language the compiler targets, and the exact
/// scalar codec (`engines/mongodb/src/codec.rs`).

module Bson {
  import opened Results
  import opened Semantics

  /** A BSON value, or the absence of a field, which expressions can observe. */
  datatype Bson =
    | BMissing
    | BNull
    | BBool(b: bool)
    | BInt32(i: int)
    | BInt64(i: int)
    | BDecimal(negative: bool, coefficient: nat, exponent: int)
    | BDouble(f: F64)
    | BString(s: string)
    | BBinary(subtype: nat, bytes: seq<Byte>)
    | BOther(id: nat) // arrays, documents, dates, object ids: types the compiler never names

  type Document = map<string, Bson>

  // ----- comparison -----

  function Pow10(n: nat): real {
    if n == 0 then 1.0 else 10.0 * Pow10(n - 1)
  }

  function DecimalValue(d: Bson): real
    requires d.BDecimal?
  {
    var c := if d.negative then -(d.coefficient as real) else d.coefficient as real;
    if d.exponent >= 0 then c * Pow10(d.exponent) else ScaleDown(c, -d.exponent)
  }

  function ScaleDown(r: real, n: nat): real
    decreases n
  {
    if n == 0 then r else ScaleDown(r / 10.0, n - 1)
  }

  predicate IsNumber(b: Bson) { b.BInt32? || b.BInt64? || b.BDecimal? || b.BDouble? }

  function NumberOf(b: Bson): F64
    requires IsNumber(b)
  {
    match b
    case BInt32(i) => Finite(i as real)
    case BInt64(i) => Finite(i as real)
    case BDecimal(_, _, _) => Finite(DecimalValue(b))
    case BDouble(f) => f
  }

  /** Values of different families compare by family; all numbers are one family. */
  function Family(b: Bson): nat {
    match b
    case BMissing => 0
    case BNull => 1
    case BString(_) => 3
    case BBinary(_, _) => 4
    case BBool(_) => 5
    case BOther(_) => 6
    case _ => 2
  }

  /** The server's total order on numbers: NaN equals itself and sorts first. */
  function CompareNumber(f: F64, g: F64): Ordering {
    if f == NaN || g == NaN then CompareInt(if f == NaN then 0 else 1, if g == NaN then 0 else 1)
    else CompareF64(f, g).value
  }

  function CompareBson(a: Bson, b: Bson): Ordering {
    if Family(a) != Family(b) then CompareInt(Family(a), Family(b))
    else match (a, b)
      case (BString(s), BString(t)) => CompareString(s, t)
      case (BBool(x), BBool(y)) => CompareInt(BoolRank(x), BoolRank(y))
      case (BBinary(k, s), BBinary(l, t)) =>
        if |s| != |t| then CompareInt(|s|, |t|)
        else if k != l then CompareInt(k, l)
        else CompareBytes(s, t)
      case (BOther(x), BOther(y)) => CompareInt(x, y)
      case _ => if IsNumber(a) && IsNumber(b) then CompareNumber(NumberOf(a), NumberOf(b)) else Equal
  }

  // ----- aggregation expressions -----

  datatype CompareOp = CEq | CNe | CLt | CLte | CGt | CGte

  /** A `$switch` case whose result is a constant, the only form the compiler writes. */
  datatype Branch = Branch(when_: Agg, then_: Bson)

  datatype Agg =
    | Lit(value: Bson)
    | Path(name: string)
    | TypeOf(e: Agg)
    | ToText(e: Agg)
    | StrLenCP(e: Agg)
    | Cmp(op: CompareOp, left: Agg, right: Agg)
    | AndOp(args: seq<Agg>)
    | OrOp(args: seq<Agg>)
    | NotOp(e: Agg)
    | CondOp(test: Agg, then_: Agg, else_: Agg)
    | SwitchOp(branches: seq<Branch>, fallback: Bson)
    | InOp(e: Agg, values: seq<Bson>)

  function Truthy(b: Bson): bool {
    match b
    case BMissing => false
    case BNull => false
    case BBool(x) => x
    case BString(_) => true
    case BBinary(_, _) => true
    case BOther(_) => true
    case _ => NumberOf(b) != Finite(0.0)
  }

  function TypeName(b: Bson): string {
    match b
    case BMissing => "missing"
    case BNull => "null"
    case BBool(_) => "bool"
    case BInt32(_) => "int"
    case BInt64(_) => "long"
    case BDecimal(_, _, _) => "decimal"
    case BDouble(_) => "double"
    case BString(_) => "string"
    case BBinary(_, _) => "binData"
    case BOther(_) => "other"
  }

  function Digits(n: nat): (s: string)
    ensures s != [] && '0' <= s[0] <= '9'
  {
    if n < 10 then ['0' + n as char] else Digits(n / 10) + ['0' + (n % 10) as char]
  }

  function IntText(i: int): (s: string)
    ensures s != [] && s[0] != 'N'
  {
    if i < 0 then "-" + Digits(-i) else Digits(i)
  }

  /** Text of a number; the fraction digits of a finite double are not modelled. */
  function Text(b: Bson): Result<Bson> {
    match b
    case BMissing => Success(BNull)
    case BNull => Success(BNull)
    case BBool(x) => Success(BString(if x then "true" else "false"))
    case BInt32(i) => Success(BString(IntText(i)))
    case BInt64(i) => Success(BString(IntText(i)))
    case BDecimal(_, _, _) => Success(BString(IntText(DecimalValue(b).Floor)))
    case BDouble(f) =>
      Success(BString(match f
                      case NaN => "NaN"
                      case PosInf => "Infinity"
                      case NegInf => "-Infinity"
                      case Finite(r) => IntText(r.Floor)))
    case BString(_) => Success(b)
    case _ => Failure("AGG-TOSTRING")
  }

  predicate Holds(op: CompareOp, o: Ordering) {
    match op
    case CEq => o == Equal
    case CNe => o != Equal
    case CLt => o == Less
    case CLte => o != Greater
    case CGt => o == Greater
    case CGte => o != Less
  }

  /** `$and`/`$or` evaluate every argument here: a stricter reading than a server that stops early. */
  function EvalAgg(e: Agg, doc: Document): Result<Bson>
    decreases e, 1
  {
    match e
    case Lit(value) => Success(value)
    case Path(name) => Success(if name in doc then doc[name] else BMissing)
    case TypeOf(x) =>
      var v :- EvalAgg(x, doc);
      Success(BString(TypeName(v)))
    case ToText(x) =>
      var v :- EvalAgg(x, doc);
      Text(v)
    case StrLenCP(x) =>
      var v :- EvalAgg(x, doc);
      if v.BString? then Success(BInt32(|v.s|)) else Failure("AGG-STRLENCP")
    case Cmp(op, left, right) =>
      var l :- EvalAgg(left, doc);
      var r :- EvalAgg(right, doc);
      Success(BBool(Holds(op, CompareBson(l, r))))
    case AndOp(args) =>
      var vs :- EvalAggs(args, doc);
      Success(BBool(forall i | 0 <= i < |vs| :: Truthy(vs[i])))
    case OrOp(args) =>
      var vs :- EvalAggs(args, doc);
      Success(BBool(exists i | 0 <= i < |vs| :: Truthy(vs[i])))
    case NotOp(x) =>
      var v :- EvalAgg(x, doc);
      Success(BBool(!Truthy(v)))
    case CondOp(test, then_, else_) =>
      var t :- EvalAgg(test, doc);
      if Truthy(t) then EvalAgg(then_, doc) else EvalAgg(else_, doc)
    case SwitchOp(branches, fallback) => EvalSwitch(branches, fallback, doc)
    case InOp(x, values) =>
      var v :- EvalAgg(x, doc);
      Success(BBool(exists i | 0 <= i < |values| :: CompareBson(v, values[i]) == Equal))
  }

  function EvalAggs(es: seq<Agg>, doc: Document): (r: Result<seq<Bson>>)
    ensures r.Success? ==> |r.value| == |es|
    decreases es, 0
  {
    if es == [] then Success([])
    else
      var v :- EvalAgg(es[0], doc);
      var vs :- EvalAggs(es[1..], doc);
      Success([v] + vs)
  }

  function EvalSwitch(branches: seq<Branch>, fallback: Bson, doc: Document): Result<Bson>
    decreases branches, 0
  {
    if branches == [] then Success(fallback)
    else
      var branch := branches[0];
      assert branch.when_ < branch;
      var t :- EvalAgg(branch.when_, doc);
      if Truthy(t) then Success(branch.then_) else EvalSwitch(branches[1..], fallback, doc)
  }

  // ----- builders -----

  function IntLit(i: int): Agg { Lit(BInt32(i)) }

  function EqOp(l: Agg, r: Agg): Agg { Cmp(CEq, l, r) }

  function NeOp(l: Agg, r: Agg): Agg { Cmp(CNe, l, r) }

  function MkAnd(args: seq<Agg>): Agg {
    if args == [] then Lit(BBool(true)) else if |args| == 1 then args[0] else AndOp(args)
  }

  function MkOr(args: seq<Agg>): Agg {
    if args == [] then Lit(BBool(false)) else if |args| == 1 then args[0] else OrOp(args)
  }

  function NotNaN(e: Agg): Agg { NeOp(ToText(e), Lit(BString("NaN"))) }

  /** An expression that evaluates to a definite boolean. */
  ghost predicate Computes(e: Agg, doc: Document, b: bool) {
    EvalAgg(e, doc) == Success(BBool(b))
  }

  lemma TrueIs(doc: Document)
    ensures Computes(Lit(BBool(true)), doc, true)
  {
  }

  lemma NotIs(doc: Document, e: Agg, b: bool)
    requires Computes(e, doc, b)
    ensures Computes(NotOp(e), doc, !b)
  {
  }

  lemma AndTwo(doc: Document, x: Agg, y: Agg, b: bool, c: bool)
    requires Computes(x, doc, b) && Computes(y, doc, c)
    ensures Computes(MkAnd([x, y]), doc, b && c)
    ensures Computes(MkOr([x, y]), doc, b || c)
  {
    AndMany(doc, [x, y], [b, c]);
    OrMany(doc, [x, y], [b, c]);
  }

  lemma AndThree(doc: Document, x: Agg, y: Agg, z: Agg, b: bool, c: bool, d: bool)
    requires Computes(x, doc, b) && Computes(y, doc, c) && Computes(z, doc, d)
    ensures Computes(MkAnd([x, y, z]), doc, b && c && d)
  {
    AndMany(doc, [x, y, z], [b, c, d]);
  }

  /** A disjunction of definite booleans, whatever its length. */
  lemma {:induction false} OrMany(doc: Document, es: seq<Agg>, bs: seq<bool>)
    requires |es| == |bs|
    requires forall i | 0 <= i < |es| :: Computes(es[i], doc, bs[i])
    ensures Computes(MkOr(es), doc, true in bs)
  {
    BooleansEvaluate(doc, es, bs);
    if |es| == 1 {
      assert bs == [bs[0]];
    } else if |es| > 1 {
      var vs := EvalAggs(es, doc).value;
      assert (exists i | 0 <= i < |vs| :: Truthy(vs[i])) <==> true in bs by {
        forall i | 0 <= i < |vs| ensures Truthy(vs[i]) == bs[i] {}
      }
    }
  }

  lemma {:induction false} AndMany(doc: Document, es: seq<Agg>, bs: seq<bool>)
    requires |es| == |bs|
    requires forall i | 0 <= i < |es| :: Computes(es[i], doc, bs[i])
    ensures Computes(MkAnd(es), doc, false !in bs)
  {
    BooleansEvaluate(doc, es, bs);
    if |es| == 1 {
      assert bs == [bs[0]];
    } else if |es| > 1 {
      var vs := EvalAggs(es, doc).value;
      assert forall i | 0 <= i < |vs| :: Truthy(vs[i]) == bs[i];
      if i :| 0 <= i < |bs| && !bs[i] {
        assert !Truthy(vs[i]);
      }
      assert EvalAgg(AndOp(es), doc) == Success(BBool(false !in bs));
    }
  }

  lemma {:induction false} BooleansEvaluate(doc: Document, es: seq<Agg>, bs: seq<bool>)
    requires |es| == |bs|
    requires forall i | 0 <= i < |es| :: Computes(es[i], doc, bs[i])
    ensures EvalAggs(es, doc).Success?
    ensures forall i | 0 <= i < |es| :: EvalAggs(es, doc).value[i] == BBool(bs[i])
  {
    if es != [] {
      BooleansEvaluate(doc, es[1..], bs[1..]);
    }
  }

  // ----- the scalar codec -----

  predicate SupportedType(ty: TypeDef) {
    ty.shape.Scalar? &&
    match ty.shape.repr
    case IntRepr(bits) => bits <= 64
    case UIntRepr(bits) => bits <= 64
    case _ => true
  }

  predicate InI64(i: int) { -0x8000_0000_0000_0000 <= i <= 0x7fff_ffff_ffff_ffff }

  function TruthTag(t: Truth): int {
    match t
    case False => 0
    case True => 1
    case Unknown => 2
  }

  function DecodeTruth(i: int): Result<Truth> {
    if i == 0 then Success(False)
    else if i == 1 then Success(True)
    else if i == 2 then Success(Unknown)
    else Failure("MONGODB-DECODE-002")
  }

  const SUBTYPE_GENERIC: nat := 0

  function EncodeValue(ty: TypeDef, value: Value): Result<Bson> {
    if !ty.shape.Scalar? then Failure("MONGODB-DECODE-002")
    else match (ty.shape.repr, value)
      case (BoolRepr, BoolV(b)) => Success(BBool(b))
      case (TruthRepr, TruthV(t)) => Success(BInt32(TruthTag(t)))
      case (IntRepr(bits), IntV(i)) =>
        if bits <= 64 && InI64(i) then Success(BInt64(i)) else Failure("MONGODB-DECODE-002")
      case (UIntRepr(bits), UIntV(n)) =>
        if bits <= 64 then Success(BDecimal(false, n, 0)) else Failure("MONGODB-DECODE-002")
      case (FloatRepr, FloatV(f)) => Success(BDouble(f))
      case (CharRepr, CharV(c)) => Success(BString([c]))
      case (StringRepr, StringV(s)) => Success(BString(s))
      case (BytesRepr, BytesV(bytes)) => Success(BBinary(SUBTYPE_GENERIC, bytes))
      case _ => Failure("MONGODB-DECODE-002")
  }

  function EncodeDatum(ty: TypeDef, datum: Datum): Result<Bson> {
    if !SupportedType(ty) then Failure("MONGODB-CODEC-001")
    else if !ValidDatum(ty, Optional, datum) then Failure("MONGODB-CODEC-002")
    else match datum
      case Val(value) => EncodeValue(ty, value)
      case _ => Success(BNull)
  }

  /** Decimals are parsed from their text as an unsigned integer, so sign and exponent matter. */
  function DecodeValue(ty: TypeDef, b: Bson): Result<Value> {
    if !SupportedType(ty) then Failure("MONGODB-CODEC-001")
    else match (ty.shape.repr, b)
      case (BoolRepr, BBool(x)) => Success(BoolV(x))
      case (TruthRepr, BInt32(i)) =>
        var t :- DecodeTruth(i);
        Success(TruthV(t))
      case (TruthRepr, BInt64(i)) =>
        var t :- DecodeTruth(i);
        Success(TruthV(t))
      case (IntRepr(_), BInt32(i)) => Success(IntV(i))
      case (IntRepr(_), BInt64(i)) => Success(IntV(i))
      case (UIntRepr(_), BDecimal(negative, coefficient, exponent)) =>
        if !negative && exponent == 0 && InU128(coefficient) then Success(UIntV(coefficient))
        else Failure("MONGODB-DECODE-002")
      case (FloatRepr, BDouble(f)) => Success(FloatV(f))
      case (CharRepr, BString(s)) => if |s| == 1 then Success(CharV(s[0])) else Failure("MONGODB-DECODE-002")
      case (StringRepr, BString(s)) => Success(StringV(s))
      case (BytesRepr, BBinary(subtype, bytes)) =>
        if subtype == SUBTYPE_GENERIC then Success(BytesV(bytes)) else Failure("MONGODB-DECODE-002")
      case _ => Failure("MONGODB-DECODE-002")
  }

  /** A BSON value carries a DOL value; integers and truth tags may use either integer width. */
  predicate Carries(b: Bson, value: Value) {
    match value
    case BoolV(x) => b == BBool(x)
    case TruthV(t) => b == BInt32(TruthTag(t)) || b == BInt64(TruthTag(t))
    case IntV(i) => b == BInt32(i) || b == BInt64(i)
    case UIntV(n) => b == BDecimal(false, n, 0)
    case FloatV(f) => b == BDouble(f)
    case CharV(c) => b == BString([c])
    case StringV(s) => b == BString(s)
    case BytesV(bytes) => b == BBinary(SUBTYPE_GENERIC, bytes)
    case _ => false
  }

  /** Every value of a supported integer type fits the wire integer. */
  lemma SupportedFits(bits: nat, i: int)
    requires bits <= 64
    ensures SignedFits(bits, i) ==> InI64(i)
    ensures i >= 0 && UnsignedFits(bits, i) ==> InU128(i)
  {
    Pow2Monotone(bits, 64);
    if bits > 0 { Pow2Monotone(bits - 1, 63); }
    WidePowers();
  }

  lemma {:induction false} Pow2Monotone(m: nat, n: nat)
    requires m <= n
    ensures Pow2(m) <= Pow2(n)
  {
    if m < n { Pow2Monotone(m, n - 1); }
  }

  lemma WidePowers()
    ensures Pow2(63) == 0x8000_0000_0000_0000 && Pow2(64) == 0x1_0000_0000_0000_0000
  {
    assert Pow2(4) == 16 && Pow2(3) == 8 by { assert Pow2(2) == 4; }
    Pow2Add(4, 3);
    Pow2Add(4, 4);
    Pow2Add(8, 7);
    Pow2Add(8, 8);
    Pow2Add(16, 15);
    Pow2Add(16, 16);
    Pow2Add(32, 31);
    Pow2Add(32, 32);
  }

  lemma {:induction false} Pow2Add(m: nat, n: nat)
    ensures Pow2(m + n) == Pow2(m) * Pow2(n)
  {
    if m > 0 {
      Pow2Add(m - 1, n);
    }
  }

  /** Encoding a valid supported value succeeds with a carrier of it, and decoding any carrier returns it. */
  lemma CodecRoundTrip(ty: TypeDef, value: Value, b: Bson)
    requires SupportedType(ty) && ValidValue(ty, value)
    ensures EncodeValue(ty, value).Success? && Carries(EncodeValue(ty, value).value, value)
    ensures Carries(b, value) ==> DecodeValue(ty, b) == Success(value)
  {
    match ty.shape.repr
    case IntRepr(bits) => SupportedFits(bits, value.i);
    case UIntRepr(bits) => SupportedFits(bits, value.n);
    case _ =>
  }

  /** A successful decode is of a carrier. */
  lemma DecodeSound(ty: TypeDef, b: Bson)
    requires DecodeValue(ty, b).Success?
    ensures Carries(b, DecodeValue(ty, b).value)
  {
  }

  lemma WholeDecimal(n: nat)
    ensures NumberOf(BDecimal(false, n, 0)) == Finite(n as real)
  {
  }

  lemma NumbersCompare(b: Bson, c: Bson, i: int, j: int)
    requires IsNumber(b) && IsNumber(c) && NumberOf(b) == Finite(i as real) && NumberOf(c) == Finite(j as real)
    ensures CompareBson(b, c) == CompareInt(i, j)
  {
  }

  lemma CharsCompare(x: char, y: char)
    ensures CompareString([x], [y]) == CompareInt(x as int, y as int)
  {
    var s, t := [x], [y];
    assert s[1..] == [] && t[1..] == [];
    assert CompareString([], []) == Equal;
    if x == y {
      assert CompareString(s, t) == CompareString(s[1..], t[1..]);
    }
  }

  /** Server order on carriers is DOL order wherever DOL defines one, truth and bytes aside. */
  lemma CarriersCompare(b: Bson, c: Bson, v: Value, w: Value)
    requires Carries(b, v) && Carries(c, w)
    requires !v.TruthV? && !v.BytesV? && CompareValue(v, w).Some?
    ensures CompareBson(b, c) == CompareValue(v, w).value
  {
    match v
    case IntV(i) => NumbersCompare(b, c, i, w.i);
    case UIntV(n) =>
      WholeDecimal(n);
      WholeDecimal(w.n);
      NumbersCompare(b, c, n, w.n);
    case CharV(x) =>
      CharsCompare(x, w.c);
    case FloatV(_) =>
    case BoolV(_) =>
    case StringV(_) =>
  }

  lemma TruthsCompare(b: Bson, c: Bson, t: Truth, u: Truth)
    requires Carries(b, TruthV(t)) && Carries(c, TruthV(u))
    ensures CompareBson(b, c) == Equal <==> t == u
  {
    NumbersCompare(b, c, TruthTag(t), TruthTag(u));
  }

  predicate SameKind(v: Value, w: Value) {
    match v
    case BoolV(_) => w.BoolV?
    case TruthV(_) => w.TruthV?
    case IntV(_) => w.IntV?
    case UIntV(_) => w.UIntV?
    case FloatV(_) => w.FloatV?
    case CharV(_) => w.CharV?
    case StringV(_) => w.StringV?
    case BytesV(_) => w.BytesV?
    case _ => false
  }

  /** `$eq` on carriers is DOL equality, except that the server calls NaN equal to itself. */
  lemma CarriersEqual(b: Bson, c: Bson, v: Value, w: Value)
    requires SameKind(v, w) && Carries(b, v) && Carries(c, w)
    ensures CompareBson(b, c) == Equal <==> ValueEq(v, w) || (v == FloatV(NaN) && w == FloatV(NaN))
  {
    if v.TruthV? {
      TruthsCompare(b, c, v.t, w.t);
    } else if v.BytesV? {
      CompareBytesEqual(v.bytes, w.bytes);
    } else if CompareValue(v, w).Some? {
      CarriersCompare(b, c, v, w);
      if v.StringV? { CompareStringEqual(v.s, w.s); }
    }
  }
}
