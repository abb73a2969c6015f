/// What the collection preflight establishes, and where it is weaker than the row decoder
/// (`engines/mongodb/src/compiler.rs` source contract against `codec.rs`).

module MongoPreflight {
  import opened Results
  import opened Semantics
  import opened Models
  import opened Expressions
  import opened Plans
  import opened Bson
  import opened MongoCompiler
  import opened MongoPipeline

  // ----- names of output positions -----

  lemma {:induction false} DigitsInjective(m: nat, n: nat)
    ensures Digits(m) == Digits(n) ==> m == n
    decreases m
  {
    if Digits(m) == Digits(n) {
      var s, t := Digits(m), Digits(n);
      if m >= 10 && n >= 10 {
        assert s[..|s| - 1] == Digits(m / 10) && t[..|t| - 1] == Digits(n / 10);
        DigitsInjective(m / 10, n / 10);
        assert s[|s| - 1] == t[|t| - 1];
      }
    }
  }

  lemma CancelPrefix(p: string, s: string, t: string)
    requires p + s == p + t
    ensures s == t
  {
    assert (p + s)[|p|..] == s && (p + t)[|p|..] == t;
  }

  lemma CancelSuffix(s: string, t: string, x: string, y: string)
    requires s + x == t + y && |x| == |y|
    ensures s == t && x == y
  {
    assert |s| == |t|;
    assert (s + x)[..|s|] == s && (t + y)[..|t|] == t;
    CancelPrefix(s, x, y);
  }

  /** Within one stage no two output positions share a document field. */
  lemma NamesDistinct(kind: string, stage: nat, i: nat, j: nat)
    ensures StateName(kind, stage, i) != ValueName(kind, stage, j)
    ensures StateName(kind, stage, i) == StateName(kind, stage, j) ==> i == j
    ensures ValueName(kind, stage, i) == ValueName(kind, stage, j) ==> i == j
  {
    var p := "__dol_" + kind + Digits(stage) + "_f";
    var s, v := "_state", "_value";
    assert s[1] != v[1];
    if StateName(kind, stage, i) == ValueName(kind, stage, j) {
      CancelSuffix(p + Digits(i), p + Digits(j), s, v);
      assert false;
    }
    if StateName(kind, stage, i) == StateName(kind, stage, j) {
      CancelSuffix(p + Digits(i), p + Digits(j), s, s);
      CancelPrefix(p, Digits(i), Digits(j));
      DigitsInjective(i, j);
    }
    if ValueName(kind, stage, i) == ValueName(kind, stage, j) {
      CancelSuffix(p + Digits(i), p + Digits(j), v, v);
      CancelPrefix(p, Digits(i), Digits(j));
      DigitsInjective(i, j);
    }
  }

  ghost predicate DistinctNames(fields: seq<Computed>) {
    forall i, j | 0 <= i < j < |fields| :: fields[i].name != fields[j].name
  }

  lemma EntriesDistinct(kind: string, stage: nat, pairs: seq<Pair>)
    ensures DistinctNames(Entries(kind, stage, pairs))
  {
    hide StateName, ValueName;
    var fields := Entries(kind, stage, pairs);
    forall i, j | 0 <= i < j < |fields| ensures fields[i].name != fields[j].name {
      assert i == 2 * (i / 2) || i == 2 * (i / 2) + 1;
      assert j == 2 * (j / 2) || j == 2 * (j / 2) + 1;
      NamesDistinct(kind, stage, i / 2, j / 2);
      NamesDistinct(kind, stage, j / 2, i / 2);
    }
  }

  /** Every computed field of the projected document holds the value of its expression. */
  lemma {:induction false} ComputedLookup(fields: seq<Computed>, doc: Document)
    requires DistinctNames(fields)
    requires forall i | 0 <= i < |fields| :: EvalAgg(fields[i].value, doc).Success?
    ensures ComputeFields(fields, doc).Success?
    ensures forall i | 0 <= i < |fields| ::
              Lookup(ComputeFields(fields, doc).value, fields[i].name) == EvalAgg(fields[i].value, doc).value
    ensures forall name | name in ComputeFields(fields, doc).value ::
              exists i | 0 <= i < |fields| :: fields[i].name == name
  {
    hide EvalAgg;
    if fields != [] {
      var rest := fields[1..];
      ComputedLookup(rest, doc);
      var after := ComputeFields(rest, doc).value;
      forall name | name in ComputeFields(fields, doc).value
        ensures exists i | 0 <= i < |fields| :: fields[i].name == name
      {
        if name == fields[0].name {
        } else {
          var i :| 0 <= i < |rest| && rest[i].name == name;
          assert fields[i + 1].name == name;
        }
      }
      assert fields[0].name !in after;
      forall i | 0 <= i < |fields|
        ensures Lookup(ComputeFields(fields, doc).value, fields[i].name) == EvalAgg(fields[i].value, doc).value
      {
        if i > 0 {
          assert rest[i - 1] == fields[i];
          assert fields[0].name != fields[i].name;
        }
      }
    }
  }

  /** The projected document, seen by position. */
  lemma ProjectionLookup(kind: string, stage: nat, pairs: seq<Pair>, doc: Document)
    requires forall i | 0 <= i < |pairs| ::
               EvalAgg(pairs[i].state, doc).Success? && EvalAgg(pairs[i].value, doc).Success?
    ensures ProjectOne(Entries(kind, stage, pairs), doc).Success?
    ensures var out := ProjectOne(Entries(kind, stage, pairs), doc).value;
            forall i | 0 <= i < |pairs| ::
              && Lookup(out, StateName(kind, stage, i)) == EvalAgg(pairs[i].state, doc).value
              && Lookup(out, ValueName(kind, stage, i)) == EvalAgg(pairs[i].value, doc).value
  {
    hide EvalAgg, StateName, ValueName, Lookup;
    var fields := Entries(kind, stage, pairs);
    EntriesDistinct(kind, stage, pairs);
    forall i | 0 <= i < |fields| ensures EvalAgg(fields[i].value, doc).Success? {
      assert i == 2 * (i / 2) || i == 2 * (i / 2) + 1;
    }
    ComputedLookup(fields, doc);
    var out := ProjectOne(fields, doc).value;
    forall i | 0 <= i < |pairs|
      ensures Lookup(out, StateName(kind, stage, i)) == EvalAgg(pairs[i].state, doc).value
      ensures Lookup(out, ValueName(kind, stage, i)) == EvalAgg(pairs[i].value, doc).value
    {
      assert fields[2 * i].name == StateName(kind, stage, i) && fields[2 * i + 1].name == ValueName(kind, stage, i);
    }
  }

  // ----- one stored field -----

  function PhysicalTag(b: Bson): int {
    if b.BMissing? then STATE_MISSING else if b.BNull? then STATE_NULL else STATE_VALUE
  }

  /** What a stored field means: absence and null are states, anything else is decoded. */
  function StoredDatum(ty: TypeDef, b: Bson): Result<Datum> {
    if b.BMissing? then Success(Missing)
    else if b.BNull? then Success(Datum.Null)
    else
      var value :- DecodeValue(ty, b);
      Success(Val(value))
  }

  predicate FieldConforms(field: FieldDef, b: Bson) {
    var datum := StoredDatum(field.ty, b);
    datum.Success? && ValidDatum(field.ty, field.presence, datum.value)
  }

  /** The two transports the preflight cannot see: signed or scaled decimals, and binary subtypes. */
  predicate CanonicalTransport(ty: TypeDef, b: Bson) {
    && (ty.shape == Scalar(BytesRepr) && b.BBinary? ==> b.subtype == SUBTYPE_GENERIC)
    && (ty.shape.Scalar? && ty.shape.repr.UIntRepr? && b.BDecimal? ==> !b.negative && b.exponent == 0)
  }

  /** Integer widths a validated type definition can have. */
  predicate StandardType(ty: TypeDef) {
    ty.shape.Scalar? ==>
      && (ty.shape.repr.IntRepr? ==> StandardWidth(ty.shape.repr.bits))
      && (ty.shape.repr.UIntRepr? ==> StandardWidth(ty.shape.repr.bits))
  }

  lemma TypeIsTest(value: Agg, doc: Document, b: Bson, name: string)
    requires EvalAgg(value, doc) == Success(b)
    ensures Computes(TypeIs(value, name), doc, TypeName(b) == name)
  {
    CompareStringEqual(TypeName(b), name);
  }

  lemma NamesDiffer(b: Bson)
    ensures TypeName(b) == "missing" <==> b.BMissing?
    ensures TypeName(b) == "null" <==> b.BNull?
    ensures TypeName(b) == "bool" <==> b.BBool?
    ensures TypeName(b) == "int" <==> b.BInt32?
    ensures TypeName(b) == "long" <==> b.BInt64?
    ensures TypeName(b) == "decimal" <==> b.BDecimal?
    ensures TypeName(b) == "double" <==> b.BDouble?
    ensures TypeName(b) == "string" <==> b.BString?
    ensures TypeName(b) == "binData" <==> b.BBinary?
  {
  }

  lemma SourceStateIs(value: Agg, doc: Document, b: Bson)
    requires EvalAgg(value, doc) == Success(b)
    ensures EvalAgg(SourceState(value), doc) == Success(BInt32(PhysicalTag(b)))
  {
    TypeIsTest(value, doc, b, "missing");
    TypeIsTest(value, doc, b, "null");
    NamesDiffer(b);
    hide CompareBson, TypeName;
    var missing := Branch(TypeIs(value, "missing"), BInt32(STATE_MISSING));
    var null_ := Branch(TypeIs(value, "null"), BInt32(STATE_NULL));
    var branches := [missing, null_];
    assert branches[1..] == [null_];
    assert [null_][1..] == [];
    assert EvalSwitch([], BInt32(STATE_VALUE), doc) == Success(BInt32(STATE_VALUE));
    assert EvalSwitch([null_], BInt32(STATE_VALUE), doc)
        == Success(if b.BNull? then BInt32(STATE_NULL) else BInt32(STATE_VALUE));
    assert EvalSwitch(branches, BInt32(STATE_VALUE), doc) == Success(BInt32(PhysicalTag(b)));
  }

  lemma IntegerTypedIs(value: Agg, doc: Document, b: Bson)
    requires EvalAgg(value, doc) == Success(b)
    ensures Computes(IntegerTyped(value), doc, b.BInt32? || b.BInt64?)
  {
    TypeIsTest(value, doc, b, "int");
    TypeIsTest(value, doc, b, "long");
    NamesDiffer(b);
    AndTwo(doc, TypeIs(value, "int"), TypeIs(value, "long"), b.BInt32?, b.BInt64?);
  }

  lemma CmpIs(value: Agg, doc: Document, b: Bson, op: CompareOp, c: Bson)
    requires EvalAgg(value, doc) == Success(b)
    ensures Computes(Cmp(op, value, Lit(c)), doc, Holds(op, CompareBson(b, c)))
  {
  }

  lemma BetweenIs(value: Agg, doc: Document, b: Bson, low: Bson, high: Bson)
    requires EvalAgg(value, doc) == Success(b)
    ensures Computes(Between(value, low, high), doc, CompareBson(b, low) != Less && CompareBson(b, high) != Greater)
  {
    CmpIs(value, doc, b, CGte, low);
    CmpIs(value, doc, b, CLte, high);
    AndTwo(doc, Cmp(CGte, value, Lit(low)), Cmp(CLte, value, Lit(high)), CompareBson(b, low) != Less,
           CompareBson(b, high) != Greater);
  }

  lemma GuardIs(test: Agg, doc: Document, b: bool, inner: Agg, c: bool, fallback: bool)
    requires Computes(test, doc, b) && (b ==> Computes(inner, doc, c))
    ensures Computes(CondOp(test, inner, Lit(BBool(fallback))), doc, if b then c else fallback)
  {
  }

  /** The value test of one type, as a plain predicate. */
  predicate WireValid(ty: TypeDef, b: Bson)
    requires SupportedType(ty)
  {
    match ty.shape.repr
    case BoolRepr => b.BBool?
    case TruthRepr => (b.BInt32? || b.BInt64?) && 0 <= b.i <= 2
    case IntRepr(bits) => (b.BInt32? || b.BInt64?) && bits > 0 && -Pow2(bits - 1) <= b.i < Pow2(bits - 1)
    case UIntRepr(bits) => b.BDecimal? && 0.0 <= DecimalValue(b) <= (Pow2(bits) - 1) as real
    case FloatRepr => b.BDouble?
    case CharRepr => b.BString? && |b.s| == 1
    case StringRepr => b.BString?
    case BytesRepr => b.BBinary?
  }

  lemma TruthListIs(value: Agg, doc: Document, b: Bson)
    requires EvalAgg(value, doc) == Success(b) && (b.BInt32? || b.BInt64?)
    ensures Computes(InOp(value, [BInt32(TRUTH_FALSE), BInt32(TRUTH_TRUE), BInt32(TRUTH_UNKNOWN)]), doc, 0 <= b.i <= 2)
  {
    var values := [BInt32(TRUTH_FALSE), BInt32(TRUTH_TRUE), BInt32(TRUTH_UNKNOWN)];
    forall k | 0 <= k < 3 ensures CompareBson(b, values[k]) == Equal <==> b.i == k {
      NumbersCompare(b, values[k], b.i, k);
    }
    if 0 <= b.i <= 2 {
      assert CompareBson(b, values[b.i]) == Equal;
    }
  }

  lemma IntegerRangeIs(value: Agg, doc: Document, b: Bson, bits: nat)
    requires EvalAgg(value, doc) == Success(b) && (b.BInt32? || b.BInt64?) && bits > 0
    ensures Computes(Between(value, BInt64(-Pow2(bits - 1)), BInt64(Pow2(bits - 1) - 1)), doc,
                     -Pow2(bits - 1) <= b.i < Pow2(bits - 1))
  {
    hide EvalAgg;
    BetweenIs(value, doc, b, BInt64(-Pow2(bits - 1)), BInt64(Pow2(bits - 1) - 1));
    NumbersCompare(b, BInt64(-Pow2(bits - 1)), b.i, -Pow2(bits - 1));
    NumbersCompare(b, BInt64(Pow2(bits - 1) - 1), b.i, Pow2(bits - 1) - 1);
  }

  lemma DecimalRangeIs(value: Agg, doc: Document, b: Bson, bits: nat)
    requires EvalAgg(value, doc) == Success(b) && b.BDecimal?
    ensures Computes(Between(value, BDecimal(false, 0, 0), BDecimal(false, Pow2(bits) - 1, 0)), doc,
                     0.0 <= DecimalValue(b) <= (Pow2(bits) - 1) as real)
  {
    hide EvalAgg;
    BetweenIs(value, doc, b, BDecimal(false, 0, 0), BDecimal(false, Pow2(bits) - 1, 0));
    WholeDecimal(0);
    WholeDecimal(Pow2(bits) - 1);
    hide DecimalValue;
    assert NumberOf(b) == Finite(DecimalValue(b));
  }

  lemma LengthIs(value: Agg, doc: Document, b: Bson)
    requires EvalAgg(value, doc) == Success(b) && b.BString?
    ensures Computes(EqOp(StrLenCP(value), IntLit(1)), doc, |b.s| == 1)
  {
    NumbersCompare(BInt32(|b.s|), BInt32(1), |b.s|, 1);
  }

  lemma ValueTestIs(ty: TypeDef, value: Agg, doc: Document, b: Bson)
    requires SupportedType(ty) && EvalAgg(value, doc) == Success(b) && SourceValueValid(ty, value).Success?
    ensures Computes(SourceValueValid(ty, value).value, doc, WireValid(ty, b))
  {
    hide EvalAgg, DecimalValue;
    NamesDiffer(b);
    match ty.shape.repr
    case BoolRepr => TypeIsTest(value, doc, b, "bool");
    case TruthRepr =>
      IntegerTypedIs(value, doc, b);
      if b.BInt32? || b.BInt64? { TruthListIs(value, doc, b); }
      GuardIs(IntegerTyped(value), doc, b.BInt32? || b.BInt64?,
              InOp(value, [BInt32(TRUTH_FALSE), BInt32(TRUTH_TRUE), BInt32(TRUTH_UNKNOWN)]), WireValid(ty, b), false);
    case IntRepr(bits) =>
      IntegerTypedIs(value, doc, b);
      if b.BInt32? || b.BInt64? { IntegerRangeIs(value, doc, b, bits); }
      GuardIs(IntegerTyped(value), doc, b.BInt32? || b.BInt64?,
              Between(value, BInt64(-Pow2(bits - 1)), BInt64(Pow2(bits - 1) - 1)), WireValid(ty, b), false);
    case UIntRepr(bits) =>
      TypeIsTest(value, doc, b, "decimal");
      if b.BDecimal? { DecimalRangeIs(value, doc, b, bits); }
      GuardIs(TypeIs(value, "decimal"), doc, b.BDecimal?,
              Between(value, BDecimal(false, 0, 0), BDecimal(false, Pow2(bits) - 1, 0)), WireValid(ty, b), false);
    case FloatRepr => TypeIsTest(value, doc, b, "double");
    case CharRepr =>
      TypeIsTest(value, doc, b, "string");
      if b.BString? { LengthIs(value, doc, b); }
      GuardIs(TypeIs(value, "string"), doc, b.BString?, EqOp(StrLenCP(value), IntLit(1)), WireValid(ty, b), false);
    case StringRepr => TypeIsTest(value, doc, b, "string");
    case BytesRepr => TypeIsTest(value, doc, b, "binData");
  }

  /** On canonical transports the value test accepts exactly what decodes to a valid value. */
  lemma WireValidMeaning(ty: TypeDef, b: Bson)
    requires SupportedType(ty) && StandardType(ty)
    ensures WireValid(ty, b) && CanonicalTransport(ty, b) <==>
              DecodeValue(ty, b).Success? && ValidValue(ty, DecodeValue(ty, b).value)
  {
    hide DecimalValue;
    match ty.shape.repr
    case UIntRepr(bits) =>
      if b.BDecimal? && !b.negative && b.exponent == 0 {
        WholeDecimalFits(bits, b.coefficient);
      }
    case _ =>
  }

  lemma WholeDecimalFits(bits: nat, n: nat)
    requires bits <= 64 && StandardWidth(bits)
    ensures 0.0 <= DecimalValue(BDecimal(false, n, 0)) <= (Pow2(bits) - 1) as real <==>
              InU128(n) && UnsignedFits(bits, n)
  {
    WholeDecimal(n);
    SupportedFits(bits, n);
    assert DecimalValue(BDecimal(false, n, 0)) == n as real;
  }

  predicate PresenceHolds(field: FieldDef, tag: int) {
    match field.presence
    case Required => if field.ty.nullable then tag != STATE_MISSING else tag == STATE_VALUE
    case Optional => field.ty.nullable || tag != STATE_NULL
  }

  lemma PresenceIs(field: FieldDef, state: Agg, doc: Document, tag: int)
    requires EvalAgg(state, doc) == Success(BInt32(tag))
    ensures Computes(PresenceValid(field.presence, field.ty.nullable, state), doc, PresenceHolds(field, tag))
  {
    hide EvalAgg;
    StateTestIs(state, doc, tag, STATE_MISSING);
    StateTestIs(state, doc, tag, STATE_NULL);
    StateTestIs(state, doc, tag, STATE_VALUE);
    TrueIs(doc);
  }

  lemma StateTestIs(state: Agg, doc: Document, tag: int, expected: int)
    requires EvalAgg(state, doc) == Success(BInt32(tag))
    ensures Computes(EqOp(state, IntLit(expected)), doc, tag == expected)
    ensures Computes(NeOp(state, IntLit(expected)), doc, tag != expected)
  {
    NumbersCompare(BInt32(tag), BInt32(expected), tag, expected);
  }

  predicate FieldAccepted(field: FieldDef, b: Bson)
    requires SupportedType(field.ty)
  {
    PresenceHolds(field, PhysicalTag(b)) && (PhysicalTag(b) == STATE_VALUE ==> WireValid(field.ty, b))
  }

  /** The validity test of a field, whatever the document holds, evaluates to a definite boolean. */
  lemma FieldTestIs(field: FieldDef, value: Agg, doc: Document, b: Bson)
    requires EvalAgg(value, doc) == Success(b) && SupportedType(field.ty)
    requires SourceFieldValid(field, SourceState(value), value).Success?
    ensures Computes(SourceFieldValid(field, SourceState(value), value).value, doc, FieldAccepted(field, b))
  {
    hide EvalAgg, WireValid;
    var state := SourceState(value);
    var valueValid := SourceValueValid(field.ty, value).value;
    SourceStateIs(value, doc, b);
    PresenceIs(field, state, doc, PhysicalTag(b));
    StateTestIs(state, doc, PhysicalTag(b), STATE_VALUE);
    ValueTestIs(field.ty, value, doc, b);
    GuardIs(EqOp(state, IntLit(STATE_VALUE)), doc, PhysicalTag(b) == STATE_VALUE, valueValid,
            WireValid(field.ty, b), true);
    AndTwo(doc, PresenceValid(field.presence, field.ty.nullable, state),
           CondOp(EqOp(state, IntLit(STATE_VALUE)), valueValid, Lit(BBool(true))),
           PresenceHolds(field, PhysicalTag(b)),
           if PhysicalTag(b) == STATE_VALUE then WireValid(field.ty, b) else true);
  }

  /** The preflight of a field accepts, and the transport is canonical, exactly when the decoder would accept. */
  lemma FieldContract(field: FieldDef, b: Bson)
    requires SupportedType(field.ty) && StandardType(field.ty)
    ensures FieldAccepted(field, b) && CanonicalTransport(field.ty, b) <==> FieldConforms(field, b)
  {
    hide WireValid, DecodeValue, ValidValue;
    WireValidMeaning(field.ty, b);
  }

  /** Both gaps are real: a document the preflight passes and the decoder refuses. */
  lemma PreflightIsWeaker(key: string)
    ensures exists b ::
              var field := FieldDef(key, TypeDef(key, Scalar(UIntRepr(8)), false), Required);
              FieldAccepted(field, b) && !FieldConforms(field, b)
    ensures exists b ::
              var field := FieldDef(key, TypeDef(key, Scalar(BytesRepr), false), Required);
              FieldAccepted(field, b) && !FieldConforms(field, b)
  {
    var uint := FieldDef(key, TypeDef(key, Scalar(UIntRepr(8)), false), Required);
    var fivePointZero := BDecimal(false, 50, -1);
    assert ScaleDown(50.0, 1) == 5.0 by {
      assert ScaleDown(5.0, 0) == 5.0;
    }
    assert Pow2(8) >= 6 by { assert Pow2(8) == 2 * Pow2(7) == 4 * Pow2(6) == 8 * Pow2(5); }
    assert FieldAccepted(uint, fivePointZero) && !FieldConforms(uint, fivePointZero);
    var bytes := FieldDef(key, TypeDef(key, Scalar(BytesRepr), false), Required);
    var tagged := BBinary(4, []);
    assert FieldAccepted(bytes, tagged) && !FieldConforms(bytes, tagged);
  }

  // ----- a stored document and a collection -----

  function StoredAt(entry: CatalogEntry, doc: Document, i: nat): Bson
    requires i < |entry.model.fields| && entry.model.fields[i].key in entry.fields
  {
    Lookup(doc, entry.fields[entry.model.fields[i].key])
  }

  predicate Mapped(entry: CatalogEntry) {
    forall i | 0 <= i < |entry.model.fields| ::
      entry.model.fields[i].key in entry.fields && SupportedType(entry.model.fields[i].ty)
        && StandardType(entry.model.fields[i].ty)
  }

  predicate DocumentConforms(entry: CatalogEntry, doc: Document)
    requires Mapped(entry)
  {
    forall i | 0 <= i < |entry.model.fields| :: FieldConforms(entry.model.fields[i], StoredAt(entry, doc, i))
  }

  predicate DocumentCanonical(entry: CatalogEntry, doc: Document)
    requires Mapped(entry)
  {
    forall i | 0 <= i < |entry.model.fields| :: CanonicalTransport(entry.model.fields[i].ty, StoredAt(entry, doc, i))
  }

  /** The row a conforming document stands for. */
  function StoredRow(entry: CatalogEntry, doc: Document): (row: Row)
    requires Mapped(entry) && DocumentConforms(entry, doc)
    ensures ValidRow(row) && row.model == entry.model
  {
    Row(entry.model, seq(|entry.model.fields|, i requires 0 <= i < |entry.model.fields| =>
      StoredDatum(entry.model.fields[i].ty, StoredAt(entry, doc, i)).value))
  }

  function StoredRows(entry: CatalogEntry, docs: seq<Document>): (rows: seq<Row>)
    requires Mapped(entry) && forall k | 0 <= k < |docs| :: DocumentConforms(entry, docs[k])
    ensures |rows| == |docs| && forall k | 0 <= k < |docs| :: rows[k] == StoredRow(entry, docs[k])
  {
    seq(|docs|, k requires 0 <= k < |docs| => StoredRow(entry, docs[k]))
  }

  predicate DocumentAccepted(entry: CatalogEntry, doc: Document)
    requires Mapped(entry)
  {
    forall i | 0 <= i < |entry.model.fields| :: FieldAccepted(entry.model.fields[i], StoredAt(entry, doc, i))
  }

  lemma PathIs(name: string, doc: Document)
    ensures EvalAgg(Path(name), doc) == Success(Lookup(doc, name))
  {
  }

  lemma OffenderTestIs(entry: CatalogEntry, doc: Document)
    requires Mapped(entry) && SourceFields(entry, |entry.model.fields|).Success?
    ensures Computes(NotOp(MkAnd(SourceFields(entry, |entry.model.fields|).value.1)), doc,
                     !DocumentAccepted(entry, doc))
  {
    hide EvalAgg, FieldAccepted, SourceFieldValid, Computes;
    var tests := SourceFields(entry, |entry.model.fields|).value.1;
    var answers := seq(|tests|, i requires 0 <= i < |tests| =>
      FieldAccepted(entry.model.fields[i], StoredAt(entry, doc, i)));
    forall i | 0 <= i < |tests| ensures Computes(tests[i], doc, answers[i]) {
      var field := entry.model.fields[i];
      PathIs(entry.fields[field.key], doc);
      FieldTestIs(field, Path(entry.fields[field.key]), doc, StoredAt(entry, doc, i));
    }
    AndMany(doc, tests, answers);
    NotIs(doc, MkAnd(tests), false !in answers);
    if i :| 0 <= i < |answers| && !answers[i] {
      assert !FieldAccepted(entry.model.fields[i], StoredAt(entry, doc, i));
    }
    assert DocumentAccepted(entry, doc) <==> false !in answers;
  }

  /** The preflight pipeline runs on every collection, and returns an offender exactly when there is one. */
  lemma {:induction false} OffendersFound(entry: CatalogEntry, docs: seq<Document>)
    requires Mapped(entry) && SourceFields(entry, |entry.model.fields|).Success?
    ensures var found := MatchDocs(NotOp(MkAnd(SourceFields(entry, |entry.model.fields|).value.1)), docs);
            found.Success? && (found.value == [] <==> forall k | 0 <= k < |docs| :: DocumentAccepted(entry, docs[k]))
  {
    hide EvalAgg, DocumentAccepted, SourceFields;
    if docs != [] {
      OffendersFound(entry, docs[1..]);
      OffenderTestIs(entry, docs[0]);
      assert forall k | 0 < k < |docs| :: docs[k] == docs[1..][k - 1];
    }
  }

  lemma DocumentContract(entry: CatalogEntry, doc: Document)
    requires Mapped(entry)
    ensures DocumentAccepted(entry, doc) && DocumentCanonical(entry, doc) <==> DocumentConforms(entry, doc)
  {
    hide FieldAccepted, CanonicalTransport, FieldConforms;
    forall i | 0 <= i < |entry.model.fields|
      ensures FieldAccepted(entry.model.fields[i], StoredAt(entry, doc, i))
                && CanonicalTransport(entry.model.fields[i].ty, StoredAt(entry, doc, i))
         <==> FieldConforms(entry.model.fields[i], StoredAt(entry, doc, i))
    {
      FieldContract(entry.model.fields[i], StoredAt(entry, doc, i));
    }
  }

  lemma ValidationRuns(offender: Agg, docs: seq<Document>)
    requires MatchDocs(offender, docs).Success?
    ensures var stages := [MatchExpr(offender), LimitDocs(1), ProjectDoc([Computed("_id", Path("_id"))])];
            var r := RunPipeline(stages, docs);
            r.Success? && (r.value == [] <==> MatchDocs(offender, docs).value == [])
  {
    var id := ProjectDoc([Computed("_id", Path("_id"))]);
    var found := MatchDocs(offender, docs).value;
    var one, two := [MatchExpr(offender)], [MatchExpr(offender), LimitDocs(1)];
    assert RunStages([], docs) == Success(docs);
    RunAppend([], MatchExpr(offender), docs);
    assert [] + [MatchExpr(offender)] == one;
    RunAppend(one, LimitDocs(1), docs);
    assert one + [LimitDocs(1)] == two;
    var first := Take(found, Some(1));
    RunAppend(two, id, docs);
    assert two + [id] == [MatchExpr(offender), LimitDocs(1), id];
    ProjectAlways(first);
  }

  lemma {:induction false} ProjectAlways(docs: seq<Document>)
    ensures var r := ProjectDocs([Computed("_id", Path("_id"))], docs); r.Success? && |r.value| == |docs|
  {
    if docs != [] {
      ProjectAlways(docs[1..]);
      var fields := [Computed("_id", Path("_id"))];
      assert ComputeFields(fields[1..], docs[0]) == Success(map[]);
    }
  }

  /** A collection passes the preflight with canonical transports exactly when every document decodes to a valid row. */
  lemma PreflightContract(catalog: Catalog, model: ModelDef, stage: nat, docs: seq<Document>)
    requires CompileSource(catalog, model, stage).Success?
    requires Mapped(catalog[model.key])
    ensures var preflight := RunPipeline(CompileSource(catalog, model, stage).value.validation, docs);
            && preflight.Success?
            && (preflight.value == [] && (forall k | 0 <= k < |docs| :: DocumentCanonical(catalog[model.key], docs[k]))
                <==> forall k | 0 <= k < |docs| :: DocumentConforms(catalog[model.key], docs[k]))
  {
    var entry := catalog[model.key];
    hide EvalAgg, RunPipeline, SourceFields, MatchDocs, DocumentAccepted, DocumentCanonical, DocumentConforms;
    var offender := NotOp(MkAnd(SourceFields(entry, |model.fields|).value.1));
    OffendersFound(entry, docs);
    ValidationRuns(offender, docs);
    forall k | 0 <= k < |docs|
      ensures DocumentAccepted(entry, docs[k]) && DocumentCanonical(entry, docs[k]) <==>
                DocumentConforms(entry, docs[k])
    {
      DocumentContract(entry, docs[k]);
    }
  }
}
