/// Uniqueness of identity and constraint tuples over materialized rows, decided with hash
/// buckets (`crates/dol-core/src/data/validate.rs`).

module Uniqueness {
  import opened Results
  import opened Semantics
  import opened Models
  import opened Plans

  /** A hash of a tuple. It may collide, but it must not tell equal tuples apart. */
  type TupleHash = seq<Datum> -> nat

  ghost predicate RespectsEquality(hash: TupleHash) {
    forall xs, ys :: DatumsEq(xs, ys) ==> hash(xs) == hash(ys)
  }

  /** The tuple of a row, or none when an absent component takes it out of the constraint. */
  function TupleValues(row: Row, model: ModelDef, fields: seq<string>, skipAbsent: bool): Result<Option<seq<Datum>>> {
    if fields == [] then Success(Some([]))
    else
      var slot := FieldSlot(model, fields[0]);
      if slot.None? then Failure("DATASET-CONSTRAINT-001")
      else if slot.value >= |row.values| then Failure("DATASET-RECORD-002")
      else if skipAbsent && !row.values[slot.value].Val? then Success(None)
      else
        var rest :- TupleValues(row, model, fields[1..], skipAbsent);
        Success(if rest.None? then None else Some([row.values[slot.value]] + rest.value))
  }

  // ----- what a tuple is, field by field -----

  /** The row's datum in the field with this key, when the model has the field and the row the slot. */
  function Component(row: Row, model: ModelDef, field: string): Option<Datum> {
    var slot := FieldSlot(model, field);
    if slot.Some? && slot.value < |row.values| then Some(row.values[slot.value]) else None
  }

  predicate HasValue(row: Row, model: ModelDef, field: string) {
    var component := Component(row, model, field);
    component.Some? && component.value.Val?
  }

  predicate ReadBefore(row: Row, model: ModelDef, fields: seq<string>, skipAbsent: bool, k: nat)
    requires k <= |fields|
  {
    forall j | 0 <= j < k ::
      Component(row, model, fields[j]).Some? && (skipAbsent ==> HasValue(row, model, fields[j]))
  }

  /** The first field that cannot be read before an exempting absence. */
  predicate Unreadable(row: Row, model: ModelDef, fields: seq<string>, skipAbsent: bool) {
    exists k | 0 <= k < |fields| :: UnreadableAt(row, model, fields, skipAbsent, k)
  }

  predicate UnreadableAt(row: Row, model: ModelDef, fields: seq<string>, skipAbsent: bool, k: nat)
    requires k < |fields|
  {
    ReadBefore(row, model, fields, skipAbsent, k) && Component(row, model, fields[k]).None?
  }

  /** Every component is there, and present where absence exempts. */
  predicate TakesPart(row: Row, model: ModelDef, fields: seq<string>, skipAbsent: bool) {
    ReadBefore(row, model, fields, skipAbsent, |fields|)
  }

  /** A tuple holds every component in order; it fails on the first unreadable field, and an absence exempts it. */
  lemma {:induction false} TupleReads(row: Row, model: ModelDef, fields: seq<string>, skipAbsent: bool)
    ensures var tuple := TupleValues(row, model, fields, skipAbsent);
            && (tuple.Failure? <==> Unreadable(row, model, fields, skipAbsent))
            && (tuple.Success? && tuple.value.Some? <==> TakesPart(row, model, fields, skipAbsent))
            && (tuple.Success? && tuple.value.Some? ==>
                  && |tuple.value.value| == |fields|
                  && forall k | 0 <= k < |fields| :: Component(row, model, fields[k]) == Some(tuple.value.value[k]))
  {
    hide Component;
    if fields != [] {
      var rest := fields[1..];
      TupleReads(row, model, rest, skipAbsent);
      ComponentIs(row, model, fields[0]);
      assert forall k | 0 < k < |fields| :: fields[k] == rest[k - 1];
      assert forall k | 0 <= k < |rest| :: rest[k] == fields[k + 1];
      if Component(row, model, fields[0]).Some? && (skipAbsent ==> HasValue(row, model, fields[0])) {
        hide HasValue;
        forall k | 0 <= k < |rest|
          ensures ReadBefore(row, model, rest, skipAbsent, k) <==> ReadBefore(row, model, fields, skipAbsent, k + 1)
          ensures UnreadableAt(row, model, rest, skipAbsent, k) <==> UnreadableAt(row, model, fields, skipAbsent, k + 1)
        {
          ReadShift(row, model, fields, skipAbsent, k);
        }
        ReadShift(row, model, fields, skipAbsent, |rest|);
        Shifted(row, model, fields, skipAbsent);
      } else {
        Stopped(row, model, fields, skipAbsent);
      }
    }
  }

  lemma ComponentIs(row: Row, model: ModelDef, field: string)
    ensures Component(row, model, field).None? <==>
              FieldSlot(model, field).None? || FieldSlot(model, field).value >= |row.values|
    ensures Component(row, model, field).Some? ==>
              Component(row, model, field).value == row.values[FieldSlot(model, field).value]
  {
  }

  lemma ReadShift(row: Row, model: ModelDef, fields: seq<string>, skipAbsent: bool, k: nat)
    requires fields != [] && k < |fields| && ReadBefore(row, model, fields, skipAbsent, 1)
    ensures ReadBefore(row, model, fields[1..], skipAbsent, k) <==> ReadBefore(row, model, fields, skipAbsent, k + 1)
  {
    hide Component, HasValue;
    assert forall j | 0 < j < |fields| :: fields[j] == fields[1..][j - 1];
    assert forall j | 0 <= j < |fields| - 1 :: fields[1..][j] == fields[j + 1];
  }

  /** Past a readable first field, a row is unreadable exactly in the fields that follow. */
  lemma Shifted(row: Row, model: ModelDef, fields: seq<string>, skipAbsent: bool)
    requires fields != [] && ReadBefore(row, model, fields, skipAbsent, 1)
    requires forall k | 0 <= k < |fields[1..]| ::
               UnreadableAt(row, model, fields[1..], skipAbsent, k) <==>
                 UnreadableAt(row, model, fields, skipAbsent, k + 1)
    ensures Unreadable(row, model, fields, skipAbsent) <==> Unreadable(row, model, fields[1..], skipAbsent)
  {
    hide Component, HasValue;
    if Unreadable(row, model, fields, skipAbsent) {
      var k :| 0 <= k < |fields| && UnreadableAt(row, model, fields, skipAbsent, k);
      assert k > 0;
      assert UnreadableAt(row, model, fields[1..], skipAbsent, k - 1);
    }
    if Unreadable(row, model, fields[1..], skipAbsent) {
      var k :| 0 <= k < |fields[1..]| && UnreadableAt(row, model, fields[1..], skipAbsent, k);
      assert UnreadableAt(row, model, fields, skipAbsent, k + 1);
    }
  }

  /** At an unreadable or exempting first field the reading stops. */
  lemma Stopped(row: Row, model: ModelDef, fields: seq<string>, skipAbsent: bool)
    requires fields != [] && !ReadBefore(row, model, fields, skipAbsent, 1)
    ensures Unreadable(row, model, fields, skipAbsent) <==> Component(row, model, fields[0]).None?
    ensures !TakesPart(row, model, fields, skipAbsent)
  {
    hide Component, HasValue;
    if Component(row, model, fields[0]).None? {
      assert UnreadableAt(row, model, fields, skipAbsent, 0);
    }
  }

  /** No two rows that take part are equal in every field of the key, and every row can be read. */
  ghost predicate KeyUnique(rows: seq<Row>, model: ModelDef, fields: seq<string>, skipAbsent: bool) {
    && (forall i | 0 <= i < |rows| :: !Unreadable(rows[i], model, fields, skipAbsent))
    && forall i, j |
         && 0 <= i < j < |rows|
         && TakesPart(rows[i], model, fields, skipAbsent)
         && TakesPart(rows[j], model, fields, skipAbsent) ::
         exists k | 0 <= k < |fields| :: DiffersIn(rows[i], rows[j], model, fields[k])
  }

  predicate DiffersIn(row: Row, other: Row, model: ModelDef, field: string) {
    var d, e := Component(row, model, field), Component(other, model, field);
    d.Some? && e.Some? && !DatumEq(d.value, e.value)
  }

  lemma TuplesDiffer(row: Row, other: Row, model: ModelDef, fields: seq<string>, skipAbsent: bool)
    requires Participates(row, model, fields, skipAbsent) && Participates(other, model, fields, skipAbsent)
    ensures !DatumsEq(ConstraintTuple(row, model, fields, skipAbsent),
                      ConstraintTuple(other, model, fields, skipAbsent))
       <==> exists k | 0 <= k < |fields| :: DiffersIn(row, other, model, fields[k])
  {
    TupleReads(row, model, fields, skipAbsent);
    TupleReads(other, model, fields, skipAbsent);
    hide Component, DatumEq, TupleValues;
    var t, u := ConstraintTuple(row, model, fields, skipAbsent), ConstraintTuple(other, model, fields, skipAbsent);
    assert forall k | 0 <= k < |fields| :: DiffersIn(row, other, model, fields[k]) <==> !DatumEq(t[k], u[k]);
  }

  lemma UniqueIsKeyUnique(rows: seq<Row>, model: ModelDef, fields: seq<string>, skipAbsent: bool)
    ensures UniqueTuples(rows, model, fields, skipAbsent) <==> KeyUnique(rows, model, fields, skipAbsent)
  {
    hide TupleValues, Component, DatumsEq, DiffersIn, ConstraintTuple, Unreadable, TakesPart;
    forall i | 0 <= i < |rows|
      ensures TupleValues(rows[i], model, fields, skipAbsent).Failure? <==>
                Unreadable(rows[i], model, fields, skipAbsent)
      ensures Participates(rows[i], model, fields, skipAbsent) <==> TakesPart(rows[i], model, fields, skipAbsent)
    {
      TupleReads(rows[i], model, fields, skipAbsent);
    }
    forall i, j |
      && 0 <= i < j < |rows|
      && Participates(rows[i], model, fields, skipAbsent)
      && Participates(rows[j], model, fields, skipAbsent)
      ensures !DatumsEq(ConstraintTuple(rows[i], model, fields, skipAbsent),
                        ConstraintTuple(rows[j], model, fields, skipAbsent))
         <==> exists k | 0 <= k < |fields| :: DiffersIn(rows[i], rows[j], model, fields[k])
    {
      TuplesDiffer(rows[i], rows[j], model, fields, skipAbsent);
    }
  }

  // ----- uniqueness -----

  predicate Participates(row: Row, model: ModelDef, fields: seq<string>, skipAbsent: bool) {
    var tuple := TupleValues(row, model, fields, skipAbsent);
    tuple.Success? && tuple.value.Some?
  }

  function ConstraintTuple(row: Row, model: ModelDef, fields: seq<string>, skipAbsent: bool): seq<Datum>
    requires Participates(row, model, fields, skipAbsent)
  {
    TupleValues(row, model, fields, skipAbsent).value.value
  }

  /** Every row has a tuple or is exempt, and no two participating rows have equal tuples. */
  ghost predicate UniqueTuples(rows: seq<Row>, model: ModelDef, fields: seq<string>, skipAbsent: bool) {
    && (forall i | 0 <= i < |rows| :: TupleValues(rows[i], model, fields, skipAbsent).Success?)
    && forall i, j |
         && 0 <= i < j < |rows|
         && Participates(rows[i], model, fields, skipAbsent)
         && Participates(rows[j], model, fields, skipAbsent) ::
         !DatumsEq(ConstraintTuple(rows[i], model, fields, skipAbsent),
                   ConstraintTuple(rows[j], model, fields, skipAbsent))
  }

  type Buckets = map<nat, seq<seq<Datum>>>

  /** Exactly the tuples of the first `n` rows are in the buckets, each in the bucket of its hash. */
  ghost predicate Filed(seen: Buckets, hash: TupleHash, rows: seq<Row>, n: nat, model: ModelDef, fields: seq<string>,
      skipAbsent: bool)
    requires n <= |rows|
  {
    && (forall h, tuple | h in seen && tuple in seen[h] ::
          exists i | 0 <= i < n ::
            && Participates(rows[i], model, fields, skipAbsent)
            && ConstraintTuple(rows[i], model, fields, skipAbsent) == tuple)
    && (forall i | 0 <= i < n && Participates(rows[i], model, fields, skipAbsent) ::
          var tuple := ConstraintTuple(rows[i], model, fields, skipAbsent);
          hash(tuple) in seen && tuple in seen[hash(tuple)])
  }

  /** A tuple has an equal in its bucket exactly when an earlier row has an equal tuple. */
  lemma BucketDecides(seen: Buckets, hash: TupleHash, rows: seq<Row>, n: nat, model: ModelDef, fields: seq<string>,
      skipAbsent: bool, tuple: seq<Datum>)
    requires n <= |rows| && RespectsEquality(hash) && Filed(seen, hash, rows, n, model, fields, skipAbsent)
    ensures (hash(tuple) in seen && exists k | 0 <= k < |seen[hash(tuple)]| :: DatumsEq(seen[hash(tuple)][k], tuple))
       <==> exists i | 0 <= i < n ::
              && Participates(rows[i], model, fields, skipAbsent)
              && DatumsEq(ConstraintTuple(rows[i], model, fields, skipAbsent), tuple)
  {
    hide DatumsEq, TupleValues;
    if hash(tuple) in seen && exists k | 0 <= k < |seen[hash(tuple)]| :: DatumsEq(seen[hash(tuple)][k], tuple) {
      var k :| 0 <= k < |seen[hash(tuple)]| && DatumsEq(seen[hash(tuple)][k], tuple);
      assert seen[hash(tuple)][k] in seen[hash(tuple)];
    }
    if i :|
         && 0 <= i < n
         && Participates(rows[i], model, fields, skipAbsent)
         && DatumsEq(ConstraintTuple(rows[i], model, fields, skipAbsent), tuple)
    {
      var earlier := ConstraintTuple(rows[i], model, fields, skipAbsent);
      assert earlier in seen[hash(tuple)];
    }
  }

  /** Grows the buckets row by row, stops at the first duplicate, and for any hash accepts exactly the unique rows. */
  method ValidateUniqueTuple(rows: seq<Row>, model: ModelDef, fields: seq<string>, skipAbsent: bool,
      hash: TupleHash) returns (r: Result<()>)
    requires RespectsEquality(hash)
    ensures r.Success? <==> UniqueTuples(rows, model, fields, skipAbsent)
    ensures r.Success? <==> KeyUnique(rows, model, fields, skipAbsent)
  {
    UniqueIsKeyUnique(rows, model, fields, skipAbsent);
    hide DatumsEq, TupleValues, Filed, KeyUnique;
    var seen: Buckets := map[];
    FiledEmpty(hash, rows, model, fields, skipAbsent);
    for n := 0 to |rows|
      invariant Filed(seen, hash, rows, n, model, fields, skipAbsent)
      invariant UniqueTuples(rows[..n], model, fields, skipAbsent)
    {
      var tuple := TupleValues(rows[n], model, fields, skipAbsent);
      UniqueStep(rows, n, model, fields, skipAbsent);
      if tuple.Failure? {
        return Failure(tuple.code);
      }
      if tuple.value.None? {
        FiledSkip(seen, hash, rows, n, model, fields, skipAbsent);
        continue;
      }
      var values := tuple.value.value;
      BucketDecides(seen, hash, rows, n, model, fields, skipAbsent, values);
      var bucket := if hash(values) in seen then seen[hash(values)] else [];
      if exists k | 0 <= k < |bucket| :: DatumsEq(bucket[k], values) {
        return Failure("DATASET-UNIQUE-001");
      }
      FiledPush(seen, hash, rows, n, model, fields, skipAbsent);
      seen := seen[hash(values) := bucket + [values]];
    }
    assert rows[..|rows|] == rows;
    return Success(());
  }

  lemma FiledEmpty(hash: TupleHash, rows: seq<Row>, model: ModelDef, fields: seq<string>, skipAbsent: bool)
    ensures Filed(map[], hash, rows, 0, model, fields, skipAbsent)
  {
  }

  lemma FiledSkip(seen: Buckets, hash: TupleHash, rows: seq<Row>, n: nat, model: ModelDef, fields: seq<string>,
      skipAbsent: bool)
    requires n < |rows| && Filed(seen, hash, rows, n, model, fields, skipAbsent)
               && !Participates(rows[n], model, fields, skipAbsent)
    ensures Filed(seen, hash, rows, n + 1, model, fields, skipAbsent)
  {
    hide TupleValues;
  }

  lemma FiledPush(seen: Buckets, hash: TupleHash, rows: seq<Row>, n: nat, model: ModelDef, fields: seq<string>,
      skipAbsent: bool)
    requires n < |rows| && Filed(seen, hash, rows, n, model, fields, skipAbsent)
               && Participates(rows[n], model, fields, skipAbsent)
    ensures var values := ConstraintTuple(rows[n], model, fields, skipAbsent);
            var bucket := if hash(values) in seen then seen[hash(values)] else [];
            Filed(seen[hash(values) := bucket + [values]], hash, rows, n + 1, model, fields, skipAbsent)
  {
    hide TupleValues;
  }

  /** What one more row must satisfy for the rows before it to stay unique with it. */
  lemma UniqueStep(rows: seq<Row>, n: nat, model: ModelDef, fields: seq<string>, skipAbsent: bool)
    requires n < |rows| && UniqueTuples(rows[..n], model, fields, skipAbsent)
    ensures var clash := Participates(rows[n], model, fields, skipAbsent)
                         && exists i | 0 <= i < n :: Participates(rows[i], model, fields, skipAbsent)
                              && DatumsEq(ConstraintTuple(rows[i], model, fields, skipAbsent),
                                          ConstraintTuple(rows[n], model, fields, skipAbsent));
            if TupleValues(rows[n], model, fields, skipAbsent).Success? && !clash
            then UniqueTuples(rows[..n + 1], model, fields, skipAbsent)
            else !UniqueTuples(rows, model, fields, skipAbsent)
  {
    hide TupleValues, DatumsEq;
    var before, after := rows[..n], rows[..n + 1];
    assert forall i | 0 <= i < n :: before[i] == rows[i] && after[i] == rows[i];
    assert after[n] == rows[n];
  }

  // ----- a whole data set -----

  ghost predicate UniqueConstraints(rows: seq<Row>, model: ModelDef) {
    && (model.identity.Some? ==> UniqueTuples(rows, model, model.identity.value, false))
    && forall u | 0 <= u < |model.uniques| :: UniqueTuples(rows, model, model.uniques[u], true)
  }

  predicate ValidRecords(rows: seq<Row>, model: ModelDef) {
    forall i | 0 <= i < |rows| :: rows[i].model == model && ValidRow(rows[i])
  }

  /** What a materialized data set of a model must satisfy. */
  ghost predicate ValidDataset(rows: seq<Row>, model: ModelDef) {
    ValidRecords(rows, model) && UniqueConstraints(rows, model)
  }

  method ValidateDynamicDataset(model: ModelDef, rows: seq<Row>, hash: TupleHash) returns (r: Result<()>)
    requires RespectsEquality(hash)
    ensures r.Success? <==> ValidDataset(rows, model)
    ensures r.Success? <==>
              && (forall i | 0 <= i < |rows| :: rows[i].model == model && ValidRow(rows[i]))
              && (model.identity.Some? ==> KeyUnique(rows, model, model.identity.value, false))
              && (forall u | 0 <= u < |model.uniques| :: KeyUnique(rows, model, model.uniques[u], true))
  {
    hide UniqueTuples, ValidRow, KeyUnique;
    if i :| 0 <= i < |rows| && (rows[i].model != model || !ValidRow(rows[i])) {
      return Failure("DATASET-RECORD-001");
    }
    if model.identity.Some? {
      var identity := ValidateUniqueTuple(rows, model, model.identity.value, false, hash);
      if identity.Failure? {
        return identity;
      }
    }
    for u := 0 to |model.uniques|
      invariant forall v | 0 <= v < u ::
                  UniqueTuples(rows, model, model.uniques[v], true) && KeyUnique(rows, model, model.uniques[v], true)
    {
      var unique := ValidateUniqueTuple(rows, model, model.uniques[u], true, hash);
      if unique.Failure? {
        return unique;
      }
    }
    return Success(());
  }

  // ----- validity is hereditary -----

  /** `part` is `whole` with some rows left out, order kept. */
  ghost predicate Embeds(part: seq<Row>, whole: seq<Row>, at: seq<nat>) {
    && |at| == |part|
    && (forall i | 0 <= i < |part| :: at[i] < |whole| && part[i] == whole[at[i]])
    && (forall i, j | 0 <= i < j < |part| :: at[i] < at[j])
  }

  /** Leaving rows out never breaks a data set. */
  lemma PartStaysValid(part: seq<Row>, whole: seq<Row>, model: ModelDef, at: seq<nat>)
    requires Embeds(part, whole, at) && ValidDataset(whole, model)
    ensures ValidDataset(part, model)
  {
    hide ValidRow;
    if model.identity.Some? {
      PartStaysUnique(part, whole, model, at, model.identity.value, false);
    }
    forall u | 0 <= u < |model.uniques| ensures UniqueTuples(part, model, model.uniques[u], true) {
      PartStaysUnique(part, whole, model, at, model.uniques[u], true);
    }
  }

  lemma PartStaysUnique(part: seq<Row>, whole: seq<Row>, model: ModelDef, at: seq<nat>, fields: seq<string>,
      skipAbsent: bool)
    requires Embeds(part, whole, at) && UniqueTuples(whole, model, fields, skipAbsent)
    ensures UniqueTuples(part, model, fields, skipAbsent)
  {
    hide TupleValues, DatumsEq;
  }

  /** Rows whose flag is down, in order. */
  function Retain(rows: seq<Row>, drop: seq<bool>): seq<Row>
    requires |rows| == |drop|
  {
    if rows == [] then [] else (if drop[0] then [] else [rows[0]]) + Retain(rows[1..], drop[1..])
  }

  function Shift(at: seq<nat>): (r: seq<nat>)
    ensures |r| == |at| && forall i | 0 <= i < |at| :: r[i] == at[i] + 1
  {
    seq(|at|, i requires 0 <= i < |at| => at[i] + 1)
  }

  lemma EmbedsLater(part: seq<Row>, whole: seq<Row>, at: seq<nat>)
    requires whole != [] && Embeds(part, whole[1..], at)
    ensures Embeds(part, whole, Shift(at))
    ensures Embeds([whole[0]] + part, whole, [0] + Shift(at))
  {
    assert forall i | 0 <= i < |part| :: part[i] == whole[1..][at[i]] == whole[at[i] + 1];
    var longer, places := [whole[0]] + part, [0] + Shift(at);
    assert forall i | 0 < i < |longer| :: longer[i] == part[i - 1] && places[i] == at[i - 1] + 1;
  }

  /** Exactly the rows whose flag is down are retained, in order. */
  lemma {:induction false} RetainKeeps(rows: seq<Row>, drop: seq<bool>) returns (at: seq<nat>)
    requires |rows| == |drop|
    ensures Embeds(Retain(rows, drop), rows, at)
    ensures forall k | 0 <= k < |rows| :: k in at <==> !drop[k]
    decreases |rows|
  {
    if rows == [] {
      at := [];
    } else {
      var rest := RetainKeeps(rows[1..], drop[1..]);
      EmbedsLater(Retain(rows[1..], drop[1..]), rows, rest);
      assert [] + Retain(rows[1..], drop[1..]) == Retain(rows[1..], drop[1..]);
      hide Embeds;
      at := if drop[0] then Shift(rest) else [0] + Shift(rest);
      hide Retain;
      forall k | 0 <= k < |drop| - 1 ensures k in rest <==> !drop[k + 1] {
        assert drop[1..][k] == drop[k + 1];
      }
      ShiftedPlaces(rest, drop);
    }
  }

  lemma ShiftedPlaces(rest: seq<nat>, drop: seq<bool>)
    requires drop != [] && forall k | 0 <= k < |drop| - 1 :: k in rest <==> !drop[k + 1]
    ensures forall k | 0 <= k < |drop| :: k in (if drop[0] then Shift(rest) else [0] + Shift(rest)) <==> !drop[k]
  {
    forall k: nat ensures k + 1 in Shift(rest) <==> k in rest {
      if k in rest {
        var i :| 0 <= i < |rest| && rest[i] == k;
        assert Shift(rest)[i] == k + 1;
      }
    }
    forall k | 0 < k < |drop| ensures k in Shift(rest) <==> !drop[k] {
      assert k - 1 + 1 in Shift(rest) <==> k - 1 in rest;
    }
    assert 0 !in Shift(rest);
    assert forall k :: k in [0] + Shift(rest) <==> k == 0 || k in Shift(rest);
  }

  /** Deletion keeps a valid data set valid, which is why it never validates again. */
  lemma DeletionStaysValid(rows: seq<Row>, drop: seq<bool>, model: ModelDef)
    requires |rows| == |drop| && ValidDataset(rows, model)
    ensures ValidDataset(Retain(rows, drop), model)
  {
    hide ValidDataset, Embeds;
    var at := RetainKeeps(rows, drop);
    PartStaysValid(Retain(rows, drop), rows, model, at);
  }

  /** New rows that fit a data set are themselves a valid data set. */
  lemma SuffixStaysValid(rows: seq<Row>, more: seq<Row>, model: ModelDef)
    requires ValidDataset(rows + more, model)
    ensures ValidDataset(more, model)
  {
    var at := seq(|more|, i requires 0 <= i < |more| => |rows| + i);
    assert Embeds(more, rows + more, at);
    hide ValidDataset, Embeds;
    PartStaysValid(more, rows + more, model, at);
  }

  /** Not-a-number is no duplicate of itself: two rows may share such an identity. */
  lemma NaNIdentitiesCoexist(key: string)
    ensures exists model, row ::
              && ValidDataset([row, row], model)
              && model.identity.Some? && Participates(row, model, model.identity.value, false)
  {
    var ty := TypeDef(key, Scalar(FloatRepr), false);
    var model := ModelDef(key, [FieldDef(key, ty, Required)], Some([key]), [], []);
    var row := Row(model, [Val(FloatV(NaN))]);
    assert FieldSlot(model, key) == Some(0);
    assert [key][1..] == [];
    assert TupleValues(row, model, [key], false) == Success(Some([Val(FloatV(NaN))] + []));
    var tuple := ConstraintTuple(row, model, [key], false);
    assert tuple[0] == Val(FloatV(NaN)) && !DatumEq(tuple[0], tuple[0]);
    assert UniqueTuples([row, row], model, [key], false);
    assert ValidDataset([row, row], model);
  }
}
