/// Engine state, cross-table validation and transactions over a private snapshot
/// (`engines/memory/src/{lib,store,write,transaction}.rs`).

module TableValidation {
  import opened Results
  import opened Semantics
  import opened Models
  import opened Plans
  import opened Uniqueness

  /** What the model takes as given: the host, a hash, and which definitions may stand together. */
  datatype Rules = Rules(hash: TupleHash, compatible: set<ModelDef> -> bool, size: Row -> nat)

  ghost predicate SoundRules(rules: Rules) {
    RespectsEquality(rules.hash) && rules.compatible({})
  }

  function ModelsOf(tables: Tables): set<ModelDef> {
    set key | key in tables :: tables[key].model
  }

  // ----- references -----

  /** The row has all fields of the key, and in each of them a datum equal to the value at its place. */
  predicate HasKey(row: Row, model: ModelDef, fields: seq<string>, values: seq<Datum>) {
    && |fields| == |values|
    && forall k | 0 <= k < |fields| ::
         Component(row, model, fields[k]).Some? && DatumEq(values[k], Component(row, model, fields[k]).value)
  }

  /** Row `j` has the key, and the search, which reads every row before it, gets there. */
  predicate FoundAt(rows: seq<Row>, model: ModelDef, fields: seq<string>, values: seq<Datum>, j: nat)
    requires j < |rows|
  {
    && (forall i | 0 <= i <= j :: TakesPart(rows[i], model, fields, false))
    && HasKey(rows[j], model, fields, values)
  }

  predicate Found(rows: seq<Row>, model: ModelDef, fields: seq<string>, values: seq<Datum>) {
    exists j | 0 <= j < |rows| :: FoundAt(rows, model, fields, values, j)
  }

  /** The components of a row's key, in order. */
  function KeyOf(row: Row, model: ModelDef, fields: seq<string>): (values: seq<Datum>)
    requires forall k | 0 <= k < |fields| :: Component(row, model, fields[k]).Some?
    ensures |values| == |fields|
  {
    seq(|fields|, k requires 0 <= k < |fields| => Component(row, model, fields[k]).value)
  }

  /** A row with an absent component refers to nothing; any other must find a row with its key. */
  predicate Refers(row: Row, source: ModelDef, reference: ReferenceDef, target: MemoryTable) {
    && !Unreadable(row, source, reference.sourceFields, true)
    && (TakesPart(row, source, reference.sourceFields, true) ==>
          Found(target.rows, target.model, reference.targetFields, KeyOf(row, source, reference.sourceFields)))
  }

  ghost predicate ReferenceHolds(tables: Tables, source: MemoryTable, reference: ReferenceDef) {
    && reference.targetModel in tables
    && forall j | 0 <= j < |source.rows| ::
         Refers(source.rows[j], source.model, reference, tables[reference.targetModel])
  }

  ghost predicate ReferencesHold(tables: Tables) {
    forall key | key in tables ::
      forall i | 0 <= i < |tables[key].model.references| ::
        ReferenceHolds(tables, tables[key], tables[key].model.references[i])
  }

  lemma TupleHasKey(row: Row, model: ModelDef, fields: seq<string>, values: seq<Datum>)
    requires TakesPart(row, model, fields, false)
    ensures Participates(row, model, fields, false)
    ensures DatumsEq(values, ConstraintTuple(row, model, fields, false)) <==> HasKey(row, model, fields, values)
  {
    TupleReads(row, model, fields, false);
    hide Component, TupleValues, DatumEq;
  }

  /** Searches the rows in order: it fails on a row whose key cannot be read before one that has the key. */
  method FindTargetRow(rows: seq<Row>, model: ModelDef, fields: seq<string>,
      values: seq<Datum>) returns (r: Result<bool>)
    ensures r == Success(true) <==> Found(rows, model, fields, values)
    ensures r == Success(false) ==> forall i | 0 <= i < |rows| :: TakesPart(rows[i], model, fields, false)
  {
    hide TupleValues, DatumsEq, TakesPart, HasKey;
    for j := 0 to |rows|
      invariant forall i | 0 <= i < j :: TakesPart(rows[i], model, fields, false)
      invariant forall i | 0 <= i < j :: !HasKey(rows[i], model, fields, values)
    {
      TupleReads(rows[j], model, fields, false);
      var tuple := TupleValues(rows[j], model, fields, false);
      if tuple.Failure? {
        return Failure(tuple.code);
      }
      NeverExempt(rows[j], model, fields);
      TupleHasKey(rows[j], model, fields, values);
      if tuple.value.Some? && DatumsEq(values, tuple.value.value) {
        assert FoundAt(rows, model, fields, values, j);
        return Success(true);
      }
    }
    return Success(false);
  }

  lemma {:induction false} NeverExempt(row: Row, model: ModelDef, fields: seq<string>)
    ensures TupleValues(row, model, fields, false) != Success(None)
  {
    if fields != [] {
      NeverExempt(row, model, fields[1..]);
    }
  }

  /** The tuple of a referring row is its key. */
  lemma TupleIsKey(row: Row, model: ModelDef, fields: seq<string>)
    ensures var tuple := TupleValues(row, model, fields, true);
            && (tuple.Failure? <==> Unreadable(row, model, fields, true))
            && (tuple.Success? && tuple.value.Some? <==> TakesPart(row, model, fields, true))
            && (TakesPart(row, model, fields, true) ==>
                  && (forall k | 0 <= k < |fields| :: Component(row, model, fields[k]).Some?)
                  && tuple.Success? && tuple.value == Some(KeyOf(row, model, fields)))
  {
    TupleReads(row, model, fields, true);
    hide Component, TupleValues;
    if TakesPart(row, model, fields, true) {
      assert TupleValues(row, model, fields, true).value.value == KeyOf(row, model, fields);
    }
  }

  method ValidateReference(tables: Tables, source: MemoryTable, reference: ReferenceDef) returns (r: Result<()>)
    ensures r.Success? <==> ReferenceHolds(tables, source, reference)
  {
    hide TupleValues, Unreadable, TakesPart, Found;
    if reference.targetModel !in tables {
      return Failure("MEMORY-REFERENCE-001");
    }
    var target := tables[reference.targetModel];
    for j := 0 to |source.rows|
      invariant forall k | 0 <= k < j :: Refers(source.rows[k], source.model, reference, target)
    {
      var values := TupleValues(source.rows[j], source.model, reference.sourceFields, true);
      TupleIsKey(source.rows[j], source.model, reference.sourceFields);
      if values.Failure? {
        assert !Refers(source.rows[j], source.model, reference, target);
        return Failure(values.code);
      }
      if values.value.None? {
        continue;
      }
      var found := FindTargetRow(target.rows, target.model, reference.targetFields, values.value.value);
      if found.Failure? {
        assert !Refers(source.rows[j], source.model, reference, target);
        return Failure(found.code);
      }
      if !found.value {
        assert !Refers(source.rows[j], source.model, reference, target);
        return Failure("MEMORY-REFERENCE-002");
      }
    }
    return Success(());
  }

  method ValidateReferences(tables: Tables) returns (r: Result<()>)
    ensures r.Success? <==> ReferencesHold(tables)
  {
    hide ReferenceHolds;
    var left := tables.Keys;
    while left != {}
      invariant left <= tables.Keys
      invariant forall key | key in tables && key !in left ::
                  forall i | 0 <= i < |tables[key].model.references| ::
                    ReferenceHolds(tables, tables[key], tables[key].model.references[i])
      decreases |left|
    {
      var key :| key in left;
      var source := tables[key];
      for i := 0 to |source.model.references|
        invariant forall k | 0 <= k < i :: ReferenceHolds(tables, source, source.model.references[k])
      {
        var reference := ValidateReference(tables, source, source.model.references[i]);
        if reference.Failure? {
          assert key in tables && !ReferenceHolds(tables, tables[key], tables[key].model.references[i]);
          return reference;
        }
      }
      left := left - {key};
    }
    return Success(());
  }

  // ----- all tables -----

  ghost predicate DatasetsValid(tables: Tables) {
    forall key | key in tables :: ValidDataset(tables[key].rows, tables[key].model)
  }

  /** What a consistent set of tables satisfies. */
  ghost predicate TablesValid(rules: Rules, tables: Tables) {
    rules.compatible(ModelsOf(tables)) && DatasetsValid(tables) && ReferencesHold(tables)
  }

  method ValidateTables(rules: Rules, tables: Tables) returns (r: Result<()>)
    requires SoundRules(rules)
    ensures r.Success? <==> TablesValid(rules, tables)
  {
    hide ValidDataset, ReferencesHold;
    if !rules.compatible(ModelsOf(tables)) {
      return Failure("MODELSET");
    }
    var left := tables.Keys;
    while left != {}
      invariant left <= tables.Keys
      invariant forall key | key in tables && key !in left :: ValidDataset(tables[key].rows, tables[key].model)
      decreases |left|
    {
      var key :| key in left;
      var valid := ValidateDynamicDataset(tables[key].model, tables[key].rows, rules.hash);
      if valid.Failure? {
        return valid;
      }
      left := left - {key};
    }
    r := ValidateReferences(tables);
  }

  // ----- snapshot limits -----

  datatype SnapshotLimits = SnapshotLimits(maxRows: nat, maxBytes: nat, maxWrites: nat)

  ghost function Total(weights: map<string, nat>): nat {
    if weights == map[] then 0
    else
      var key :| key in weights;
      weights[key] + Total(weights - {key})
  }

  /** The total does not depend on the order of the keys. */
  lemma {:induction false} TotalWithout(weights: map<string, nat>, key: string)
    requires key in weights
    ensures Total(weights) == weights[key] + Total(weights - {key})
    decreases |weights|
  {
    var first :| first in weights && Total(weights) == weights[first] + Total(weights - {first});
    if first != key {
      TotalWithout(weights - {first}, key);
      TotalWithout(weights - {key}, first);
      assert (weights - {first}) - {key} == (weights - {key}) - {first};
    }
  }

  function RowsSize(size: Row -> nat, rows: seq<Row>): nat {
    if rows == [] then 0 else size(rows[0]) + RowsSize(size, rows[1..])
  }

  function RowCounts(tables: Tables): map<string, nat> {
    map key | key in tables :: |tables[key].rows|
  }

  function ByteCounts(size: Row -> nat, tables: Tables): map<string, nat> {
    map key | key in tables :: RowsSize(size, tables[key].rows)
  }

  ghost predicate WithinSnapshot(tables: Tables, limits: SnapshotLimits, size: Row -> nat) {
    Total(RowCounts(tables)) <= limits.maxRows && Total(ByteCounts(size, tables)) <= limits.maxBytes
  }

  lemma CountsWithout(tables: Tables, size: Row -> nat, key: string)
    requires key in tables
    ensures Total(RowCounts(tables)) == |tables[key].rows| + Total(RowCounts(tables - {key}))
    ensures Total(ByteCounts(size, tables))
              == RowsSize(size, tables[key].rows) + Total(ByteCounts(size, tables - {key}))
  {
    TotalWithout(RowCounts(tables), key);
    TotalWithout(ByteCounts(size, tables), key);
    assert RowCounts(tables - {key}) == RowCounts(tables) - {key};
    assert ByteCounts(size, tables - {key}) == ByteCounts(size, tables) - {key};
  }

  method AddBytes(rows: seq<Row>, size: Row -> nat, start: nat, limit: nat) returns (bytes: nat, fits: bool)
    requires start <= limit
    ensures fits <==> start + RowsSize(size, rows) <= limit
    ensures fits ==> bytes == start + RowsSize(size, rows)
  {
    bytes := start;
    assert rows[0..] == rows;
    for i := 0 to |rows|
      invariant start + RowsSize(size, rows) == bytes + RowsSize(size, rows[i..])
      invariant bytes <= limit
    {
      assert rows[i..][1..] == rows[i + 1..];
      bytes := bytes + size(rows[i]);
      if bytes > limit {
        return bytes, false;
      }
    }
    return bytes, true;
  }

  /** Sums rows and bytes table by table and stops at the first excess. */
  method ValidateSnapshotLimits(tables: Tables, limits: SnapshotLimits, size: Row -> nat) returns (r: Result<()>)
    ensures r.Success? <==> WithinSnapshot(tables, limits, size)
  {
    hide Total, RowsSize;
    var left := tables;
    var rows: nat, bytes: nat := 0, 0;
    while left != map[]
      invariant Total(RowCounts(tables)) == rows + Total(RowCounts(left))
      invariant Total(ByteCounts(size, tables)) == bytes + Total(ByteCounts(size, left))
      invariant rows <= limits.maxRows && bytes <= limits.maxBytes
      decreases |left.Keys|
    {
      var key :| key in left;
      CountsWithout(left, size, key);
      rows := rows + |left[key].rows|;
      if rows > limits.maxRows {
        return Failure("MEMORY-TX-003");
      }
      var fits;
      bytes, fits := AddBytes(left[key].rows, size, bytes, limits.maxBytes);
      if !fits {
        return Failure("MEMORY-TX-004");
      }
      assert (left - {key}).Keys == left.Keys - {key};
      left := left - {key};
    }
    EmptyTotal(size);
    return Success(());
  }

  lemma EmptyTotal(size: Row -> nat)
    ensures Total(RowCounts(map[])) == 0 && Total(ByteCounts(size, map[])) == 0
  {
    assert RowCounts(map[]) == map[] && ByteCounts(size, map[]) == map[];
  }
}

module MemoryStore {
  import opened Results
  import opened Semantics
  import opened Models
  import opened Plans
  import opened Uniqueness
  import opened RowWrites
  import opened Writes
  import opened TableValidation

  /** The check an atomic write runs over all tables before it is kept. */
  datatype Check = EveryTable | Snapshot(limits: SnapshotLimits)

  ghost predicate Passes(check: Check, rules: Rules, tables: Tables) {
    match check
    case EveryTable => TablesValid(rules, tables)
    case Snapshot(limits) => WithinSnapshot(tables, limits, rules.size)
  }

  /** The tables after a write, or a failure, which changes nothing. */
  ghost function WriteOutcome(ev: Evaluator, rules: Rules, check: Check, tables: Tables,
      write: LogicalWrite): Result<(Tables, nat)>
    requires UsableWrite(write)
  {
    var (rows, affected) :- TableOutcome(ev, tables, write);
    var after := tables[write.model.key := MemoryTable(write.model, rows)];
    if Passes(check, rules, after) then Success((after, affected)) else Failure("VALIDATION")
  }

  /** Writes in place and puts the written table back on any failure: all tables are then as before. */
  method ApplyAtomicWrite(store: Store, ev: Evaluator, rules: Rules, check: Check,
      write: LogicalWrite) returns (r: Result<nat>)
    requires SoundRules(rules) && UsableWrite(write)
    modifies store
    ensures var outcome := WriteOutcome(ev, rules, check, old(store.tables), write);
            if outcome.Success? then r == Success(outcome.value.1) && store.tables == outcome.value.0
            else r.Failure? && store.tables == old(store.tables)
  {
    hide TableOutcome, TablesValid, WithinSnapshot;
    var key := write.model.key;
    var previous := if key in store.tables then Some(store.tables[key]) else None;
    r := store.ApplyWrite(ev, write, rules.hash);
    RestoreUndoes(old(store.tables), store.tables, key);
    if r.Failure? {
      store.RestoreTable(key, previous);
      return;
    }
    var valid;
    match check {
      case EveryTable =>
        valid := ValidateTables(rules, store.tables);
      case Snapshot(limits) =>
        valid := ValidateSnapshotLimits(store.tables, limits, rules.size);
    }
    if valid.Failure? {
      store.RestoreTable(key, previous);
      return Failure(valid.code);
    }
  }

  /** A kept write leaves every table a valid data set of its model. */
  lemma WritesKeepDatasets(ev: Evaluator, rules: Rules, check: Check, tables: Tables, write: LogicalWrite)
    requires UsableWrite(write) && DatasetsValid(tables)
    requires WriteOutcome(ev, rules, check, tables, write).Success?
    ensures DatasetsValid(WriteOutcome(ev, rules, check, tables, write).value.0)
  {
    hide ValidDataset, Passes, Updated, Marked;
    var after := WriteOutcome(ev, rules, check, tables, write).value.0;
    assert ValidDataset(after[write.model.key].rows, write.model);
  }

  datatype WriteRequest = WriteRequest(ev: Evaluator, write: LogicalWrite, maxConcurrency: nat)

  class MemoryEngine {
    const rules: Rules
    const store: Store
    var validated: bool

    ghost predicate Valid()
      reads this, store
    {
      SoundRules(rules) && (validated ==> TablesValid(rules, store.tables))
    }

    constructor (rules: Rules)
      requires SoundRules(rules)
      ensures Valid() && fresh(store) && this.rules == rules && store.tables == map[] && validated
    {
      this.rules := rules;
      store := new Store();
      validated := true;
      new;
      assert ModelsOf(map[]) == {};
    }

    method Clear()
      requires Valid()
      modifies this`validated, store
      ensures Valid() && store.tables == map[] && validated
    {
      store.tables := map[];
      validated := true;
      assert ModelsOf(map[]) == {};
    }

    method Register(model: ModelDef) returns (r: Result<()>)
      requires Valid()
      modifies this`validated, store
      ensures Valid()
      ensures r.Success? <==>
                model.key in old(store.tables) ==> old(store.tables)[model.key].model == model
      ensures r.Success? ==>
                store.tables
                == old(store.tables)[model.key := MemoryTable(model, RowsBefore(old(store.tables), model.key))]
      ensures var registered := RegisterDefinition(old(store.tables), model);
              if registered.Success? then r.Success? && store.tables == registered.value && !validated
              else r.Failure? && store.tables == old(store.tables) && validated == old(validated)
    {
      var registered := RegisterDefinition(store.tables, model);
      if registered.Failure? {
        return Failure(registered.code);
      }
      store.tables := registered.value;
      validated := false;
      return Success(());
    }

    /** Loads a model once, with rows that are a valid data set of it. */
    method LoadDynamic(model: ModelDef, rows: seq<Row>) returns (r: Result<()>)
      requires Valid()
      modifies this`validated, store
      ensures Valid()
      ensures if ValidDataset(rows, model) && model.key !in old(store.tables)
              then r.Success? && store.tables == old(store.tables)[model.key := MemoryTable(model, rows)] && !validated
              else r.Failure? && store.tables == old(store.tables) && validated == old(validated)
    {
      hide ValidDataset, TablesValid;
      var valid := ValidateDynamicDataset(model, rows, rules.hash);
      if valid.Failure? {
        return valid;
      }
      if model.key in store.tables {
        return Failure("MEMORY-STORE-001");
      }
      store.tables := store.tables[model.key := MemoryTable(model, rows)];
      validated := false;
      return Success(());
    }

    /** The flag saves the work, and never changes the answer. */
    method Validate() returns (r: Result<()>)
      requires Valid()
      modifies this`validated
      ensures Valid()
      ensures r.Success? <==> TablesValid(rules, store.tables)
      ensures r.Success? ==> validated
      ensures r.Failure? ==> validated == old(validated)
    {
      hide TablesValid;
      if validated {
        return Success(());
      }
      r := ValidateTables(rules, store.tables);
      if r.Success? {
        validated := true;
      }
    }

    /** A write is kept only from valid tables to valid tables; otherwise no table changes. */
    method ExecuteWrite(request: WriteRequest) returns (r: Result<nat>)
      requires Valid() && UsableWrite(request.write)
      modifies this`validated, store
      ensures Valid()
      ensures var outcome := WriteOutcome(request.ev, rules, EveryTable, old(store.tables), request.write);
              if request.maxConcurrency != 0 && TablesValid(rules, old(store.tables)) && outcome.Success?
              then r == Success(outcome.value.1) && store.tables == outcome.value.0 && TablesValid(rules, store.tables)
                && validated
              else r.Failure? && store.tables == old(store.tables)
    {
      hide TablesValid, TableOutcome;
      if request.maxConcurrency == 0 {
        return Failure("ENGINE-LIMIT");
      }
      var valid := Validate();
      if valid.Failure? {
        return Failure(valid.code);
      }
      r := ApplyAtomicWrite(store, request.ev, rules, EveryTable, request.write);
      if r.Success? {
        validated := true;
      }
    }

    /** A transaction starts from validated tables that fit its limits, and works on a copy. */
    method BeginTransaction(serializable: bool, limits: SnapshotLimits) returns (r: Result<MemoryTransaction>)
      requires Valid()
      modifies this`validated
      ensures Valid()
      ensures r.Success? <==>
                serializable && TablesValid(rules, store.tables) && WithinSnapshot(store.tables, limits, rules.size)
                              && limits.maxRows > 0 && limits.maxBytes > 0 && limits.maxWrites > 0
      ensures r.Success? ==>
                var tx := r.value;
                && fresh(tx) && fresh(tx.working) && tx.engine == this && tx.limits == limits
                && tx.Valid() && tx.working.tables == store.tables && tx.applied == []
    {
      hide TablesValid, WithinSnapshot;
      if !serializable {
        return Failure("MEMORY-TX-001");
      }
      var valid := Validate();
      if valid.Failure? {
        return Failure(valid.code);
      }
      if limits.maxRows == 0 || limits.maxBytes == 0 || limits.maxWrites == 0 {
        return Failure("MEMORY-TX-002");
      }
      var fits := ValidateSnapshotLimits(store.tables, limits, rules.size);
      if fits.Failure? {
        return Failure(fits.code);
      }
      var tx := new MemoryTransaction(this, limits);
      return Success(tx);
    }
  }

  /** The tables after a run of writes, each of which succeeded under the snapshot limits. */
  ghost function Replay(rules: Rules, limits: SnapshotLimits, tables: Tables, writes: seq<WriteRequest>): Result<Tables>
    requires forall i | 0 <= i < |writes| :: UsableWrite(writes[i].write)
  {
    if writes == [] then Success(tables)
    else
      var last := |writes| - 1;
      var before :- Replay(rules, limits, tables, writes[..last]);
      var (after, _) :- WriteOutcome(writes[last].ev, rules, Snapshot(limits), before, writes[last].write);
      Success(after)
  }

  /** Whatever a transaction did, its candidate tables are valid data sets within its limits. */
  lemma {:induction false} ReplayKeeps(rules: Rules, limits: SnapshotLimits, tables: Tables, writes: seq<WriteRequest>)
    requires forall i | 0 <= i < |writes| :: UsableWrite(writes[i].write)
    requires DatasetsValid(tables) && WithinSnapshot(tables, limits, rules.size)
    requires Replay(rules, limits, tables, writes).Success?
    ensures DatasetsValid(Replay(rules, limits, tables, writes).value)
    ensures WithinSnapshot(Replay(rules, limits, tables, writes).value, limits, rules.size)
    decreases |writes|
  {
    hide DatasetsValid, WithinSnapshot, TableOutcome;
    if writes != [] {
      var last := |writes| - 1;
      ReplayKeeps(rules, limits, tables, writes[..last]);
      var before := Replay(rules, limits, tables, writes[..last]).value;
      WritesKeepDatasets(writes[last].ev, rules, Snapshot(limits), before, writes[last].write);
    }
  }

  /** Works on a private copy; `applied` records the writes that succeeded so far. */
  class MemoryTransaction {
    const engine: MemoryEngine
    const working: Store
    const limits: SnapshotLimits
    var writes: nat
    ghost const snapshot: Tables
    ghost var applied: seq<WriteRequest>

    ghost predicate Valid()
      reads this, working, engine, engine.store
    {
      && working != engine.store
      && engine.Valid() && engine.validated && engine.store.tables == snapshot
      && writes == |applied| <= limits.maxWrites
      && (forall i | 0 <= i < |applied| :: UsableWrite(applied[i].write))
      && Replay(engine.rules, limits, snapshot, applied) == Success(working.tables)
      && WithinSnapshot(working.tables, limits, engine.rules.size)
    }

    constructor (engine: MemoryEngine, limits: SnapshotLimits)
      requires engine.Valid() && engine.validated && WithinSnapshot(engine.store.tables, limits, engine.rules.size)
      ensures Valid() && fresh(working) && this.engine == engine && this.limits == limits
      ensures applied == [] && working.tables == engine.store.tables
    {
      this.engine := engine;
      this.limits := limits;
      working := new Store();
      writes := 0;
      snapshot := engine.store.tables;
      applied := [];
      new;
      working.tables := engine.store.tables;
    }

    /** A successful write is counted and changes the copy; anything else changes nothing. The engine is not touched. */
    method ExecuteWrite(request: WriteRequest) returns (r: Result<nat>)
      requires Valid() && UsableWrite(request.write)
      modifies this`writes, this`applied, working
      ensures Valid()
      ensures var outcome := WriteOutcome(request.ev, engine.rules, Snapshot(limits), old(working.tables),
                                          request.write);
              if old(writes) < limits.maxWrites && request.maxConcurrency != 0 && outcome.Success?
              then r == Success(outcome.value.1) && working.tables == outcome.value.0
                && applied == old(applied) + [request]
              else r.Failure? && working.tables == old(working.tables) && applied == old(applied)
    {
      hide TablesValid, TableOutcome, WithinSnapshot;
      if writes >= limits.maxWrites {
        return Failure("MEMORY-TX-002");
      }
      if request.maxConcurrency == 0 {
        return Failure("ENGINE-LIMIT");
      }
      r := ApplyAtomicWrite(working, request.ev, engine.rules, Snapshot(limits), request.write);
      if r.Success? {
        writes := writes + 1;
        ghost var longer := applied + [request];
        assert longer[..|longer| - 1] == applied;
        applied := longer;
      }
    }

    /** The engine takes the replay of the successful writes if it is valid, and otherwise stays as it was. */
    method Commit() returns (r: Result<()>)
      requires Valid()
      modifies engine`validated, engine.store
      ensures engine.Valid()
      ensures r.Success? <==> TablesValid(engine.rules, working.tables)
      ensures r.Success? ==>
                Replay(engine.rules, limits, snapshot, applied) == Success(engine.store.tables) && engine.validated
      ensures r.Failure? ==> engine.store.tables == snapshot && engine.validated
    {
      hide TablesValid, WithinSnapshot, Replay;
      var fits := ValidateSnapshotLimits(working.tables, limits, engine.rules.size);
      if fits.Failure? {
        return fits;
      }
      var valid := ValidateTables(engine.rules, working.tables);
      if valid.Failure? {
        return valid;
      }
      engine.store.tables := working.tables;
      engine.validated := true;
      return Success(());
    }

    method Rollback() returns (r: Result<()>)
      requires Valid()
      ensures r.Success? && engine.store.tables == snapshot && engine.Valid()
    {
      return Success(());
    }
  }
}
