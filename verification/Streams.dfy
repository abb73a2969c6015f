/// What every pull stream shares: materialization limits, and what is still to come
/// (`crates/dol-engine/src/stream/mod.rs`).

module Streams {
  import opened Results
  import opened Plans

  /** Materialization limits; `size` is the approximate byte count of a row. */
  datatype Limits = Limits(maxRows: Option<nat>, maxBytes: Option<nat>, size: ExecutionRow -> nat)

  function TotalSize(size: ExecutionRow -> nat, rows: seq<ExecutionRow>): nat {
    if rows == [] then 0 else size(rows[0]) + TotalSize(size, rows[1..])
  }

  predicate Within(limits: Limits, rows: seq<ExecutionRow>) {
    && (limits.maxRows.Some? ==> |rows| <= limits.maxRows.value)
    && (limits.maxBytes.Some? ==> TotalSize(limits.size, rows) <= limits.maxBytes.value)
  }

  lemma {:induction false} TotalSizeAppend(size: ExecutionRow -> nat, xs: seq<ExecutionRow>, ys: seq<ExecutionRow>)
    ensures TotalSize(size, xs + ys) == TotalSize(size, xs) + TotalSize(size, ys)
  {
    if xs == [] {
      assert xs + ys == ys;
    } else {
      assert (xs + ys)[1..] == xs[1..] + ys;
      TotalSizeAppend(size, xs[1..], ys);
    }
  }

  lemma EmptySize(size: ExecutionRow -> nat)
    ensures TotalSize(size, []) == 0
  {
  }

  lemma OneMoreSize(size: ExecutionRow -> nat, rows: seq<ExecutionRow>, row: ExecutionRow)
    ensures TotalSize(size, rows + [row]) == TotalSize(size, rows) + size(row)
  {
    TotalSizeAppend(size, rows, [row]);
    assert [row][1..] == [];
  }

  lemma WithinPrefix(limits: Limits, xs: seq<ExecutionRow>, ys: seq<ExecutionRow>)
    requires Within(limits, xs + ys)
    ensures Within(limits, xs)
  {
    TotalSizeAppend(limits.size, xs, ys);
  }

  predicate TooLarge(limits: Limits, row: ExecutionRow) {
    limits.maxBytes.Some? && limits.size(row) > limits.maxBytes.value
  }

  /** Non-empty, within the row target and the byte limit. */
  predicate GoodBatch(limits: Limits, target: nat, batch: seq<ExecutionRow>) {
    && 0 < |batch| <= target
    && (limits.maxBytes.Some? ==> TotalSize(limits.size, batch) <= limits.maxBytes.value)
  }

  /** A batch stops short only where nothing follows, or where the row that follows would exceed the byte limit. */
  predicate FullBatch(limits: Limits, target: nat, batch: seq<ExecutionRow>, next: seq<ExecutionRow>) {
    || |batch| == target
    || next == []
    || (limits.maxBytes.Some? && TotalSize(limits.size, batch) + limits.size(next[0]) > limits.maxBytes.value)
  }

  /** Rows already received, then a future. */
  function After(rows: seq<ExecutionRow>, future: Result<seq<ExecutionRow>>): Result<seq<ExecutionRow>> {
    var rest :- future;
    Success(rows + rest)
  }

  /** Of everything that was to come, `rows` have been received and `now` is still to come. */
  ghost predicate Received(rows: seq<ExecutionRow>, now: Result<seq<ExecutionRow>>, all: Result<seq<ExecutionRow>>) {
    SameOutcome(After(rows, now), all)
  }

  lemma ReceivedNothing(all: Result<seq<ExecutionRow>>)
    ensures Received([], all, all)
  {
    if all.Success? { assert [] + all.value == all.value; }
  }

  lemma ReceivedMore(rows: seq<ExecutionRow>, more: seq<ExecutionRow>, now: Result<seq<ExecutionRow>>,
                     before: Result<seq<ExecutionRow>>, all: Result<seq<ExecutionRow>>)
    requires Received(rows, before, all) && Received(more, now, before)
    ensures Received(rows + more, now, all)
  {
    if now.Success? {
      assert rows + (more + now.value) == (rows + more) + now.value;
    }
  }

  /** Rows already received that are too many, or too large, are so in all. */
  lemma ReceivedExceeds(size: ExecutionRow -> nat, rows: seq<ExecutionRow>, now: Result<seq<ExecutionRow>>,
      all: Result<seq<ExecutionRow>>)
    requires Received(rows, now, all) && all.Success?
    ensures |rows| <= |all.value| && TotalSize(size, rows) <= TotalSize(size, all.value)
  {
    TotalSizeAppend(size, rows, now.value);
  }

  lemma ReceivedSame(rows: seq<ExecutionRow>, now: Result<seq<ExecutionRow>>, before: Result<seq<ExecutionRow>>,
      all: Result<seq<ExecutionRow>>)
    requires Received(rows, before, all) && SameOutcome(now, before)
    ensures Received(rows, now, all)
  {
  }

  /** The next pending row is received next, and is one of those that were to come. */
  lemma ReceivedPending(rows: seq<ExecutionRow>, pending: seq<ExecutionRow>, upcoming: Result<seq<ExecutionRow>>,
      all: Result<seq<ExecutionRow>>)
    requires pending != [] && Received(rows, After(pending, upcoming), all)
    ensures Received(rows + [pending[0]], After(pending[1..], upcoming), all)
    ensures all.Success? ==> pending[0] in all.value
  {
    if upcoming.Success? {
      assert pending + upcoming.value == [pending[0]] + (pending[1..] + upcoming.value);
      assert all.value[|rows|] == pending[0];
    }
    assert Received([pending[0]], After(pending[1..], upcoming), After(pending, upcoming));
    ReceivedMore(rows, [pending[0]], After(pending[1..], upcoming), After(pending, upcoming), all);
  }

  lemma ReceivedAll(rows: seq<ExecutionRow>, all: Result<seq<ExecutionRow>>)
    requires Received(rows, Success([]), all)
    ensures all == Success(rows)
  {
    assert rows + [] == rows;
  }

  /** What is still to come is part of everything that was to come. */
  lemma StillToCome(rows: seq<ExecutionRow>, now: Result<seq<ExecutionRow>>, all: Result<seq<ExecutionRow>>)
    requires Received(rows, now, all)
    ensures now.Failure? ==> all.Failure?
    ensures now.Success? && all.Success? ==> forall row | row in now.value :: row in all.value
  {
  }

  lemma FailsWith(rows: seq<ExecutionRow>, now: Result<seq<ExecutionRow>>, all: Result<seq<ExecutionRow>>)
    requires Received(rows, now, all) && now.Failure?
    ensures all.Failure?
  {
  }


  lemma NoPending(upcoming: Result<seq<ExecutionRow>>)
    ensures upcoming.Success? ==> [] + upcoming.value == upcoming.value
  {
  }

  datatype CollectLimits = CollectLimits(maxRows: nat, maxBytes: nat)
}
