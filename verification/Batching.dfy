/// Batching over a pulled source: the MongoDB cursor with one row held back, the PostgreSQL
/// portal with a page buffer, and the memory engine's queue (`engines/mongodb/src/runtime.rs`,
/// `engines/postgres/src/runtime.rs`, `engines/memory/src/executor.rs`).

module Batching {
  import opened Results
  import opened Plans
  import opened Streams

  datatype Options = Options(batchRows: nat, limits: Limits)

  /** The smaller of the batch size and the materialized-row limit. */
  function RowTarget(options: Options): (n: nat)
    ensures n == options.batchRows || options.limits.maxRows == Some(n)
    ensures n <= options.batchRows && (options.limits.maxRows.Some? ==> n <= options.limits.maxRows.value)
  {
    if options.limits.maxRows.Some? && options.limits.maxRows.value < options.batchRows
    then options.limits.maxRows.value else options.batchRows
  }

  /** The rows of undecoded source items, or the first failure among them. */
  function Decoded<Raw>(decode: Raw -> Result<ExecutionRow>, items: seq<Raw>): Result<seq<ExecutionRow>> {
    if items == [] then Success([])
    else
      var first :- decode(items[0]);
      var rest :- Decoded(decode, items[1..]);
      Success([first] + rest)
  }

  function Held(row: Option<ExecutionRow>): seq<ExecutionRow> {
    if row.Some? then [row.value] else []
  }

  /** The next item either fails everything, or is one of the rows to come and can be taken or held back. */
  lemma DecodedStep<Raw>(decode: Raw -> Result<ExecutionRow>, items: seq<Raw>, rows: seq<ExecutionRow>,
      all: Result<seq<ExecutionRow>>)
    requires items != [] && Received(rows, Decoded(decode, items), all)
    ensures decode(items[0]).Failure? ==> all.Failure?
    ensures decode(items[0]).Success? ==>
              var row, rest := decode(items[0]).value, Decoded(decode, items[1..]);
              && Received(rows + [row], rest, all)
              && Received(rows, After([row], rest), all)
              && (all.Success? ==> row in all.value)
  {
    if decode(items[0]).Success? {
      var row, rest := decode(items[0]).value, Decoded(decode, items[1..]);
      assert Decoded(decode, items).Success? ==> Decoded(decode, items).value == [row] + rest.value;
      ReceivedMore(rows, [row], rest, Decoded(decode, items), all);
      if all.Success? { assert all.value[|rows|] == row; }
    }
  }

  lemma DecodedEnd<Raw>(decode: Raw -> Result<ExecutionRow>, rows: seq<ExecutionRow>, all: Result<seq<ExecutionRow>>)
    requires Received(rows, Decoded(decode, []), all)
    ensures all == Success(rows)
  {
    assert rows + [] == rows;
  }

  lemma HeldBack(row: Option<ExecutionRow>, upcoming: Result<seq<ExecutionRow>>, all: Result<seq<ExecutionRow>>)
    requires all == After(Held(row), upcoming)
    ensures Received(Held(row), upcoming, all)
    ensures row.Some? && all.Success? ==> row.value in all.value
  {
    if row.Some? && all.Success? { assert all.value[0] == row.value; }
  }

  lemma NothingHeld(rows: seq<ExecutionRow>, upcoming: Result<seq<ExecutionRow>>, all: Result<seq<ExecutionRow>>)
    requires Received(rows, upcoming, all)
    ensures Received(rows, After([], upcoming), all)
  {
    if upcoming.Success? { assert [] + upcoming.value == upcoming.value; }
  }

  // ----- MongoDB -----

  class MongodbStream<Raw(!new)> {
    const decode: Raw -> Result<ExecutionRow>
    const options: Options
    var cursor: Option<seq<Raw>> // what the cursor still holds; dropped at its end
    var pending: Option<ExecutionRow>
    var cancelled: bool

    ghost predicate Valid()
      reads this
    {
      && (cancelled ==> pending.None? && cursor.None?)
      && (pending.Some? ==> !TooLarge(options.limits, pending.value))
    }

    function Left(): seq<Raw>
      reads this
    {
      if cursor.Some? then cursor.value else []
    }

    ghost function Future(): Result<seq<ExecutionRow>>
      reads this
    {
      After(Held(pending), Decoded(decode, Left()))
    }

    constructor (decode: Raw -> Result<ExecutionRow>, options: Options, items: seq<Raw>)
      ensures Valid() && this.decode == decode && this.options == options
      ensures SameOutcome(Future(), Decoded(decode, items))
    {
      this.decode := decode;
      this.options := options;
      cursor := Some(items);
      pending := None;
      cancelled := false;
      new;
      NoPending(Decoded(decode, items));
    }

    /**
     * The next rows in order, as many as the row target and the byte limit allow; nothing is dropped. It
     * fails only when the target is zero, an item fails, or a row alone exceeds the byte limit.
     */
    method NextBatch() returns (r: Result<Option<seq<ExecutionRow>>>)
      requires Valid()
      modifies this
      ensures Valid() && cancelled == old(cancelled)
      ensures RowTarget(options) == 0 && !cancelled ==> r.Failure?
      ensures r.Failure? ==> RowTarget(options) == 0 || old(Future()).Failure?
                             || exists row :: row in old(Future()).value && TooLarge(options.limits, row)
      ensures r == Success(None) ==> old(Future()) == Success([]) && Future() == Success([])
      ensures r.Success? && r.value.Some? ==>
                && GoodBatch(options.limits, RowTarget(options), r.value.value)
                && FullBatch(options.limits, RowTarget(options), r.value.value, Held(pending))
                && (|r.value.value| < RowTarget(options) && pending.None? ==> Left() == [])
                && Received(r.value.value, Future(), old(Future()))
                && |Left()| + |Held(pending)| < |old(Left())| + |old(Held(pending))|
    {
      hide Received, TotalSize, Decoded, After;
      if cancelled {
        DoneFuture(decode);
        return Success(None);
      }
      var target := RowTarget(options);
      if target == 0 {
        return Failure("MONGODB-LIMIT-001");
      }
      var limits := options.limits;
      ghost var future := Future();
      HeldBack(pending, Decoded(decode, Left()), future);
      var rows := Held(pending);
      EmptySize(limits.size);
      OneSize(limits.size, rows);
      var bytes := if pending.Some? then limits.size(pending.value) else 0;
      pending := None;
      while |rows| < target
        invariant Valid() && !cancelled && pending.None?
        invariant |rows| <= target && bytes == TotalSize(limits.size, rows)
        invariant limits.maxBytes.Some? ==> bytes <= limits.maxBytes.value
        invariant Received(rows, Decoded(decode, Left()), future)
        invariant |Left()| + |rows| == |old(Left())| + |old(Held(pending))|
        decreases |Left()|, cursor.Some?
      {
        if cursor.None? {
          break;
        }
        if cursor.value == [] {
          cursor := None;
          break;
        }
        var row := decode(cursor.value[0]);
        DecodedStep(decode, cursor.value, rows, future);
        cursor := Some(cursor.value[1..]);
        if row.Failure? {
          return Failure(row.code);
        }
        var rowBytes := limits.size(row.value);
        if limits.maxBytes.Some? {
          if rowBytes > limits.maxBytes.value {
            assert TooLarge(limits, row.value);
            return Failure("MONGODB-LIMIT-002");
          }
          if rows != [] && bytes + rowBytes > limits.maxBytes.value {
            pending := Some(row.value);
            return Success(Some(rows));
          }
        }
        OneMoreSize(limits.size, rows, row.value);
        bytes := bytes + rowBytes;
        rows := rows + [row.value];
      }
      NothingHeld(rows, Decoded(decode, Left()), future);
      if rows == [] {
        DecodedEnd(decode, rows, future);
        DoneFuture(decode);
        return Success(None);
      }
      return Success(Some(rows));
    }

    method Cancel()
      modifies this
      ensures Valid() && Future() == Success([])
    {
      cancelled := true;
      pending := None;
      cursor := None;
      DoneFuture(decode);
    }
  }

  lemma DoneFuture<Raw>(decode: Raw -> Result<ExecutionRow>)
    ensures After(Held(None), Decoded(decode, [])) == Success([])
  {
    assert Decoded(decode, []) == Success([]);
    NoPending(Decoded(decode, []));
  }

  lemma OneSize(size: ExecutionRow -> nat, rows: seq<ExecutionRow>)
    ensures |rows| == 1 ==> TotalSize(size, rows) == size(rows[0])
  {
    if |rows| == 1 {
      OneMoreSize(size, [], rows[0]);
      assert [] + [rows[0]] == rows;
    }
  }

  // ----- PostgreSQL -----

  const MAX_PORTAL_FETCH_ROWS: nat := 1024

  /** A page is one row when bytes are bounded, because the driver materializes it before it is measured. */
  function PortalFetchRows(rows: nat, byteBounded: bool): (n: nat)
    ensures 1 <= n <= MAX_PORTAL_FETCH_ROWS
    ensures n <= rows || n == 1
    ensures byteBounded ==> n == 1
    ensures !byteBounded && 0 < rows ==> n == rows || (rows > MAX_PORTAL_FETCH_ROWS && n == MAX_PORTAL_FETCH_ROWS)
  {
    if byteBounded || rows == 0 then 1 else if rows > MAX_PORTAL_FETCH_ROWS then MAX_PORTAL_FETCH_ROWS else rows
  }

  /** The pull state of a worker together with its portal. Between pulls the page buffer is empty. */
  class PullState<Raw(!new)> {
    const decode: Raw -> Result<ExecutionRow>
    const options: Options
    var portal: seq<Raw> // rows the portal has not handed out
    var bufferedRows: seq<Raw>
    var pending: Option<ExecutionRow>

    ghost predicate Valid()
      reads this
    {
      && bufferedRows == []
      && (pending.Some? ==> !TooLarge(options.limits, pending.value) && options.limits.maxBytes.Some?)
    }

    ghost function Future(): Result<seq<ExecutionRow>>
      reads this
    {
      After(Held(pending), Decoded(decode, bufferedRows + portal))
    }

    constructor (decode: Raw -> Result<ExecutionRow>, options: Options, items: seq<Raw>)
      ensures Valid() && this.decode == decode && this.options == options
      ensures SameOutcome(Future(), Decoded(decode, items))
    {
      this.decode := decode;
      this.options := options;
      portal := items;
      bufferedRows := [];
      pending := None;
      new;
      assert bufferedRows + portal == items;
      NoPending(Decoded(decode, items));
    }

    /** Up to `count` further rows: none exactly at the end. */
    method QueryPortal(count: nat) returns (page: seq<Raw>)
      requires count > 0
      modifies this`portal
      ensures page + portal == old(portal) && |page| <= count
      ensures page == [] <==> old(portal) == []
    {
      var n := if count < |portal| then count else |portal|;
      page := portal[..n];
      portal := portal[n..];
    }

    /** With a zero row limit nothing may be materialized: an empty result is the only success. */
    method ProveEmptyOrReject() returns (r: Result<Option<seq<ExecutionRow>>>)
      requires Valid()
      modifies this
      ensures r.Success? <==> old(pending).None? && old(portal) == []
      ensures r.Success? ==> r.value.None? && Valid() && Future() == Success([])
    {
      if pending.Some? {
        return Failure("POSTGRES-LIMIT-001");
      }
      var page := QueryPortal(1);
      if page == [] {
        DoneFuture(decode);
        return Success(None);
      }
      var row := decode(page[0]);
      return Failure(if row.Failure? then row.code else "POSTGRES-LIMIT-001");
    }

    /** A buffered row, or the first of the next page. */
    method NextItem(remaining: nat) returns (item: Option<Raw>)
      requires remaining > 0 && |bufferedRows| <= remaining
      requires options.limits.maxBytes.Some? ==> bufferedRows == []
      modifies this`portal, this`bufferedRows
      ensures item.None? ==> old(bufferedRows + portal) == [] && bufferedRows + portal == []
      ensures item.Some? ==> old(bufferedRows + portal) == [item.value] + (bufferedRows + portal)
      ensures |bufferedRows| < remaining && (options.limits.maxBytes.Some? ==> bufferedRows == [])
    {
      if bufferedRows == [] {
        var page := QueryPortal(PortalFetchRows(remaining, options.limits.maxBytes.Some?));
        assert old(bufferedRows + portal) == page + portal;
        if page == [] {
          return None;
        }
        bufferedRows := page;
      }
      item := Some(bufferedRows[0]);
      bufferedRows := bufferedRows[1..];
    }

    /** As for MongoDB, across the held row and the page buffer; a zero target only proves emptiness. */
    method PullBatch() returns (r: Result<Option<seq<ExecutionRow>>>)
      requires Valid()
      modifies this
      ensures r.Failure? ==> old(Future()).Failure? || RowTarget(options) == 0
                             || exists row :: row in old(Future()).value && TooLarge(options.limits, row)
      ensures r.Failure? && RowTarget(options) == 0 ==> old(Future()) != Success([])
      ensures r.Success? ==> Valid()
      ensures r == Success(None) ==> old(Future()) == Success([]) && Future() == Success([])
      ensures r.Success? && r.value.Some? ==>
                && GoodBatch(options.limits, RowTarget(options), r.value.value)
                && FullBatch(options.limits, RowTarget(options), r.value.value, Held(pending))
                && (|r.value.value| < RowTarget(options) && pending.None? ==> portal == [])
                && Received(r.value.value, Future(), old(Future()))
                && |portal| + |Held(pending)| < |old(portal)| + |old(Held(pending))|
    {
      hide Received, TotalSize, Decoded, After;
      var target := RowTarget(options);
      ghost var future := Future();
      HeldBack(pending, Decoded(decode, bufferedRows + portal), future);
      if target == 0 {
        SomethingLeft(decode, pending, bufferedRows + portal);
        r := ProveEmptyOrReject();
        return;
      }
      var limits := options.limits;
      var rows := Held(pending);
      EmptySize(limits.size);
      OneSize(limits.size, rows);
      var bytes := if pending.Some? then limits.size(pending.value) else 0;
      pending := None;
      while |rows| < target
        invariant pending.None?
        invariant |rows| + |bufferedRows| <= target && bytes == TotalSize(limits.size, rows)
        invariant limits.maxBytes.Some? ==> bytes <= limits.maxBytes.value && bufferedRows == []
        invariant Received(rows, Decoded(decode, bufferedRows + portal), future)
        invariant |bufferedRows + portal| + |rows| == |old(portal)| + |old(Held(pending))|
        decreases target - |rows|
      {
        ghost var items := bufferedRows + portal;
        var item := NextItem(target - |rows|);
        if item.None? {
          break;
        }
        DecodedStep(decode, items, rows, future);
        assert items[1..] == bufferedRows + portal;
        var row := decode(item.value);
        if row.Failure? {
          return Failure(row.code);
        }
        var rowBytes := limits.size(row.value);
        if limits.maxBytes.Some? {
          if rowBytes > limits.maxBytes.value {
            assert TooLarge(limits, row.value);
            return Failure("POSTGRES-LIMIT-002");
          }
          if rows != [] && bytes + rowBytes > limits.maxBytes.value {
            pending := Some(row.value);
            return Success(Some(rows));
          }
        }
        OneMoreSize(limits.size, rows, row.value);
        bytes := bytes + rowBytes;
        rows := rows + [row.value];
      }
      NothingHeld(rows, Decoded(decode, bufferedRows + portal), future);
      if rows == [] {
        DecodedEnd(decode, rows, future);
        DoneFuture(decode);
        return Success(None);
      }
      return Success(Some(rows));
    }
  }

  lemma SomethingLeft<Raw>(decode: Raw -> Result<ExecutionRow>, pending: Option<ExecutionRow>, items: seq<Raw>)
    ensures After(Held(pending), Decoded(decode, items)) == Success([]) <==> pending.None? && items == []
  {
    var rest := Decoded(decode, items);
    if pending.None? && items == [] {
      DoneFuture(decode);
    }
    assert items != [] && rest.Success? ==> |rest.value| > 0;
    assert rest.Success? ==> |After(Held(pending), rest).value| == |Held(pending)| + |rest.value|;
  }

  // ----- memory -----

  class MemoryStream {
    const batchRows: nat
    var rows: seq<ExecutionRow>
    var cancelled: bool

    constructor (rows: seq<ExecutionRow>, batchRows: nat)
      ensures this.rows == rows && this.batchRows == batchRows && !cancelled
    {
      this.rows := rows;
      this.batchRows := batchRows;
      cancelled := false;
    }

    /** Drains the queue from the front, a full batch at a time. */
    method NextBatch() returns (batch: Option<seq<ExecutionRow>>)
      requires batchRows > 0
      modifies this`rows
      ensures batch.None? <==> old(cancelled) || old(rows) == []
      ensures batch.None? ==> rows == old(rows)
      ensures batch.Some? ==> 0 < |batch.value| <= batchRows && batch.value + rows == old(rows)
      ensures batch.Some? && |batch.value| < batchRows ==> rows == []
    {
      if cancelled || rows == [] {
        return None;
      }
      var count := if batchRows < |rows| then batchRows else |rows|;
      batch := Some(rows[..count]);
      rows := rows[count..];
    }
  }
}
