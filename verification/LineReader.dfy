/// Bounded line reading over a reader that hands out its bytes in arbitrary chunks
/// (`engines/jsonl/src/stream.rs`, `read_bounded_line`).

module LineReader {
  import opened Results
  import opened Semantics
  import opened Sequences

  const LF: Byte := 10

  function Concat(chunks: seq<seq<Byte>>): seq<Byte> {
    if chunks == [] then [] else chunks[0] + Concat(chunks[1..])
  }

  predicate NoFeed(bytes: seq<Byte>) {
    forall i | 0 <= i < |bytes| :: bytes[i] != LF
  }

  /** Position of the first line feed, or the length. */
  function LineEnd(bytes: seq<Byte>): (n: nat)
    ensures n <= |bytes|
    ensures n < |bytes| ==> bytes[n] == LF
    ensures forall i | 0 <= i < n :: bytes[i] != LF
  {
    if bytes == [] || bytes[0] == LF then 0 else 1 + LineEnd(bytes[1..])
  }

  function FirstLine(bytes: seq<Byte>): seq<Byte> { bytes[..LineEnd(bytes)] }

  function AfterLine(bytes: seq<Byte>): (rest: seq<Byte>)
    ensures bytes != [] ==> |rest| < |bytes|
  {
    if LineEnd(bytes) < |bytes| then bytes[LineEnd(bytes) + 1..] else []
  }

  /** The records of a byte string: separated by line feeds, the last one with or without its own. */
  function Lines(bytes: seq<Byte>): seq<seq<Byte>>
    decreases |bytes|
  {
    if bytes == [] then [] else [FirstLine(bytes)] + Lines(AfterLine(bytes))
  }

  function Unlines(lines: seq<seq<Byte>>): seq<Byte> {
    if lines == [] then [] else lines[0] + [LF] + Unlines(lines[1..])
  }

  /** The end of a line is where the first feed is. */
  lemma LineEndIs(bytes: seq<Byte>, n: nat)
    requires n <= |bytes| && (n < |bytes| ==> bytes[n] == LF)
    requires forall i | 0 <= i < n :: bytes[i] != LF
    ensures LineEnd(bytes) == n
  {
    hide LineEnd;
  }

  lemma SplitAt(bytes: seq<Byte>, n: nat)
    requires n < |bytes|
    ensures bytes == bytes[..n] + ([bytes[n]] + bytes[n + 1..])
  {
  }

  lemma FirstOfMany(line: seq<Byte>, tail: seq<Byte>)
    requires NoFeed(line)
    ensures FirstLine(line + ([LF] + tail)) == line && AfterLine(line + ([LF] + tail)) == tail
  {
    hide LineEnd;
    LineEndIs(line + ([LF] + tail), |line|);
  }

  lemma WholeLine(line: seq<Byte>)
    requires NoFeed(line)
    ensures FirstLine(line) == line && AfterLine(line) == []
  {
    hide LineEnd;
    LineEndIs(line, |line|);
  }

  lemma LineBeyond(line: seq<Byte>, more: seq<Byte>)
    requires NoFeed(line)
    ensures |FirstLine(line + more)| >= |line|
  {
    hide LineEnd;
  }

  /** Terminated records, and one last unterminated record when it is not empty, are read back as they were written. */
  lemma {:induction false} LinesRoundTrip(lines: seq<seq<Byte>>, last: seq<Byte>)
    requires NoFeed(last) && forall i | 0 <= i < |lines| :: NoFeed(lines[i])
    ensures Lines(Unlines(lines) + last) == lines + (if last == [] then [] else [last])
  {
    hide LineEnd, FirstLine, AfterLine;
    if lines == [] {
      assert [] + last == last;
      WholeLine(last);
    } else {
      var tail := Unlines(lines[1..]) + last;
      FirstOfMany(lines[0], tail);
      Assoc(lines[0] + [LF], Unlines(lines[1..]), last);
      Assoc(lines[0], [LF], tail);
      LinesRoundTrip(lines[1..], last);
      assert lines == [lines[0]] + lines[1..];
    }
  }

  /** A buffered reader. `chunks` is what it will still hand out, one non-empty buffer at a time. */
  class ChunkReader {
    var chunks: seq<seq<Byte>>

    ghost predicate Valid()
      reads this
    {
      forall i | 0 <= i < |chunks| :: chunks[i] != []
    }

    ghost function Rest(): seq<Byte>
      reads this
    {
      Concat(chunks)
    }

    constructor (chunks: seq<seq<Byte>>)
      requires forall i | 0 <= i < |chunks| :: chunks[i] != []
      ensures Valid() && Rest() == Concat(chunks)
    {
      this.chunks := chunks;
    }

    /** The current buffer: empty only at the end of the input. */
    function FillBuf(): (available: seq<Byte>)
      requires Valid()
      reads this
      ensures available <= Rest()
      ensures available == [] <==> Rest() == []
    {
      if chunks == [] then [] else chunks[0]
    }

    method Consume(count: nat)
      requires Valid() && count <= |FillBuf()|
      modifies this
      ensures Valid() && Rest() == old(Rest())[count..]
      ensures count > 0 ==> |Rest()| < |old(Rest())|
    {
      if count > 0 {
        ghost var before := Concat(chunks);
        var left := chunks[0][count..];
        if left == [] {
          chunks := chunks[1..];
          assert before[count..] == Concat(chunks);
        } else {
          chunks := [left] + chunks[1..];
          assert chunks[1..] == old(chunks)[1..];
          assert before[count..] == left + Concat(chunks[1..]);
        }
      }
    }

    /**
     * Reads one record, whatever the chunks: it fails exactly when the record exceeds the bound,
     * and answers false exactly at the end of the input.
     */
    method ReadBoundedLine(maxLineBytes: nat) returns (found: Result<bool>, buffer: seq<Byte>)
      requires Valid()
      modifies this
      ensures Valid()
      ensures found.Failure? <==> old(Rest()) != [] && |FirstLine(old(Rest()))| > maxLineBytes
      ensures found.Success? ==> (found.value <==> old(Rest()) != [])
      ensures found == Success(true) ==> buffer == FirstLine(old(Rest())) && Rest() == AfterLine(old(Rest()))
      ensures found == Success(false) ==> Rest() == []
      ensures found == Success(true) ==> |Rest()| < |old(Rest())|
    {
      hide LineEnd, FirstLine, AfterLine, Concat;
      buffer := [];
      ghost var total := Rest();
      while true
        invariant Valid() && NoFeed(buffer) && |buffer| <= maxLineBytes
        invariant total == buffer + Rest()
        decreases |Rest()|
      {
        var available := FillBuf();
        ghost var rest := Rest();
        NoFeedInChunk(buffer, available, rest);
        if available == [] {
          assert total == buffer;
          WholeLine(buffer);
          return Success(buffer != []), buffer;
        }
        var contentLen := LineEnd(available);
        if |buffer| + contentLen > maxLineBytes {
          return Failure("JSONL-LIMIT-002"), buffer;
        }
        var newline := contentLen < |available|;
        if newline {
          FeedInChunk(buffer, available, rest);
        }
        Consume(contentLen + (if newline then 1 else 0));
        buffer := buffer + available[..contentLen];
        if newline {
          return Success(true), buffer;
        }
        assert available[..contentLen] == available;
      }
    }
  }

  /** The chunk that holds the feed ends the line that `buffer` begins. */
  lemma FeedInChunk(buffer: seq<Byte>, available: seq<Byte>, rest: seq<Byte>)
    requires NoFeed(buffer) && available <= rest && LineEnd(available) < |available|
    ensures FirstLine(buffer + rest) == buffer + available[..LineEnd(available)]
    ensures AfterLine(buffer + rest) == rest[LineEnd(available) + 1..]
  {
    hide LineEnd, FirstLine, AfterLine;
    var n := LineEnd(available);
    SplitAt(rest, n);
    assert rest[..n] == available[..n];
    Assoc(buffer, available[..n], [LF] + rest[n + 1..]);
    NoFeedAppend(buffer, available[..n]);
    FirstOfMany(buffer + available[..n], rest[n + 1..]);
  }

  /** A chunk without a feed only lengthens it. */
  lemma NoFeedInChunk(buffer: seq<Byte>, available: seq<Byte>, rest: seq<Byte>)
    requires NoFeed(buffer) && available <= rest
    ensures |FirstLine(buffer + rest)| >= |buffer| + LineEnd(available)
    ensures LineEnd(available) == |available| ==>
              NoFeed(buffer + available) && buffer + rest == (buffer + available) + rest[|available|..]
  {
    hide LineEnd, FirstLine, AfterLine;
    var n := LineEnd(available);
    var head := available[..n];
    assert rest == head + rest[n..];
    Assoc(buffer, head, rest[n..]);
    NoFeedAppend(buffer, head);
    LineBeyond(buffer + head, rest[n..]);
    assert n == |available| ==> head == available;
  }

  lemma NoFeedAppend(s: seq<Byte>, t: seq<Byte>)
    requires NoFeed(s) && NoFeed(t)
    ensures NoFeed(s + t)
  {
  }

  /** `lines` have been read and the records of `rest` are still to come. */
  ghost predicate Reading(all: seq<seq<Byte>>, lines: seq<seq<Byte>>, rest: seq<Byte>, bound: nat) {
    && all == lines + Lines(rest)
    && forall i | 0 <= i < |lines| :: |lines[i]| <= bound
  }

  lemma ReadingStart(rest: seq<Byte>, bound: nat)
    ensures Reading(Lines(rest), [], rest, bound)
  {
  }

  lemma ReadingStep(all: seq<seq<Byte>>, lines: seq<seq<Byte>>, rest: seq<Byte>, bound: nat)
    requires Reading(all, lines, rest, bound)
    ensures rest == [] ==> all == lines && forall line | line in all :: |line| <= bound
    ensures rest != [] ==> FirstLine(rest) in all
    ensures rest != [] && |FirstLine(rest)| <= bound ==> Reading(all, lines + [FirstLine(rest)], AfterLine(rest), bound)
  {
    hide LineEnd, FirstLine, AfterLine;
    if rest != [] {
      assert Lines(rest) == [FirstLine(rest)] + Lines(AfterLine(rest));
      assert all[|lines|] == FirstLine(rest);
      assert all == lines + [FirstLine(rest)] + Lines(AfterLine(rest));
    }
  }

  /** Reads until the end: the records do not depend on how the input is cut into chunks. */
  method ReadAll(reader: ChunkReader, maxLineBytes: nat) returns (r: Result<seq<seq<Byte>>>)
    requires reader.Valid()
    modifies reader
    ensures r.Success? <==> forall line | line in Lines(old(reader.Rest())) :: |line| <= maxLineBytes
    ensures r.Success? ==> r.value == Lines(old(reader.Rest()))
  {
    hide Lines, FirstLine, AfterLine, Reading;
    var lines: seq<seq<Byte>> := [];
    ghost var all := Lines(reader.Rest());
    ReadingStart(reader.Rest(), maxLineBytes);
    while true
      invariant reader.Valid()
      invariant Reading(all, lines, reader.Rest(), maxLineBytes)
      decreases |reader.Rest()|
    {
      ghost var rest := reader.Rest();
      ReadingStep(all, lines, rest, maxLineBytes);
      var found, line := reader.ReadBoundedLine(maxLineBytes);
      if found.Failure? {
        return Failure(found.code);
      }
      if !found.value {
        return Success(lines);
      }
      lines := lines + [line];
    }
  }
}
