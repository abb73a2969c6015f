/// The benchmark artifact's CSV printer and parser (`tools/benchmarks/src/artifact.rs`).

module Csv {
  import opened Results
  import opened Semantics
  import opened Sequences

  const QUOTE: Byte := 34
  const COMMA: Byte := 44
  const LF: Byte := 10
  const CR: Byte := 13

  // ----- UTF-8 -----

  /** The UTF-8 bytes of one scalar value. */
  function Utf8(c: char): (bytes: seq<Byte>)
    ensures 1 <= |bytes| <= 4
    ensures c as int < 128 <==> |bytes| == 1
    ensures c as int < 128 ==> bytes == [c as int]
    ensures c as int >= 128 ==> forall i | 0 <= i < |bytes| :: bytes[i] >= 128
  {
    var n := c as int;
    if n < 0x80 then [n]
    else if n < 0x800 then [0xc0 + n / 0x40, 0x80 + n % 0x40]
    else if n < 0x10000 then [0xe0 + n / 0x1000, 0x80 + n / 0x40 % 0x40, 0x80 + n % 0x40]
    else [0xf0 + n / 0x40000, 0x80 + n / 0x1000 % 0x40, 0x80 + n / 0x40 % 0x40, 0x80 + n % 0x40]
  }

  function Encode(s: string): seq<Byte> {
    if s == [] then [] else Utf8(s[0]) + Encode(s[1..])
  }

  lemma {:induction false} EncodeAppend(s: string, t: string)
    ensures Encode(s + t) == Encode(s) + Encode(t)
  {
    if s == [] {
      assert s + t == t && [] + Encode(t) == Encode(t);
    } else {
      assert (s + t)[1..] == s[1..] + t;
      EncodeAppend(s[1..], t);
      assert Utf8(s[0]) + (Encode(s[1..]) + Encode(t)) == (Utf8(s[0]) + Encode(s[1..])) + Encode(t);
    }
  }

  /** The Latin-1 reading of bytes, one character each. */
  function Latin1(bytes: seq<Byte>): (s: string)
    ensures |s| == |bytes| && forall i | 0 <= i < |bytes| :: s[i] == bytes[i] as char
  {
    seq(|bytes|, i requires 0 <= i < |bytes| => bytes[i] as char)
  }

  /** What a text becomes when its UTF-8 bytes are read back one by one. */
  function Reread(s: string): string { Latin1(Encode(s)) }

  predicate Ascii(s: string) {
    forall i | 0 <= i < |s| :: s[i] as int < 128
  }

  lemma {:induction false} RereadLength(s: string)
    ensures |Encode(s)| >= |s|
    ensures |Encode(s)| == |s| <==> Ascii(s)
    ensures Ascii(s) ==> forall i | 0 <= i < |s| :: Encode(s)[i] == s[i] as int
  {
    if s != [] {
      RereadLength(s[1..]);
      assert Ascii(s) <==> s[0] as int < 128 && Ascii(s[1..]) by {
        assert forall i | 0 < i < |s| :: s[i] == s[1..][i - 1];
      }
    }
  }

  /** Only ASCII text survives. */
  lemma RereadIsIdentity(s: string)
    ensures Reread(s) == s <==> Ascii(s)
  {
    RereadLength(s);
  }

  // ----- printing -----

  function Escape(field: string): string {
    if field == [] then [] else (if field[0] == '"' then "\"\"" else [field[0]]) + Escape(field[1..])
  }

  function PrintField(field: string): string { "\"" + Escape(field) + "\"" }

  /** The fields after the first `k`, each with its separator, and the line end. */
  function PrintFrom(fields: seq<string>, k: nat): string
    requires k <= |fields|
    decreases |fields| - k
  {
    if k == |fields| then "\n"
    else (if k != 0 then "," else "") + PrintField(fields[k]) + PrintFrom(fields, k + 1)
  }

  function PrintRecord(fields: seq<string>): string { PrintFrom(fields, 0) }

  function PrintAll(records: seq<seq<string>>): string {
    if records == [] then "" else PrintRecord(records[0]) + PrintAll(records[1..])
  }

  /** Appends one record to the output. */
  method CsvRecord(output: string, fields: seq<string>) returns (r: string)
    ensures r == output + PrintRecord(fields)
  {
    hide PrintField;
    r := output;
    for index := 0 to |fields|
      invariant r + PrintFrom(fields, index) == output + PrintRecord(fields)
    {
      ghost var before, rest := r, PrintFrom(fields, index + 1);
      ghost var sep := if index != 0 then "," else "";
      assert before + (sep + PrintField(fields[index]) + rest) == (before + sep + PrintField(fields[index])) + rest;
      if index != 0 {
        r := r + ",";
      }
      r := r + PrintField(fields[index]);
      assert r == before + sep + PrintField(fields[index]);
    }
    r := r + "\n";
  }

  // ----- parsing -----

  datatype State = State(records: seq<seq<string>>, record: seq<string>, field: string, quoted: bool)

  function EndField(st: State): State {
    st.(record := st.record + [st.field], field := "")
  }

  function EndRecord(st: State): State {
    var ended := EndField(st);
    ended.(records := ended.records + [ended.record], record := [])
  }

  /** One step: the state after the byte at hand, given the one that follows it, and how many bytes it took. */
  function Step(byte: Byte, next: Option<Byte>, st: State): (r: (State, nat))
    ensures r.1 == 1 || (r.1 == 2 && next.Some?)
  {
    if st.quoted then
      if byte == QUOTE then
        if next == Some(QUOTE) then (st.(field := st.field + "\""), 2) else (st.(quoted := false), 1)
      else (st.(field := st.field + [byte as char]), 1)
    else if byte == QUOTE && st.field == "" then (st.(quoted := true), 1)
    else if byte == COMMA then (EndField(st), 1)
    else if byte == LF then (EndRecord(st), 1)
    else if byte == CR then if next == Some(LF) then (st, 1) else (EndRecord(st), 1)
    else (st.(field := st.field + [byte as char]), 1)
  }

  function At(bytes: seq<Byte>, i: nat): (r: Option<Byte>)
    ensures r.Some? <==> i < |bytes|
  {
    if i < |bytes| then Some(bytes[i]) else None
  }

  function Run(bytes: seq<Byte>, st: State): State
    decreases |bytes|
  {
    if bytes == [] then st
    else
      var (after, used) := Step(bytes[0], At(bytes, 1), st);
      Run(bytes[used..], after)
  }

  /** A last record without a line end is kept; an open quote is an error. */
  function Finish(st: State): Result<seq<seq<string>>> {
    if st.quoted then Failure("unterminated quoted CSV field")
    else if st.field != "" || st.record != [] then Success(st.records + [st.record + [st.field]])
    else Success(st.records)
  }

  const START := State([], [], "", false)

  function Parsed(input: string): Result<seq<seq<string>>> {
    Finish(Run(Encode(input), START))
  }

  lemma RunAt(bytes: seq<Byte>, i: nat, st: State)
    requires i < |bytes|
    ensures var (after, used) := Step(bytes[i], At(bytes, i + 1), st);
            i + used <= |bytes| && Run(bytes[i..], st) == Run(bytes[i + used..], after)
  {
    hide Step;
    var (after, used) := Step(bytes[i], At(bytes, i + 1), st);
    assert bytes[i..][used..] == bytes[i + used..];
  }

  lemma RunNothing(st: State)
    ensures Run([], st) == st
  {
  }

  method ParseCsv(input: string) returns (r: Result<seq<seq<string>>>)
    ensures r == Parsed(input)
  {
    hide Run;
    var records: seq<seq<string>> := [];
    var record: seq<string> := [];
    var field := "";
    var quoted := false;
    var bytes := Encode(input);
    var index := 0;
    assert bytes[0..] == bytes;
    while index < |bytes|
      invariant index <= |bytes|
      invariant Run(bytes, START) == Run(bytes[index..], State(records, record, field, quoted))
    {
      RunAt(bytes, index, State(records, record, field, quoted));
      var byte := bytes[index];
      if quoted {
        if byte == QUOTE {
          if index + 1 < |bytes| && bytes[index + 1] == QUOTE {
            field := field + "\"";
            index := index + 1;
          } else {
            quoted := false;
          }
        } else {
          field := field + [byte as char];
        }
      } else if byte == QUOTE && field == "" {
        quoted := true;
      } else if byte == COMMA {
        record, field := record + [field], "";
      } else if byte == LF {
        record, field := record + [field], "";
        records, record := records + [record], [];
      } else if byte == CR && index + 1 < |bytes| && bytes[index + 1] == LF {
      } else if byte == CR {
        record, field := record + [field], "";
        records, record := records + [record], [];
      } else {
        field := field + [byte as char];
      }
      index := index + 1;
    }
    assert bytes[index..] == [];
    RunNothing(State(records, record, field, quoted));
    if quoted {
      return Failure("unterminated quoted CSV field");
    }
    if field != "" || record != [] {
      record := record + [field];
      records := records + [record];
    }
    return Success(records);
  }

  // ----- the round trip -----

  lemma RunPlainByte(byte: Byte, rest: seq<Byte>, st: State)
    requires st.quoted && byte != QUOTE
    ensures Run([byte] + rest, st) == Run(rest, st.(field := st.field + [byte as char]))
  {
    assert ([byte] + rest)[1..] == rest;
  }

  /** Bytes that are no quote are taken as they are inside quotes. */
  lemma {:induction false} RunPlain(plain: seq<Byte>, rest: seq<Byte>, st: State)
    requires st.quoted && forall i | 0 <= i < |plain| :: plain[i] != QUOTE
    ensures Run(plain + rest, st) == Run(rest, st.(field := st.field + Latin1(plain)))
    decreases |plain|
  {
    hide Run;
    if plain == [] {
      assert plain + rest == rest && st.field + Latin1(plain) == st.field;
    } else {
      assert plain + rest == [plain[0]] + (plain[1..] + rest);
      RunPlainByte(plain[0], plain[1..] + rest, st);
      var after := st.(field := st.field + [plain[0] as char]);
      RunPlain(plain[1..], rest, after);
      assert Latin1(plain) == [plain[0] as char] + Latin1(plain[1..]);
      Assoc(st.field, [plain[0] as char], Latin1(plain[1..]));
    }
  }

  lemma RunComma(rest: seq<Byte>, st: State)
    requires !st.quoted
    ensures Run([COMMA] + rest, st) == Run(rest, EndField(st))
  {
    assert ([COMMA] + rest)[1..] == rest;
  }

  lemma RunEndsLine(rest: seq<Byte>, st: State)
    requires !st.quoted
    ensures Run([LF] + rest, st) == Run(rest, EndRecord(st))
  {
    assert ([LF] + rest)[1..] == rest;
  }

  /** An escaped field and its closing quote, read inside quotes. */
  lemma {:induction false} RunEscaped(field: string, rest: seq<Byte>, st: State)
    requires st.quoted && rest != [] && rest[0] != QUOTE
    ensures Run(Encode(Escape(field)) + ([QUOTE] + rest), st)
         == Run(rest, st.(field := st.field + Reread(field), quoted := false))
    decreases |field|
  {
    var close := [QUOTE] + rest;
    if field == [] {
      assert Encode(Escape(field)) + close == close;
      assert close[1..] == rest && st.field + Reread(field) == st.field;
    } else {
      var after := st.(field := st.field + Latin1(Utf8(field[0])));
      var tail := Encode(Escape(field[1..])) + close;
      EscapeHead(field, close);
      if field[0] == '"' {
        RunDoubled(tail, st);
        assert Latin1([QUOTE]) == "\"";
      } else {
        RunPlain(Utf8(field[0]), tail, st);
      }
      RunEscaped(field[1..], rest, after);
      RereadHead(field, st.field);
    }
  }

  lemma RunDoubled(tail: seq<Byte>, st: State)
    requires st.quoted
    ensures Run([QUOTE, QUOTE] + tail, st) == Run(tail, st.(field := st.field + "\""))
  {
    var bytes := [QUOTE, QUOTE] + tail;
    assert bytes[2..] == tail;
  }

  function EscapedBytes(c: char): seq<Byte> {
    if c == '"' then [QUOTE, QUOTE] else Utf8(c)
  }

  lemma EncodeOne(c: char)
    ensures Encode([c]) == Utf8(c)
  {
    assert [c][1..] == [];
    assert Encode([c]) == Utf8(c) + Encode([]);
  }

  lemma EncodeEscaped(c: char)
    ensures Encode(if c == '"' then "\"\"" else [c]) == EscapedBytes(c)
  {
    EncodeOne(c);
    if c == '"' {
      EncodeAppend("\"", "\"");
      assert "\"" + "\"" == "\"\"";
    }
  }

  lemma EscapeHead(field: string, close: seq<Byte>)
    requires field != []
    ensures Encode(Escape(field)) + close == EscapedBytes(field[0]) + (Encode(Escape(field[1..])) + close)
  {
    hide Encode;
    EncodeAppend(if field[0] == '"' then "\"\"" else [field[0]], Escape(field[1..]));
    EncodeEscaped(field[0]);
    hide Escape;
    Assoc(EscapedBytes(field[0]), Encode(Escape(field[1..])), close);
  }

  lemma RereadHead(field: string, before: string)
    requires field != []
    ensures before + Reread(field) == (before + Latin1(Utf8(field[0]))) + Reread(field[1..])
  {
    assert Latin1(Utf8(field[0]) + Encode(field[1..])) == Latin1(Utf8(field[0])) + Latin1(Encode(field[1..]));
  }

  /** A printed field is read back whole. */
  lemma RunField(field: string, rest: seq<Byte>, st: State)
    requires !st.quoted && st.field == "" && rest != [] && rest[0] != QUOTE
    ensures Run(Encode(PrintField(field)) + rest, st) == Run(rest, st.(field := Reread(field)))
  {
    var quoted := st.(quoted := true);
    hide Encode;
    FieldSplits(field, rest);
    var body := Encode(Escape(field)) + ([QUOTE] + rest);
    assert Run([QUOTE] + body, st) == Run(body, quoted) by { RunOpen(body, st); }
    RunEscaped(field, rest, quoted);
    assert "" + Reread(field) == Reread(field);
  }

  lemma RunOpen(body: seq<Byte>, st: State)
    requires !st.quoted && st.field == ""
    ensures Run([QUOTE] + body, st) == Run(body, st.(quoted := true))
  {
    assert ([QUOTE] + body)[1..] == body;
  }

  lemma FieldSplits(field: string, rest: seq<Byte>)
    ensures Encode(PrintField(field)) + rest == [QUOTE] + (Encode(Escape(field)) + ([QUOTE] + rest))
  {
    hide Encode, Escape;
    EncodeAppend("\"" + Escape(field), "\"");
    EncodeAppend("\"", Escape(field));
    EncodeOne('"');
    var q, e := [QUOTE], Encode(Escape(field));
    Assoc(q + e, q, rest);
    Assoc(q, e, q + rest);
  }

  function RereadAll(fields: seq<string>): (r: seq<string>)
    ensures |r| == |fields| && forall i | 0 <= i < |fields| :: r[i] == Reread(fields[i])
  {
    seq(|fields|, i requires 0 <= i < |fields| => Reread(fields[i]))
  }

  /** What a record is read back as: one without fields becomes one with an empty field. */
  function ReadBack(fields: seq<string>): seq<string> {
    if fields == [] then [""] else RereadAll(fields)
  }

  lemma SeparatorByte(c: char)
    requires c as int < 128
    ensures Encode([c]) == [c as int]
  {
    assert [c][1..] == [];
    assert Encode([c]) == Utf8(c) + Encode([]);
  }

  lemma PrintedStart(fields: seq<string>, k: nat, rest: seq<Byte>)
    requires 0 < k <= |fields|
    ensures var bytes := Encode(PrintFrom(fields, k)) + rest; bytes != [] && (bytes[0] == COMMA || bytes[0] == LF)
  {
    if k == |fields| {
      SeparatorByte('\n');
    } else {
      SeparatorByte(',');
      EncodeAppend("," + PrintField(fields[k]), PrintFrom(fields, k + 1));
      EncodeAppend(",", PrintField(fields[k]));
    }
  }

  /** The fields from `k` on, read after those before `k`. */
  lemma {:induction false} RunFields(fields: seq<string>, k: nat, rest: seq<Byte>, st: State)
    requires 0 < k <= |fields| && !st.quoted
    requires st.record == RereadAll(fields[..k - 1]) && st.field == Reread(fields[k - 1])
    ensures Run(Encode(PrintFrom(fields, k)) + rest, st)
         == Run(rest, State(st.records + [RereadAll(fields)], [], "", false))
    decreases |fields| - k
  {
    hide Reread, PrintField, Run, Encode;
    var done := EndField(st);
    assert done.record == RereadAll(fields[..k]);
    if k == |fields| {
      SeparatorByte('\n');
      RunEndsLine(rest, st);
      assert fields[..k] == fields;
    } else {
      var tail := Encode(PrintFrom(fields, k + 1)) + rest;
      PrintedSplits(fields, k, rest);
      RunComma(Encode(PrintField(fields[k])) + tail, st);
      PrintedStart(fields, k + 1, rest);
      RunField(fields[k], tail, done);
      RunFields(fields, k + 1, rest, done.(field := Reread(fields[k])));
    }
  }

  /** The bytes of a separator, a field, and what follows. */
  lemma PrintedSplits(fields: seq<string>, k: nat, rest: seq<Byte>)
    requires 0 < k < |fields|
    ensures Encode(PrintFrom(fields, k)) + rest
         == [COMMA] + (Encode(PrintField(fields[k])) + (Encode(PrintFrom(fields, k + 1)) + rest))
  {
    hide PrintField, Encode;
    SeparatorByte(',');
    EncodeAppend("," + PrintField(fields[k]), PrintFrom(fields, k + 1));
    EncodeAppend(",", PrintField(fields[k]));
    var c, f, t := [COMMA], Encode(PrintField(fields[k])), Encode(PrintFrom(fields, k + 1));
    Assoc(c + f, t, rest);
    Assoc(c, f, t + rest);
  }

  lemma RunRecord(fields: seq<string>, rest: seq<Byte>, records: seq<seq<string>>)
    ensures Run(Encode(PrintRecord(fields)) + rest, State(records, [], "", false))
         == Run(rest, State(records + [ReadBack(fields)], [], "", false))
  {
    hide Reread, PrintField, Run, Encode;
    var st := State(records, [], "", false);
    if fields == [] {
      SeparatorByte('\n');
      RunEndsLine(rest, st);
      assert [] + [""] == [""];
    } else {
      var tail := Encode(PrintFrom(fields, 1)) + rest;
      assert "" + PrintField(fields[0]) == PrintField(fields[0]);
      EncodeAppend(PrintField(fields[0]), PrintFrom(fields, 1));
      Assoc(Encode(PrintField(fields[0])), Encode(PrintFrom(fields, 1)), rest);
      PrintedStart(fields, 1, rest);
      RunField(fields[0], tail, st);
      assert RereadAll(fields[..0]) == [];
      RunFields(fields, 1, rest, st.(field := Reread(fields[0])));
    }
  }

  function ReadBackAll(records: seq<seq<string>>): (r: seq<seq<string>>)
    ensures |r| == |records| && forall i | 0 <= i < |records| :: r[i] == ReadBack(records[i])
  {
    seq(|records|, i requires 0 <= i < |records| => ReadBack(records[i]))
  }

  lemma {:induction false} RunRecords(records: seq<seq<string>>, before: seq<seq<string>>)
    ensures Run(Encode(PrintAll(records)), State(before, [], "", false))
              == State(before + ReadBackAll(records), [], "", false)
    decreases |records|
  {
    hide PrintRecord, ReadBack;
    if records == [] {
      assert before + ReadBackAll(records) == before;
    } else {
      EncodeAppend(PrintRecord(records[0]), PrintAll(records[1..]));
      RunRecord(records[0], Encode(PrintAll(records[1..])), before);
      RunRecords(records[1..], before + [ReadBack(records[0])]);
      assert before + ReadBackAll(records) == (before + [ReadBack(records[0])]) + ReadBackAll(records[1..]);
    }
  }

  /** Parsing what was printed always succeeds, and says exactly what becomes of every field. */
  lemma ParsePrinted(records: seq<seq<string>>)
    ensures Parsed(PrintAll(records)) == Success(ReadBackAll(records))
  {
    hide Encode, PrintAll, Run;
    RunRecords(records, []);
    assert [] + ReadBackAll(records) == ReadBackAll(records);
  }

  /** The round trip is exact if and only if every record has a field and every character is ASCII. */
  lemma CsvRoundTrip(records: seq<seq<string>>)
    ensures Parsed(PrintAll(records)) == Success(records) <==>
            forall i | 0 <= i < |records| ::
              records[i] != [] && forall j | 0 <= j < |records[i]| :: Ascii(records[i][j])
  {
    hide Reread, Parsed, PrintAll, Ascii;
    ParsePrinted(records);
    forall i | 0 <= i < |records|
      ensures ReadBack(records[i]) == records[i] <==>
              records[i] != [] && forall j | 0 <= j < |records[i]| :: Ascii(records[i][j])
    {
      ReadBackIsIdentity(records[i]);
    }
    if forall i | 0 <= i < |records| :: ReadBack(records[i]) == records[i] {
      assert ReadBackAll(records) == records;
    }
  }

  lemma ReadBackIsIdentity(fields: seq<string>)
    ensures ReadBack(fields) == fields <==> fields != [] && forall j | 0 <= j < |fields| :: Ascii(fields[j])
  {
    hide Reread, Ascii;
    forall j | 0 <= j < |fields| ensures Reread(fields[j]) == fields[j] <==> Ascii(fields[j]) {
      RereadIsIdentity(fields[j]);
    }
    if fields != [] && forall j | 0 <= j < |fields| :: Ascii(fields[j]) {
      assert RereadAll(fields) == fields;
    }
  }

  /** A character beyond ASCII comes back as one character per byte, and an empty record as one empty field. */
  lemma RoundTripLosses()
    ensures Parsed(PrintAll([["\U{e9}"]])) == Success([["\U{c3}\U{a9}"]])
    ensures Parsed(PrintAll([[]])) == Success([[""]])
  {
    ParsePrinted([["\U{e9}"]]);
    ParsePrinted([[]]);
    hide Parsed, PrintAll;
    assert Encode("\U{e9}") == [0xc3, 0xa9];
    assert Reread("\U{e9}") == "\U{c3}\U{a9}";
    assert ReadBack(["\U{e9}"]) == ["\U{c3}\U{a9}"];
    assert ReadBackAll([["\U{e9}"]]) == [["\U{c3}\U{a9}"]];
    assert ReadBackAll([[]]) == [[""]];
  }

  // ----- text that was not printed here -----

  /** The printed form: fields in quotes, inner quotes doubled, commas between, a line end after each record. */
  lemma PrintedForm()
    ensures PrintAll([["a", "b\"c"], [""]]) == "\"a\",\"b\"\"c\"\n\"\"\n"
  {
    assert PrintField("a") == "\"a\"";
    assert Escape("b\"c") == "b\"\"c";
    assert PrintRecord(["a", "b\"c"]) == "\"a\",\"b\"\"c\"\n";
    assert PrintRecord([""]) == "\"\"\n";
    assert [["a", "b\"c"], [""]][1..] == [[""]];
    assert [[""]][1..] == [];
  }

  /** Bytes a field may hold outside quotes. */
  predicate Bare(field: seq<Byte>) {
    forall i | 0 <= i < |field| :: field[i] !in {QUOTE, COMMA, LF, CR}
  }

  predicate EndsLine(end: seq<Byte>) {
    end == [LF] || end == [CR, LF] || end == [CR]
  }

  function BareRecord(fields: seq<seq<Byte>>, end: seq<Byte>): seq<Byte>
    requires fields != []
  {
    if |fields| == 1 then fields[0] + end else fields[0] + ([COMMA] + BareRecord(fields[1..], end))
  }

  function BareText(records: seq<seq<seq<Byte>>>, end: seq<Byte>): seq<Byte>
    requires forall i | 0 <= i < |records| :: records[i] != []
  {
    if records == [] then [] else BareRecord(records[0], end) + BareText(records[1..], end)
  }

  function Texts(fields: seq<seq<Byte>>): (r: seq<string>)
    ensures |r| == |fields| && forall i | 0 <= i < |fields| :: r[i] == Latin1(fields[i])
  {
    seq(|fields|, i requires 0 <= i < |fields| => Latin1(fields[i]))
  }

  lemma {:induction false} RunBare(field: seq<Byte>, rest: seq<Byte>, st: State)
    requires !st.quoted && Bare(field)
    ensures Run(field + rest, st) == Run(rest, st.(field := st.field + Latin1(field)))
    decreases |field|
  {
    hide Run, Step;
    if field == [] {
      assert field + rest == rest && st.field + Latin1(field) == st.field;
    } else {
      var after := st.(field := st.field + [field[0] as char]);
      assert field + rest == [field[0]] + (field[1..] + rest);
      RunBareByte(field[0], field[1..] + rest, st);
      RunBare(field[1..], rest, after);
      assert Latin1(field) == [field[0] as char] + Latin1(field[1..]);
      Assoc(st.field, [field[0] as char], Latin1(field[1..]));
    }
  }

  lemma RunBareByte(byte: Byte, rest: seq<Byte>, st: State)
    requires !st.quoted && byte !in {QUOTE, COMMA, LF, CR}
    ensures Run([byte] + rest, st) == Run(rest, st.(field := st.field + [byte as char]))
  {
    assert ([byte] + rest)[1..] == rest;
  }

  lemma RunSeparator(rest: seq<Byte>, st: State)
    requires !st.quoted
    ensures Run([COMMA] + rest, st) == Run(rest, EndField(st))
  {
    assert ([COMMA] + rest)[1..] == rest;
  }

  /** Every line end closes the record; a lone carriage return must not stand before a feed. */
  lemma RunEnd(end: seq<Byte>, rest: seq<Byte>, st: State)
    requires !st.quoted && EndsLine(end) && (rest != [] ==> rest[0] != LF)
    ensures Run(end + rest, st) == Run(rest, EndRecord(st))
  {
    if end == [CR, LF] {
      assert end + rest == [CR] + ([LF] + rest);
      assert ([CR] + ([LF] + rest))[1..] == [LF] + rest;
      RunFeed(rest, st);
    } else if end == [LF] {
      RunFeed(rest, st);
    } else {
      assert ([CR] + rest)[1..] == rest;
    }
  }

  lemma RunFeed(rest: seq<Byte>, st: State)
    requires !st.quoted
    ensures Run([LF] + rest, st) == Run(rest, EndRecord(st))
  {
    assert ([LF] + rest)[1..] == rest;
  }

  lemma {:induction false} RunBareRecord(fields: seq<seq<Byte>>, end: seq<Byte>, rest: seq<Byte>, st: State)
    requires fields != [] && (forall i | 0 <= i < |fields| :: Bare(fields[i])) && EndsLine(end)
    requires !st.quoted && st.field == "" && (rest != [] ==> rest[0] != LF)
    ensures Run(BareRecord(fields, end) + rest, st)
         == Run(rest, State(st.records + [st.record + Texts(fields)], [], "", false))
    decreases |fields|
  {
    hide Run, Bare, Step, EndsLine, Latin1;
    var read := st.(field := Latin1(fields[0]));
    NothingBefore(Latin1(fields[0]));
    if |fields| == 1 {
      Assoc(fields[0], end, rest);
      RunBare(fields[0], end + rest, st);
      RunEnd(end, rest, read);
      assert Texts(fields) == [Latin1(fields[0])];
    } else {
      var tail := BareRecord(fields[1..], end);
      Assoc(fields[0], [COMMA] + tail, rest);
      Assoc([COMMA], tail, rest);
      RunBare(fields[0], [COMMA] + (tail + rest), st);
      RunSeparator(tail + rest, read);
      RunBareRecord(fields[1..], end, rest, EndField(read));
      FirstText(fields);
      hide Texts;
      Assoc(st.record, [Latin1(fields[0])], Texts(fields[1..]));
    }
  }

  lemma NothingBefore(text: string)
    ensures "" + text == text
  {
  }

  lemma FirstText(fields: seq<seq<Byte>>)
    requires fields != []
    ensures Texts(fields) == [Latin1(fields[0])] + Texts(fields[1..])
  {
  }

  lemma BareStart(fields: seq<seq<Byte>>, end: seq<Byte>)
    requires fields != [] && (forall i | 0 <= i < |fields| :: Bare(fields[i])) && EndsLine(end)
    ensures BareRecord(fields, end) != []
    ensures BareRecord(fields, end)[0] == LF ==> fields[0] == [] && end == [LF]
  {
  }

  /** Records of bare fields whose first field is not empty. */
  ghost predicate BareRecords(records: seq<seq<seq<Byte>>>) {
    forall i | 0 <= i < |records| ::
      && records[i] != [] && records[i][0] != []
      && forall j | 0 <= j < |records[i]| :: Bare(records[i][j])
  }

  lemma {:induction false} RunBareText(records: seq<seq<seq<Byte>>>, end: seq<Byte>, before: seq<seq<string>>)
    requires BareRecords(records) && EndsLine(end)
    ensures Run(BareText(records, end), State(before, [], "", false))
         == State(before + seq(|records|, i requires 0 <= i < |records| => Texts(records[i])), [], "", false)
    decreases |records|
  {
    hide Run, Bare, BareRecord, Texts, EndsLine;
    var all := seq(|records|, i requires 0 <= i < |records| => Texts(records[i]));
    if records == [] {
      RunNothing(State(before, [], "", false));
      assert before + all == before;
    } else {
      var rest := BareText(records[1..], end);
      if records[1..] != [] {
        assert records[1..][0] == records[1];
        BareStart(records[1], end);
        assert rest[0] == BareRecord(records[1], end)[0];
      }
      RunBareRecord(records[0], end, rest, State(before, [], "", false));
      assert [] + Texts(records[0]) == Texts(records[0]);
      RunBareText(records[1..], end, before + [Texts(records[0])]);
      var others := seq(|records[1..]|, i requires 0 <= i < |records[1..]| => Texts(records[1..][i]));
      assert all == [Texts(records[0])] + others;
      assert (before + [Texts(records[0])]) + others == before + all;
    }
  }

  /** Text without quotes is split at its commas and at its line ends, of whichever kind. */
  lemma UnquotedParses(input: string, records: seq<seq<seq<Byte>>>, end: seq<Byte>)
    requires BareRecords(records) && EndsLine(end) && Encode(input) == BareText(records, end)
    ensures Parsed(input) == Success(seq(|records|, i requires 0 <= i < |records| => Texts(records[i])))
  {
    hide Run, Encode, BareText;
    RunBareText(records, end, []);
    var all := seq(|records|, i requires 0 <= i < |records| => Texts(records[i]));
    assert [] + all == all;
  }

  /** A quote that is never closed is an error. */
  lemma OpenQuoteFails(input: string, text: seq<Byte>)
    requires Encode(input) == [QUOTE] + text && forall i | 0 <= i < |text| :: text[i] != QUOTE
    ensures Parsed(input).Failure?
  {
    hide Encode;
    assert ([QUOTE] + text)[1..] == text && text + [] == text;
    RunPlain(text, [], START.(quoted := true));
  }
}
