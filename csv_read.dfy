/** A reader for the CSV the export writes, in the style of section 2 of
    RFC 4180 with line feeds as record breaks: a field is either quoted
    (doubled quotes inside stand for one quote, commas and line feeds are
    data) or bare (everything up to the next comma or line feed). Reading the
    export back through it recovers the headers and every cell. */
module CsvRead {
  import opened Wrappers
  import opened Text
  import opened CsvExport

  datatype Field = Quoted(text: string) | Bare(text: string)

  /** The body of a quoted field, after its opening quote: the text up to the
      closing quote, with `""` read as `"`, and what follows the closing quote. */
  function ReadQuoted(s: string): (r: Option<(string, string)>)
    ensures r.Some? ==> |r.value.1| < |s|
    decreases |s|
  {
    if |s| == 0 then None
    else if s[0] == '"' then
      if |s| >= 2 && s[1] == '"' then
        match ReadQuoted(s[2..])
        case None => None
        case Some((t, rest)) => Some(("\"" + t, rest))
      else Some(([], s[1..]))
    else
      match ReadQuoted(s[1..])
      case None => None
      case Some((t, rest)) => Some(([s[0]] + t, rest))
  }

  /** A bare field: everything up to the next comma or line feed. */
  function ReadBare(s: string): (r: (string, string))
    ensures r.0 + r.1 == s
    decreases |s|
  {
    if |s| == 0 || s[0] == ',' || s[0] == '\n' then ([], s)
    else
      var (t, rest) := ReadBare(s[1..]);
      ([s[0]] + t, rest)
  }

  function ReadField(s: string): (r: Option<(Field, string)>)
    ensures r.Some? ==> |r.value.1| <= |s|
  {
    if |s| > 0 && s[0] == '"' then
      match ReadQuoted(s[1..])
      case None => None
      case Some((t, rest)) => Some((Quoted(t), rest))
    else
      var (t, rest) := ReadBare(s);
      Some((Bare(t), rest))
  }

  /** One record: fields separated by commas, up to a line feed (consumed;
      `more` is then true) or the end of the input. */
  function ReadRecord(s: string): (r: Option<(seq<Field>, string, bool)>)
    ensures r.Some? ==> |r.value.1| < |s| || (!r.value.2 && r.value.1 == [])
    decreases |s|
  {
    match ReadField(s)
    case None => None
    case Some((f, rest)) =>
      if |rest| == 0 then Some(([f], [], false))
      else if rest[0] == '\n' then Some(([f], rest[1..], true))
      else if rest[0] == ',' then
        match ReadRecord(rest[1..])
        case None => None
        case Some((fs, tail, more)) => Some(([f] + fs, tail, more))
      else None
  }

  /** All records of a text. */
  function ReadCsv(s: string): Option<seq<seq<Field>>>
    decreases |s|
  {
    match ReadRecord(s)
    case None => None
    case Some((fs, rest, more)) =>
      if !more then Some([fs])
      else
        match ReadCsv(rest)
        case None => None
        case Some(records) => Some([fs] + records)
  }

  // ---------------------------------------------------------------------
  // Writing fields and records

  /** A bare field the reader can take back: no quote, comma or line feed. */
  predicate Plain(t: string) {
    '"' !in t && ',' !in t && '\n' !in t
  }

  predicate WellFormed(f: Field) {
    f.Bare? ==> Plain(f.text)
  }

  function RenderField(f: Field): string {
    match f
    case Quoted(t) => Quote(t)
    case Bare(t) => t
  }

  function RenderRecord(fs: seq<Field>): string {
    Join(seq(|fs|, i requires 0 <= i < |fs| => RenderField(fs[i])), ',')
  }

  function RenderCsv(records: seq<seq<Field>>): string {
    Join(seq(|records|, i requires 0 <= i < |records| => RenderRecord(records[i])), '\n')
  }

  /** What may follow a field: nothing, or the next comma or line feed. */
  predicate Boundary(t: string) {
    t == [] || t[0] == ',' || t[0] == '\n'
  }

  lemma ReadQuotedCons(c: char, u: string)
    requires c != '"'
    ensures ReadQuoted([c] + u) == match ReadQuoted(u)
      case None => None
      case Some((x, r)) => Some(([c] + x, r))
  {
    assert ([c] + u)[1..] == u;
  }

  lemma ReadQuotedPair(u: string)
    ensures ReadQuoted(['"', '"'] + u) == match ReadQuoted(u)
      case None => None
      case Some((x, r)) => Some((['"'] + x, r))
  {
    assert (['"', '"'] + u)[2..] == u;
  }

  lemma ReadQuotedClose(t: string)
    requires t == [] || t[0] != '"'
    ensures ReadQuoted(['"'] + t) == Some(([], t))
  {
    assert (['"'] + t)[1..] == t;
  }

  lemma EscapeCons(s: string)
    requires |s| > 0
    ensures Escape(s) == (if s[0] == '"' then ['"', '"'] else [s[0]]) + Escape(s[1..])
  {
  }

  lemma ReadQuotedEscapeStep(s: string, t: string)
    requires |s| > 0
    requires ReadQuoted(Escape(s[1..]) + ['"'] + t) == Some((s[1..], t))
    ensures ReadQuoted(Escape(s) + ['"'] + t) == Some((s, t))
  {
    var tail := Escape(s[1..]) + ['"'] + t;
    EscapeCons(s);
    assert s == [s[0]] + s[1..];
    if s[0] == '"' {
      EscapeStepQuote(s[1..], tail, t);
    } else {
      EscapeStepPlain(s[0], s[1..], tail, t);
    }
  }

  lemma EscapeStepQuote(u: string, tail: string, t: string)
    requires tail == Escape(u) + ['"'] + t && ReadQuoted(tail) == Some((u, t))
    ensures ReadQuoted(['"', '"'] + Escape(u) + ['"'] + t) == Some((['"'] + u, t))
  {
    assert ['"', '"'] + Escape(u) + ['"'] + t == ['"', '"'] + tail;
    ReadQuotedPair(tail);
  }

  lemma EscapeStepPlain(c: char, u: string, tail: string, t: string)
    requires c != '"'
    requires tail == Escape(u) + ['"'] + t && ReadQuoted(tail) == Some((u, t))
    ensures ReadQuoted([c] + Escape(u) + ['"'] + t) == Some(([c] + u, t))
  {
    assert [c] + Escape(u) + ['"'] + t == [c] + tail;
    ReadQuotedCons(c, tail);
  }

  /** An escaped string and its closing quote are read back as the string,
      unless another quote follows at once (it would pair with the closing one). */
  lemma {:induction false} ReadQuotedEscape(s: string, t: string)
    requires t == [] || t[0] != '"'
    ensures ReadQuoted(Escape(s) + ['"'] + t) == Some((s, t))
    decreases |s|
  {
    if |s| == 0 {
      assert Escape(s) + ['"'] + t == ['"'] + t;
      ReadQuotedClose(t);
    } else {
      ReadQuotedEscape(s[1..], t);
      ReadQuotedEscapeStep(s, t);
    }
  }

  lemma {:induction false} ReadBarePlain(b: string, t: string)
    requires Plain(b) && Boundary(t)
    ensures ReadBare(b + t) == (b, t)
    decreases |b|
  {
    if |b| > 0 {
      assert b == [b[0]] + b[1..];
      ReadBarePlain(b[1..], t);
      assert (b + t)[1..] == b[1..] + t && (b + t)[0] == b[0];
    } else {
      assert b + t == t;
    }
  }

  /** A written field is read back as itself, and reading stops right after it. */
  lemma ReadFieldRendered(f: Field, t: string)
    requires WellFormed(f) && Boundary(t)
    ensures ReadField(RenderField(f) + t) == Some((f, t))
  {
    match f
    case Quoted(s) =>
      var e := RenderField(f) + t;
      assert e == ['"'] + (Escape(s) + ['"'] + t);
      assert e[1..] == Escape(s) + ['"'] + t;
      ReadQuotedEscape(s, t);
    case Bare(b) =>
      ReadBarePlain(b, t);
      if |b| == 0 {
        assert b + t == t;
      } else {
        assert (b + t)[0] == b[0];
      }
  }

  lemma RenderRecordCons(fs: seq<Field>)
    requires |fs| >= 1
    ensures RenderRecord(fs) == RenderField(fs[0]) + (if |fs| == 1 then [] else [','] + RenderRecord(fs[1..]))
  {
    var rendered := seq(|fs|, i requires 0 <= i < |fs| => RenderField(fs[i]));
    var tail := fs[1..];
    var tailRendered := seq(|tail|, i requires 0 <= i < |tail| => RenderField(tail[i]));
    assert rendered == [RenderField(fs[0])] + tailRendered;
    JoinHead(RenderField(fs[0]), tailRendered, ',');
  }

  lemma RenderCsvCons(records: seq<seq<Field>>)
    requires |records| >= 1
    ensures RenderCsv(records) == RenderRecord(records[0]) + (if |records| == 1 then [] else ['\n'] + RenderCsv(records[1..]))
  {
    var lines := seq(|records|, i requires 0 <= i < |records| => RenderRecord(records[i]));
    var tail := records[1..];
    var tailLines := seq(|tail|, i requires 0 <= i < |tail| => RenderRecord(tail[i]));
    assert lines == [RenderRecord(records[0])] + tailLines;
    JoinHead(RenderRecord(records[0]), tailLines, '\n');
  }

  lemma ReadRecordEnd(s: string, f: Field, t: string)
    requires ReadField(s) == Some((f, t)) && (t == [] || t[0] == '\n')
    ensures ReadRecord(s) == Some(([f], if t == [] then [] else t[1..], t != []))
  {
  }

  lemma ReadRecordComma(s: string, f: Field, u: string)
    requires ReadField(s) == Some((f, [','] + u))
    ensures ReadRecord(s) == match ReadRecord(u)
      case None => None
      case Some((fs, tail, more)) => Some(([f] + fs, tail, more))
  {
    assert ([','] + u)[1..] == u;
  }

  /** A written record, followed by the end or a line feed, is read back as
      its fields, and `more` says which of the two followed. */
  lemma {:induction false} ReadRecordRendered(fs: seq<Field>, t: string)
    requires |fs| >= 1 && forall i :: 0 <= i < |fs| ==> WellFormed(fs[i])
    requires t == [] || t[0] == '\n'
    ensures ReadRecord(RenderRecord(fs) + t) == Some((fs, if t == [] then [] else t[1..], t != []))
    decreases |fs|
  {
    RenderRecordCons(fs);
    var x := RenderField(fs[0]);
    if |fs| == 1 {
      assert RenderRecord(fs) + t == x + t;
      ReadFieldRendered(fs[0], t);
      ReadRecordEnd(x + t, fs[0], t);
      assert fs == [fs[0]];
    } else {
      var u := RenderRecord(fs[1..]) + t;
      assert RenderRecord(fs) + t == x + ([','] + u);
      ReadFieldRendered(fs[0], [','] + u);
      ReadRecordComma(x + ([','] + u), fs[0], u);
      ReadRecordRendered(fs[1..], t);
      assert [fs[0]] + fs[1..] == fs;
    }
  }

  /** A record with at least one field, each of which the reader can take back. */
  predicate Readable(r: seq<Field>) {
    |r| >= 1 && forall i :: 0 <= i < |r| ==> WellFormed(r[i])
  }

  /** Written records are read back as themselves. */
  lemma {:induction false} ReadCsvRendered(records: seq<seq<Field>>)
    requires |records| >= 1
    requires forall i :: 0 <= i < |records| ==> Readable(records[i])
    ensures ReadCsv(RenderCsv(records)) == Some(records)
    decreases |records|
  {
    RenderCsvCons(records);
    assert Readable(records[0]);
    if |records| == 1 {
      assert RenderCsv(records) == RenderRecord(records[0]) + [];
      ReadRecordRendered(records[0], []);
      assert records == [records[0]];
    } else {
      var t := ['\n'] + RenderCsv(records[1..]);
      assert RenderCsv(records) == RenderRecord(records[0]) + t;
      ReadRecordRendered(records[0], t);
      assert t[1..] == RenderCsv(records[1..]);
      ReadCsvRendered(records[1..]);
      assert [records[0]] + records[1..] == records;
    }
  }

  // ---------------------------------------------------------------------
  // Reading the export back

  /** The field the export writes for a cell: a string quoted, a number bare
      in decimal, null and missing as the empty bare field. */
  function Encode(v: Option<Value>): (f: Field)
    ensures RenderField(f) == Render(v)
  {
    match v
    case Some(Str(s)) => Quoted(s)
    case Some(Num(n)) => Bare(IntToString(n))
    case _ => Bare([])
  }

  /** The value a field read from the export stands for. */
  function Decode(f: Field): Option<Value> {
    match f
    case Quoted(s) => Some(Str(s))
    case Bare(t) =>
      if t == [] then Some(Null)
      else match ParseInt(t)
        case Some(n) => Some(Num(n))
        case None => None
  }

  /** A missing property reads back as null; every other value as itself. */
  function Cell(v: Option<Value>): Value {
    if v.Some? then v.value else Null
  }

  lemma DecodeEncode(v: Option<Value>)
    ensures Decode(Encode(v)) == Some(Cell(v))
  {
    if v.Some? && v.value.Num? {
      ParseIntToString(v.value.n);
    }
  }

  /** The records the export's text consists of. */
  function ExportRecords(data: seq<Record>): (records: seq<seq<Field>>)
    ensures |records| == |data| + 1 && records[0] == HeaderRecord(Headers(data))
    ensures forall i :: 1 <= i < |records| ==> records[i] == DataRecord(Headers(data), data[i - 1])
  {
    var headers := Headers(data);
    [HeaderRecord(headers)] + seq(|data|, i requires 0 <= i < |data| => DataRecord(headers, data[i]))
  }

  /** The keys can be written bare. */
  predicate PlainKeys(data: seq<Record>) {
    forall r: Record :: r in data ==> forall i :: 0 <= i < |r| ==> Plain(r[i].0)
  }

  function HeaderRecord(headers: seq<string>): seq<Field> {
    seq(|headers|, k requires 0 <= k < |headers| => Bare(headers[k]))
  }

  function DataRecord(headers: seq<string>, row: Record): seq<Field> {
    seq(|headers|, k requires 0 <= k < |headers| => Encode(Lookup(row, headers[k])))
  }

  lemma HeaderRecordRendered(headers: seq<string>)
    ensures RenderRecord(HeaderRecord(headers)) == Join(headers, ',')
  {
    var fs := HeaderRecord(headers);
    assert seq(|fs|, i requires 0 <= i < |fs| => RenderField(fs[i])) == headers;
  }

  lemma DataRecordRendered(headers: seq<string>, row: Record)
    ensures RenderRecord(DataRecord(headers, row)) == DataLine(headers, row)
  {
    var fs := DataRecord(headers, row);
    assert seq(|fs|, i requires 0 <= i < |fs| => RenderField(fs[i])) == Fields(headers, row);
  }

  /** A data line reads back, for any keys and any string values, as one
      field per header, each the encoding of the row's value for it. */
  lemma DataLineReadsBack(headers: seq<string>, row: Record)
    requires |headers| >= 1
    ensures ReadRecord(DataLine(headers, row)) == Some((DataRecord(headers, row), [], false))
  {
    var fs := DataRecord(headers, row);
    DataRecordRendered(headers, row);
    forall k | 0 <= k < |fs| ensures WellFormed(fs[k]) {
      assert fs[k] == Encode(Lookup(row, headers[k]));
    }
    ReadRecordRendered(fs, []);
    assert RenderRecord(fs) + [] == RenderRecord(fs);
  }

  lemma ExportLine(data: seq<Record>, i: nat)
    requires i < |ExportRecords(data)|
    ensures RenderRecord(ExportRecords(data)[i]) == CsvLines(data)[i]
  {
    var headers := Headers(data);
    if i == 0 {
      HeaderRecordRendered(headers);
    } else {
      DataRecordRendered(headers, data[i - 1]);
      assert CsvLines(data)[(i - 1) + 1] == DataLine(headers, data[i - 1]);
    }
  }

  lemma ExportReadable(data: seq<Record>, i: nat)
    requires PlainKeys(data) && |Headers(data)| >= 1
    requires i < |ExportRecords(data)|
    ensures Readable(ExportRecords(data)[i])
  {
    var headers := Headers(data);
    if i == 0 {
      forall k | 0 <= k < |headers| ensures Plain(headers[k]) {
        KeyOfSomeRow(data, headers[k]);
      }
    }
  }

  lemma ExportIsRendered(data: seq<Record>)
    requires |Headers(data)| >= 1 && PlainKeys(data)
    ensures RenderCsv(ExportRecords(data)) == CsvText(data)
    ensures forall i :: 0 <= i < |ExportRecords(data)| ==> Readable(ExportRecords(data)[i])
  {
    var records := ExportRecords(data);
    var rendered := seq(|records|, i requires 0 <= i < |records| => RenderRecord(records[i]));
    forall i | 0 <= i < |records| ensures rendered[i] == CsvLines(data)[i] {
      ExportLine(data, i);
    }
    assert rendered == CsvLines(data);
    forall i | 0 <= i < |records| ensures Readable(records[i]) {
      ExportReadable(data, i);
    }
  }

  /** Reading the export back gives the headers, then for every row, in
      order, one field per header that decodes to the row's value for that
      header, a missing one read as null. This needs at least one key, and
      keys free of quotes, commas and line feeds; string values may hold anything. */
  lemma ReadBackExport(data: seq<Record>)
    requires |Headers(data)| >= 1 && PlainKeys(data)
    ensures var read := ReadCsv(CsvText(data));
      && read.Some? && |read.value| == |data| + 1
      && read.value[0] == HeaderRecord(Headers(data))
      && forall i, k :: 0 <= i < |data| && 0 <= k < |Headers(data)| ==>
           |read.value[i + 1]| == |Headers(data)|
           && Decode(read.value[i + 1][k]) == Some(Cell(Lookup(data[i], Headers(data)[k])))
  {
    ExportIsRendered(data);
    ReadCsvRendered(ExportRecords(data));
    forall v: Option<Value> ensures Decode(Encode(v)) == Some(Cell(v)) {
      DecodeEncode(v);
    }
  }

  /** The downloaded content, with its byte-order mark removed, reads back the same way. */
  lemma ReadBackContent(data: seq<Record>)
    requires |Headers(data)| >= 1 && PlainKeys(data)
    ensures CsvContent(data).Some?
    ensures var c := CsvContent(data).value;
      |c| >= 1 && c[0] == Bom && ReadCsv(c[1..]) == Some(ExportRecords(data))
  {
    ExportIsRendered(data);
    ReadCsvRendered(ExportRecords(data));
    var c := CsvContent(data).value;
    assert c[1..] == CsvText(data);
    assert |data| > 0 by {
      var h := Headers(data)[0];
      KeyOfSomeRow(data, h);
    }
  }
}
