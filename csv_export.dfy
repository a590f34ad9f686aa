/** The CSV text the web front end downloads for the extracted rows: the
    union of all keys as an unquoted header line, then one line per row with
    string values quoted and their quotes doubled, null and missing values
    empty, lines joined with a bare line feed, and a byte-order mark in front. */
module CsvExport {
  import opened Wrappers
  import opened Seqs
  import opened Text

  /** A cell of an extracted row: `string | number | null`, numbers as integers. */
  datatype Value = Str(s: string) | Num(n: int) | Null

  /** An extracted row: its properties as (key, value) pairs in `Object.keys` order. */
  type Record = seq<(string, Value)>

  /** `Object.keys(row)`. */
  function Keys(row: Record): seq<string> {
    seq(|row|, i requires 0 <= i < |row| => row[i].0)
  }

  /** `data.flatMap(row => Object.keys(row))`. */
  function AllKeys(data: seq<Record>): (ks: seq<string>)
    ensures forall k :: k in ks <==> exists r :: r in data && k in Keys(r)
    decreases |data|
  {
    if |data| == 0 then []
    else
      assert forall r :: r in data <==> r == data[0] || r in data[1..];
      Keys(data[0]) + AllKeys(data[1..])
  }

  /** `Array.from(new Set(data.flatMap(row => Object.keys(row))))`. */
  function Headers(data: seq<Record>): (hs: seq<string>)
    ensures forall k :: k in hs <==> exists r :: r in data && k in Keys(r)
    ensures forall i, j :: 0 <= i < j < |hs| ==> hs[i] != hs[j]
  {
    Distinct(AllKeys(data))
  }

  /** The headers are in the order in which their keys are first met, scanning
      the rows in order and each row's keys in order. */
  lemma HeadersInFirstSeenOrder(data: seq<Record>, i: nat, j: nat)
    requires i < j < |Headers(data)|
    ensures FirstIndex(AllKeys(data), Headers(data)[i]) < FirstIndex(AllKeys(data), Headers(data)[j])
  {
    DistinctOrder(AllKeys(data), i, j);
  }

  /** `row[key]`: the value of the first pair with that key, or nothing. */
  function Lookup(row: Record, key: string): (v: Option<Value>)
    ensures v.None? <==> key !in Keys(row)
    ensures v.Some? ==>
      exists i :: 0 <= i < |row| && row[i] == (key, v.value) && forall j :: 0 <= j < i ==> row[j].0 != key
    decreases |row|
  {
    if |row| == 0 then None
    else if row[0].0 == key then assert Keys(row)[0] == key; Some(row[0].1)
    else
      var v := Lookup(row[1..], key);
      assert Keys(row) == [row[0].0] + Keys(row[1..]);
      if v.Some? then
        var i :| 0 <= i < |row[1..]| && row[1..][i] == (key, v.value)
          && forall j :: 0 <= j < i ==> row[1..][j].0 != key;
        assert row[i + 1] == (key, v.value);
        v
      else v
  }

  // ---------------------------------------------------------------------
  // Fields

  /** `value.replace(/"/g, '""')`. */
  function Escape(s: string): string
    decreases |s|
  {
    if |s| == 0 then []
    else (if s[0] == '"' then ['"', '"'] else [s[0]]) + Escape(s[1..])
  }

  /** Escaping adds one character for every quote. */
  lemma {:induction false} EscapeLength(s: string)
    ensures |Escape(s)| == |s| + multiset(s)['"']
    decreases |s|
  {
    if |s| > 0 {
      EscapeLength(s[1..]);
      assert s == [s[0]] + s[1..];
    }
  }

  /** A string field: the escaped value between two quotes. */
  function Quote(s: string): (q: string)
    ensures |q| >= 2 && q[0] == '"' && q[|q| - 1] == '"'
  {
    "\"" + Escape(s) + "\""
  }

  /** Collapses every `""` pair back into one quote. */
  function Unescape(e: string): string
    decreases |e|
  {
    if |e| == 0 then []
    else if |e| >= 2 && e[0] == '"' && e[1] == '"' then "\"" + Unescape(e[2..])
    else [e[0]] + Unescape(e[1..])
  }

  /** Dropping the outer quotes of a string field. */
  function Unquote(q: string): Option<string> {
    if |q| >= 2 && q[0] == '"' && q[|q| - 1] == '"' then Some(Unescape(q[1..|q| - 1])) else None
  }

  lemma {:induction false} UnescapeEscape(s: string)
    ensures Unescape(Escape(s)) == s
    decreases |s|
  {
    if |s| > 0 {
      UnescapeEscape(s[1..]);
      if s[0] == '"' {
        assert Escape(s) == "\"\"" + Escape(s[1..]);
        assert ("\"\"" + Escape(s[1..]))[2..] == Escape(s[1..]);
      } else {
        assert Escape(s) == [s[0]] + Escape(s[1..]);
        assert ([s[0]] + Escape(s[1..]))[1..] == Escape(s[1..]);
      }
    }
  }

  /** Stripping the outer quotes and collapsing `""` recovers the string. */
  lemma QuoteRoundTrip(s: string)
    ensures Unquote(Quote(s)) == Some(s)
  {
    var q := Quote(s);
    assert q[1..|q| - 1] == Escape(s);
    UnescapeEscape(s);
  }

  function DigitChar(d: nat): (c: char)
    requires d < 10
  {
    ('0' as int + d) as char
  }

  function DigitValue(c: char): nat
    requires '0' <= c <= '9'
  {
    c as int - '0' as int
  }

  predicate IsDigits(s: string) {
    |s| > 0 && forall k :: 0 <= k < |s| ==> '0' <= s[k] <= '9'
  }

  /** The decimal digits of a natural number, without leading zeros. */
  function NatToString(n: nat): (r: string)
    ensures IsDigits(r)
    ensures r[0] == '0' ==> n == 0 && |r| == 1
    decreases n
  {
    if n < 10 then [DigitChar(n)] else NatToString(n / 10) + [DigitChar(n % 10)]
  }

  /** How an integer-valued JavaScript number renders in `join`: `-` for a
      negative sign, then the decimal digits. */
  function IntToString(n: int): (r: string)
    ensures |r| > 0 && forall k :: 0 <= k < |r| ==> r[k] == '-' || '0' <= r[k] <= '9'
  {
    if n < 0 then "-" + NatToString(-n) else NatToString(n)
  }

  /** The value of a string of decimal digits. */
  function ParseNat(s: string): nat
    requires forall k :: 0 <= k < |s| ==> '0' <= s[k] <= '9'
    decreases |s|
  {
    if |s| == 0 then 0 else ParseNat(s[..|s| - 1]) * 10 + DigitValue(s[|s| - 1])
  }

  /** The integer a rendered number denotes, if it is one. */
  function ParseInt(s: string): Option<int> {
    if |s| > 0 && s[0] == '-' && IsDigits(s[1..]) then Some(0 - ParseNat(s[1..]))
    else if IsDigits(s) then Some(ParseNat(s))
    else None
  }

  lemma {:induction false} ParseNatToString(n: nat)
    ensures ParseNat(NatToString(n)) == n
    decreases n
  {
    if n >= 10 {
      ParseNatToString(n / 10);
      var r := NatToString(n);
      assert r[..|r| - 1] == NatToString(n / 10);
    }
  }

  /** A rendered integer is read back as itself. */
  lemma ParseIntToString(n: int)
    ensures ParseInt(IntToString(n)) == Some(n)
  {
    if n < 0 {
      ParseNegative(-n);
    } else {
      var r := NatToString(n);
      ParseNatToString(n);
      assert IntToString(n) == r && '0' <= r[0] <= '9';
    }
  }

  lemma ParseNegative(m: nat)
    requires m > 0
    ensures ParseInt("-" + NatToString(m)) == Some(-(m as int))
  {
    var r := NatToString(m);
    ParseNatToString(m);
    assert ("-" + r)[1..] == r;
  }

  /** The field the map callback produces for `row[header]`: a string is
      quoted, a number is written as a number, null and missing are empty. */
  function Render(v: Option<Value>): (f: string)
    ensures v.Some? && v.value.Str? ==> f == Quote(v.value.s)
    ensures v.Some? && v.value.Num? ==> f == IntToString(v.value.n) && '"' !in f && ',' !in f && '\n' !in f
    ensures v.None? || v.value.Null? ==> f == ""
  {
    match v
    case Some(Str(s)) => Quote(s)
    case Some(Num(n)) => IntToString(n)
    case _ => ""
  }

  // ---------------------------------------------------------------------
  // Lines and content

  /** `headers.map(header => ...)` for one row. */
  function Fields(headers: seq<string>, row: Record): seq<string> {
    seq(|headers|, i requires 0 <= i < |headers| => Render(Lookup(row, headers[i])))
  }

  function DataLine(headers: seq<string>, row: Record): string {
    Join(Fields(headers, row), ',')
  }

  /** The array that is joined into the CSV text: the header line, then one line per row. */
  function CsvLines(data: seq<Record>): (lines: seq<string>)
    ensures |lines| == |data| + 1
    ensures lines[0] == Join(Headers(data), ',')
    ensures forall i :: 1 <= i < |lines| ==> lines[i] == DataLine(Headers(data), data[i - 1])
  {
    var headers := Headers(data);
    [Join(headers, ',')] + seq(|data|, i requires 0 <= i < |data| => DataLine(headers, data[i]))
  }

  function CsvText(data: seq<Record>): string {
    Join(CsvLines(data), '\n')
  }

  /** The byte-order mark, U+FEFF, that the export writes first. */
  const Bom: char := '\U{FEFF}'

  /** What ends up in the Blob: nothing for no rows, else the byte-order mark and the CSV text. */
  function CsvContent(data: seq<Record>): (content: Option<string>)
    ensures content.None? <==> |data| == 0
    ensures content.Some? ==> content.value == [Bom] + CsvText(data)
  {
    if |data| == 0 then None else Some([Bom] + CsvText(data))
  }

  // ---------------------------------------------------------------------
  // Line structure

  /** No key and no string value of any row holds a line feed. */
  predicate NoLineFeeds(data: seq<Record>) {
    forall r: Record :: r in data ==> forall i :: 0 <= i < |r| ==>
      '\n' !in r[i].0 && (r[i].1.Str? ==> '\n' !in r[i].1.s)
  }

  /** A header is the key of some pair of some row. */
  lemma KeyOfSomeRow(data: seq<Record>, h: string)
    requires h in Headers(data)
    ensures exists r: Record, i :: r in data && 0 <= i < |r| && r[i].0 == h
  {
    var r: Record :| r in data && h in Keys(r);
    var i :| 0 <= i < |r| && Keys(r)[i] == h;
  }

  /** Escaping adds only quotes. */
  lemma {:induction false} EscapeChars(s: string, c: char)
    requires c != '"' && c !in s
    ensures c !in Escape(s)
    decreases |s|
  {
    if |s| > 0 {
      EscapeChars(s[1..], c);
    }
  }

  lemma FieldNoLineFeed(row: Record, h: string)
    requires forall i :: 0 <= i < |row| ==> row[i].1.Str? ==> '\n' !in row[i].1.s
    ensures '\n' !in Render(Lookup(row, h))
  {
    var v := Lookup(row, h);
    if v.Some? && v.value.Str? {
      EscapeChars(v.value.s, '\n');
    }
  }

  /** Without line feeds in keys and strings, the text splits at line feeds
      into exactly the header line and one line per row, in order. */
  lemma CsvTextLines(data: seq<Record>)
    requires NoLineFeeds(data)
    ensures Split(CsvText(data), '\n') == CsvLines(data)
  {
    LinesNoLineFeed(data);
    SplitJoin(CsvLines(data), '\n');
  }

  lemma LinesNoLineFeed(data: seq<Record>)
    requires NoLineFeeds(data)
    ensures forall i :: 0 <= i < |CsvLines(data)| ==> '\n' !in CsvLines(data)[i]
  {
    HeaderLineNoLineFeed(data);
    forall i | 1 <= i < |CsvLines(data)| ensures '\n' !in CsvLines(data)[i] {
      DataLineNoLineFeed(data, i);
    }
  }

  lemma HeaderLineNoLineFeed(data: seq<Record>)
    requires NoLineFeeds(data)
    ensures '\n' !in CsvLines(data)[0]
  {
    var headers := Headers(data);
    forall k | 0 <= k < |headers| ensures '\n' !in headers[k] {
      KeyOfSomeRow(data, headers[k]);
    }
    JoinChars(headers, ',', '\n');
  }

  lemma DataLineNoLineFeed(data: seq<Record>, i: nat)
    requires NoLineFeeds(data) && 1 <= i < |CsvLines(data)|
    ensures '\n' !in CsvLines(data)[i]
  {
    var headers := Headers(data);
    var row := data[i - 1];
    var fs := Fields(headers, row);
    forall k | 0 <= k < |fs| ensures '\n' !in fs[k] {
      FieldNoLineFeed(row, headers[k]);
    }
    JoinChars(fs, ',', '\n');
  }

  /** Each data line has one field per header; when no string value holds a
      comma, splitting it at commas gives exactly the rendered fields. */
  lemma DataLineFields(headers: seq<string>, row: Record)
    requires |headers| >= 1
    requires forall i :: 0 <= i < |row| ==> row[i].1.Str? ==> ',' !in row[i].1.s
    ensures |Split(DataLine(headers, row), ',')| == |headers|
    ensures forall k :: 0 <= k < |headers| ==> Split(DataLine(headers, row), ',')[k] == Render(Lookup(row, headers[k]))
  {
    var fs := Fields(headers, row);
    forall k | 0 <= k < |fs| ensures ',' !in fs[k] {
      var v := Lookup(row, headers[k]);
      if v.Some? && v.value.Str? {
        EscapeChars(v.value.s, ',');
      }
    }
    SplitJoin(fs, ',');
  }

  /** Without commas in the keys, the header line splits back into the headers. */
  lemma HeaderLineFields(data: seq<Record>)
    requires |Headers(data)| >= 1
    requires forall r: Record :: r in data ==> forall i :: 0 <= i < |r| ==> ',' !in r[i].0
    ensures Split(CsvLines(data)[0], ',') == Headers(data)
  {
    var headers := Headers(data);
    forall k | 0 <= k < |headers| ensures ',' !in headers[k] {
      KeyOfSomeRow(data, headers[k]);
    }
    SplitJoin(headers, ',');
  }
}
