/** The text-to-table guess of the Streamlit converter: the model's free-text
    answer is stripped, cut into lines, a delimiter is chosen from the first
    line, markdown decoration is dropped, every line is split into trimmed
    cells, blank rows are dropped, and two or more surviving rows make a
    table whose first row is the header. */
module TableReconstruct {
  import opened Wrappers
  import opened Text
  import opened Seqs

  type Row = seq<string>

  datatype Delimiter = Pipe | Comma | Tab {
    function Char(): char {
      match this
      case Pipe => '|'
      case Comma => ','
      case Tab => '\t'
    }

    /** Place in the precedence order; the lower rank wins. */
    function Rank(): nat {
      match this
      case Pipe => 0
      case Comma => 1
      case Tab => 2
    }
  }

  /** The delimiter a line selects: `|` over `,` over tab, no count taken. */
  function DetectDelimiter(line: string): (d: Option<Delimiter>)
    ensures d.None? <==> forall e: Delimiter :: e.Char() !in line
    ensures d.Some? ==> d.value.Char() in line
    ensures d.Some? ==> forall e: Delimiter :: e.Rank() < d.value.Rank() ==> e.Char() !in line
  {
    if '|' in line then assert Pipe.Char() in line; Some(Pipe)
    else if ',' in line then assert Comma.Char() in line; Some(Comma)
    else if '\t' in line then assert Tab.Char() in line; Some(Tab)
    else None
  }

  /** `text.strip().split('\n')`. */
  function Lines(text: string): (lines: seq<string>)
    ensures |lines| >= 1
    ensures AllSpace(text) ==> lines == [""]
  {
    Split(Strip(text), '\n')
  }

  /** A markdown header separator as the cleaner sees it: its trimmed form starts with `|--`. */
  predicate IsSeparator(line: string) {
    StartsWith(Strip(line), "|--")
  }

  /** The lines the markdown cleaner keeps: they hold a `|` and are no separator. */
  predicate KeepPipeLine(line: string) {
    '|' in line && !IsSeparator(line)
  }

  /** `[line for line in lines if '|' in line and not line.strip().startswith('|--')]` */
  function CleanMarkdown(lines: seq<string>): (kept: seq<string>)
    ensures forall x :: x in kept ==> '|' in x && !IsSeparator(x)
  {
    Filter(KeepPipeLine, lines)
  }

  /** `[cell.strip() for cell in line.split(delimiter)]`. */
  function SplitRow(line: string, d: Delimiter): (row: Row)
    ensures |row| >= 1
  {
    var parts := Split(line, d.Char());
    seq(|parts|, i requires 0 <= i < |parts| => Strip(parts[i]))
  }

  /** A row has one more cell than its line has delimiters. */
  lemma SplitRowCount(line: string, d: Delimiter)
    ensures |SplitRow(line, d)| == multiset(line)[d.Char()] + 1
  {
    SplitCount(line, d.Char());
  }

  function Tokenize(lines: seq<string>, d: Delimiter): (rows: seq<Row>)
    ensures |rows| == |lines|
  {
    seq(|lines|, i requires 0 <= i < |lines| => SplitRow(lines[i], d))
  }

  /** `any(cell.strip() for cell in row)`. */
  predicate HasContent(row: Row) {
    exists i :: 0 <= i < |row| && Strip(row[i]) != []
  }

  /** `[row for row in data if any(cell.strip() for cell in row)]`. */
  function DropBlank(rows: seq<Row>): (kept: seq<Row>)
    ensures forall row :: row in kept ==> HasContent(row)
  {
    Filter(HasContent, rows)
  }

  /** The rows that survive for a chosen delimiter: lines are cleaned only
      for the pipe, then tokenised, then blank rows go. */
  function SurvivingRows(lines: seq<string>, d: Delimiter): seq<Row> {
    var kept := if d == Pipe then CleanMarkdown(lines) else lines;
    DropBlank(Tokenize(kept, d))
  }

  /** What the reconstruction decides: a table, or one of the two
      "not a table" outcomes (no delimiter on the first line; fewer than two rows). */
  datatype Outcome =
    | Table(header: Row, body: seq<Row>)
    | NotTableFormat
    | NotStandardTable

  /** The whole reconstruction, lines 212-230 and their `else` branches. */
  function Reconstruct(text: string): (o: Outcome)
    ensures o.NotTableFormat? <==> DetectDelimiter(Lines(text)[0]).None?
    ensures o.Table? ==> |o.body| >= 1 && HasContent(o.header)
    ensures o.Table? ==> forall row :: row in o.body ==> HasContent(row)
  {
    var lines := Lines(text);
    match DetectDelimiter(lines[0])
    case None => NotTableFormat
    case Some(d) =>
      var rows := SurvivingRows(lines, d);
      if |rows| > 1 then Table(rows[0], rows[1..]) else NotStandardTable
  }

  // ---------------------------------------------------------------------
  // The delimiter is taken from the first line only

  /** Dropping trailing whitespace never reaches into a part that still has content. */
  lemma {:induction false} RStripAppend(a: string, b: string)
    requires !AllSpace(b)
    ensures RStrip(a + b) == a + RStrip(b)
    decreases |b|
  {
    var b' := b[..|b| - 1];
    assert (a + b)[..|a + b| - 1] == a + b';
    if IsSpace(b[|b| - 1]) {
      assert !AllSpace(b') by {
        var k :| 0 <= k < |b| && !IsSpace(b[k]);
        assert b'[k] == b[k];
      }
      RStripAppend(a, b');
    }
  }

  /** When the text starts with a first line whose first character is not
      whitespace, and has content after it, that line alone decides the
      delimiter and whether a table is tried, whatever the later lines hold. */
  lemma FirstLineDecides(first: string, rest: string)
    requires '\n' !in first && |first| > 0 && !IsSpace(first[0])
    requires !AllSpace(rest)
    ensures Lines(first + "\n" + rest)[0] == first
    ensures Reconstruct(first + "\n" + rest).NotTableFormat? <==> DetectDelimiter(first).None?
  {
    var text := first + "\n" + rest;
    assert text == first + ("\n" + rest);
    assert LStrip(text) == text;
    RStripAppend(first + "\n", rest);
    assert Strip(text) == first + ['\n'] + RStrip(rest);
    SplitPrefix(first, RStrip(rest), '\n');
  }

  /** Leading whitespace goes with the strip of the whole text: a first line
      that starts with a tab (a tab-separated header whose first cell is
      empty) reaches the delimiter test without that tab. */
  lemma LeadingTabStripped(w: string, rest: string)
    requires '\n' !in w && |w| > 0 && !IsSpace(w[0])
    requires !AllSpace(rest)
    ensures Lines("\t" + w + "\n" + rest)[0] == w
  {
    var text := "\t" + w + "\n" + rest;
    assert text[..1] == "\t" && text[1] == w[0];
    LStripAt(text, 1);
    assert text[1..] == w + "\n" + rest;
    LStripAt(text[1..], 0);
    assert Strip(text) == Strip(text[1..]);
    FirstLineDecides(w, rest);
  }

  /** The lines of a text whose stripped form joins the given newline-free pieces are those pieces. */
  lemma LinesFromPieces(text: string, pieces: seq<string>)
    requires |pieces| >= 1 && forall i :: 0 <= i < |pieces| ==> '\n' !in pieces[i]
    requires Join(pieces, '\n') == Strip(text)
    ensures Lines(text) == pieces
  {
    SplitJoin(pieces, '\n');
  }

  /** Empty or whitespace-only text never attempts a table. */
  lemma BlankTextIsNotTable(text: string)
    requires AllSpace(text)
    ensures Lines(text) == [""]
    ensures Reconstruct(text) == NotTableFormat
  {
  }

  /** Delimiter detection looks only at the first line, whose characters all
      come from the text: a text with no pipe, comma or tab anywhere is never a table. */
  lemma NoDelimiterIsNotTable(text: string)
    requires forall e: Delimiter :: e.Char() !in text
    ensures Reconstruct(text) == NotTableFormat
  {
    var first := Lines(text)[0];
    forall e: Delimiter
      ensures e.Char() !in first
    {
      if e.Char() in first {
        SplitChars(Strip(text), '\n', 0, e.Char());
        StripChars(text, e.Char());
      }
    }
  }

  // ---------------------------------------------------------------------
  // Markdown cleaning

  /** The cleaner works line by line and keeps the order: cleaning a
      concatenation is cleaning each part, and one line is kept exactly when
      it holds a `|` and its trimmed form does not start with `|--`. */
  lemma CleanMarkdownAppend(a: seq<string>, b: seq<string>)
    ensures CleanMarkdown(a + b) == CleanMarkdown(a) + CleanMarkdown(b)
  {
    FilterAppend(KeepPipeLine, a, b);
  }

  lemma CleanMarkdownLine(line: string)
    ensures CleanMarkdown([line]) == if '|' in line && !IsSeparator(line) then [line] else []
  {
    FilterSingleton(KeepPipeLine, line);
  }

  /** A line is a separator exactly when the three characters starting at its
      first non-blank character are `|--`. */
  lemma SeparatorByFirstChars(line: string, i: nat)
    requires i < |line| && AllSpace(line[..i]) && !IsSpace(line[i])
    ensures IsSeparator(line) <==> i + 3 <= |line| && line[i..i + 3] == "|--"
  {
    LStripAt(line, i);
    assert Strip(line) == RStrip(line[i..]);
    StartsWithRStrip(line[i..], "|--");
    if i + 3 <= |line| {
      assert line[i..][..3] == line[i..i + 3];
    }
  }

  // ---------------------------------------------------------------------
  // Splitting into cells

  /** The cells of a line are the trimmed pieces of its unique decomposition
      into delimiter-free pieces joined by the delimiter: no quoting, and
      empty leading and trailing pieces stay as empty cells. */
  lemma SplitRowCharacterization(line: string, d: Delimiter, pieces: seq<string>)
    requires |pieces| >= 1
    requires forall i :: 0 <= i < |pieces| ==> d.Char() !in pieces[i]
    requires Join(pieces, d.Char()) == line
    ensures |SplitRow(line, d)| == |pieces|
    ensures forall i :: 0 <= i < |pieces| ==> SplitRow(line, d)[i] == Strip(pieces[i])
  {
    SplitJoin(pieces, d.Char());
  }

  /** Each cell is trimmed: stripping it again changes nothing. */
  lemma SplitRowCellsTrimmed(line: string, d: Delimiter)
    ensures forall i :: 0 <= i < |SplitRow(line, d)| ==> Strip(SplitRow(line, d)[i]) == SplitRow(line, d)[i]
  {
    var parts := Split(line, d.Char());
    var row := SplitRow(line, d);
    forall i | 0 <= i < |row| ensures Strip(row[i]) == row[i] {
      assert row[i] == Strip(parts[i]);
      StripIdempotent(parts[i]);
    }
  }

  /** A line built from already-trimmed, delimiter-free cells splits back into exactly those cells. */
  lemma SplitRowOfTrimmedCells(line: string, d: Delimiter, cells: seq<string>)
    requires |cells| >= 1
    requires forall i :: 0 <= i < |cells| ==> d.Char() !in cells[i] && Strip(cells[i]) == cells[i]
    requires Join(cells, d.Char()) == line
    ensures SplitRow(line, d) == cells
  {
    SplitRowCharacterization(line, d, cells);
  }

  // ---------------------------------------------------------------------
  // Dropping blank rows

  /** Blank-row dropping keeps the order of the rows it keeps. */
  lemma DropBlankAppend(a: seq<Row>, b: seq<Row>)
    ensures DropBlank(a + b) == DropBlank(a) + DropBlank(b)
  {
    FilterAppend(HasContent, a, b);
  }

  /** A row is dropped exactly when every cell is blank. */
  lemma DropBlankRow(row: Row)
    ensures DropBlank([row]) == if forall i :: 0 <= i < |row| ==> AllSpace(row[i]) then [] else [row]
  {
    FilterSingleton(HasContent, row);
  }

  /** Every piece of an all-whitespace string is all whitespace. */
  lemma {:induction false} SplitAllSpace(s: string, sep: char)
    requires AllSpace(s)
    ensures forall i :: 0 <= i < |Split(s, sep)| ==> AllSpace(Split(s, sep)[i])
    decreases |s|
  {
    if |s| > 0 {
      SplitAllSpace(s[1..], sep);
      var rest := Split(s[1..], sep);
      if s[0] != sep {
        var parts := Split(s, sep);
        assert parts[0] == [s[0]] + rest[0];
        forall i | 1 <= i < |parts| ensures AllSpace(parts[i]) {
          assert parts[i] == rest[i];
        }
      }
    }
  }

  /** A blank line yields a blank row. */
  lemma BlankLineBlankRow(line: string, d: Delimiter)
    requires AllSpace(line)
    ensures !HasContent(SplitRow(line, d))
  {
    SplitAllSpace(line, d.Char());
  }

  predicate NonBlankLine(line: string) {
    !AllSpace(line)
  }

  /** Each surviving row comes from its own non-blank line. */
  lemma {:induction false} SurvivorsAtMostNonBlankLines(lines: seq<string>, d: Delimiter)
    ensures |DropBlank(Tokenize(lines, d))| <= |Filter(NonBlankLine, lines)|
    decreases |lines|
  {
    if |lines| > 0 {
      var rows := Tokenize(lines, d);
      assert rows == [SplitRow(lines[0], d)] + Tokenize(lines[1..], d);
      DropBlankAppend([SplitRow(lines[0], d)], Tokenize(lines[1..], d));
      SurvivorsAtMostNonBlankLines(lines[1..], d);
      if AllSpace(lines[0]) {
        BlankLineBlankRow(lines[0], d);
        FilterSingleton(HasContent, SplitRow(lines[0], d));
      }
    }
  }

  /** Text with at most one non-blank line never becomes a table. */
  lemma AtMostOneNonBlankLineIsNotTable(text: string)
    requires |Filter(NonBlankLine, Lines(text))| <= 1
    ensures !Reconstruct(text).Table?
  {
    var lines := Lines(text);
    if DetectDelimiter(lines[0]).Some? {
      var d := DetectDelimiter(lines[0]).value;
      SurvivorsAtMostNonBlank(lines, d);
      TableThreshold(text, d);
    }
  }

  /** Whatever the delimiter, no more rows survive than there are non-blank lines. */
  lemma SurvivorsAtMostNonBlank(lines: seq<string>, d: Delimiter)
    ensures |SurvivingRows(lines, d)| <= |Filter(NonBlankLine, lines)|
  {
    if d == Pipe {
      SurvivorsAtMostNonBlankLines(CleanMarkdown(lines), d);
      FilterOfFilterShorter(KeepPipeLine, NonBlankLine, lines);
    } else {
      SurvivorsAtMostNonBlankLines(lines, d);
    }
  }

  // ---------------------------------------------------------------------
  // The table decision

  /** Once a delimiter is found, a table comes out exactly when two or more
      rows survive; its header is the first survivor and its body the rest,
      in order; otherwise the "not a standard table" outcome. */
  lemma TableThreshold(text: string, d: Delimiter)
    requires DetectDelimiter(Lines(text)[0]) == Some(d)
    ensures var rows := SurvivingRows(Lines(text), d);
      && (Reconstruct(text).Table? <==> |rows| >= 2)
      && (Reconstruct(text).Table? ==> Reconstruct(text).header == rows[0] && Reconstruct(text).body == rows[1..])
      && (|rows| < 2 ==> Reconstruct(text) == NotStandardTable)
  {
  }

  /** With comma or tab no line is removed before tokenising: a survivor is
      the row of some line, and any line whose row has content contributes it. */
  lemma CommaOrTabKeepsEveryLine(lines: seq<string>, d: Delimiter)
    requires d != Pipe
    ensures forall row :: row in SurvivingRows(lines, d) ==> exists i :: 0 <= i < |lines| && row == SplitRow(lines[i], d)
    ensures forall i :: 0 <= i < |lines| && HasContent(SplitRow(lines[i], d)) ==> SplitRow(lines[i], d) in SurvivingRows(lines, d)
  {
    var rows := Tokenize(lines, d);
    forall i | 0 <= i < |lines| && HasContent(SplitRow(lines[i], d))
      ensures SplitRow(lines[i], d) in SurvivingRows(lines, d)
    {
      assert rows[i] == SplitRow(lines[i], d);
    }
  }
}
