/** Worked inputs for the table reconstruction: which separator spellings the
    cleaner removes, and three example conversions (a markdown table, a CSV
    block, and a CSV block with a blank line inside), for any cell words. */
module TableScenarios {
  import opened Wrappers
  import opened Text
  import opened Seqs
  import opened TableReconstruct

  // ---------------------------------------------------------------------
  // Separator spellings

  const PlainSeparator: string := "|---|---|"
  const Indent: string := "  "
  const IndentedSeparator: string := Indent + "|--:|:--|"
  const SpacedSeparator: string := "| --- | --- |"
  const AlignedSeparator: string := "|:--|:--|"
  const OuterlessSeparator: string := "---|---"

  /** The `|--` test catches the plain separator row ... */
  lemma PlainSeparatorIsCleaned()
    ensures IsSeparator(PlainSeparator)
  {
    var s := PlainSeparator;
    assert s[..0] == [];
    SeparatorByFirstChars(s, 0);
    assert s[0..3] == "|--";
  }

  /** ... also when it is indented. */
  lemma IndentedSeparatorIsCleaned()
    ensures IsSeparator(IndentedSeparator)
  {
    var t := IndentedSeparator;
    assert AllSpace(Indent) && t[..2] == Indent;
    assert t[2] == '|';
    SeparatorByFirstChars(t, 2);
    assert t[2..5] == "|--";
  }

  /** Separator spellings the `|--` test lets through: spaced dashes, ... */
  lemma SpacedSeparatorIsKept()
    ensures KeepPipeLine(SpacedSeparator)
  {
    var s := SpacedSeparator;
    assert s[..0] == [];
    SeparatorByFirstChars(s, 0);
    assert s[1] == ' ' && s[0] == '|';
  }

  /** ... alignment colons, ... */
  lemma AlignedSeparatorIsKept()
    ensures KeepPipeLine(AlignedSeparator)
  {
    var t := AlignedSeparator;
    assert t[..0] == [];
    SeparatorByFirstChars(t, 0);
    assert t[1] == ':' && t[0] == '|';
  }

  /** ... and a separator without outer pipes. */
  lemma OuterlessSeparatorIsKept()
    ensures KeepPipeLine(OuterlessSeparator)
  {
    var u := OuterlessSeparator;
    assert u[..0] == [];
    SeparatorByFirstChars(u, 0);
    assert u[0] == '-' && u[3] == '|';
  }

  // ---------------------------------------------------------------------
  // Small steps shared by the worked examples. Each states one unfolding of
  // `Tokenize` or `Join` on a short list, so that the examples below do not
  // unfold those definitions in a large proof context.

  lemma TokenizeThree(a: string, b: string, c: string, d: Delimiter)
    ensures Tokenize([a, b, c], d) == [SplitRow(a, d), SplitRow(b, d), SplitRow(c, d)]
  {
  }

  lemma TokenizeTwo(a: string, b: string, d: Delimiter)
    ensures Tokenize([a, b], d) == [SplitRow(a, d), SplitRow(b, d)]
  {
  }

  lemma DropBlankKeepAll(r0: Row, r1: Row, r2: Row)
    requires HasContent(r0) && HasContent(r1) && HasContent(r2)
    ensures DropBlank([r0, r1, r2]) == [r0, r1, r2]
  {
    EveryOfThree(HasContent, r0, r1, r2);
    FilterKeepsAll(HasContent, [r0, r1, r2]);
  }

  lemma DropBlankMiddle(r0: Row, r1: Row, r2: Row)
    requires HasContent(r0) && !HasContent(r1) && HasContent(r2)
    ensures DropBlank([r0, r1, r2]) == [r0, r2]
  {
    FilterDropsMiddle(HasContent, r0, r1, r2);
  }

  lemma DropBlankTwo(r0: Row, r1: Row)
    requires HasContent(r0) && HasContent(r1)
    ensures DropBlank([r0, r1]) == [r0, r1]
  {
    EveryOfTwo(HasContent, r0, r1);
    FilterKeepsAll(HasContent, [r0, r1]);
  }

  lemma CleanKeepDropKeep(a: string, b: string, c: string)
    requires KeepPipeLine(a) && !KeepPipeLine(b) && KeepPipeLine(c)
    ensures CleanMarkdown([a, b, c]) == [a, c]
  {
    assert [a, b, c] == [a] + [b] + [c];
    CleanMarkdownAppend([a] + [b], [c]);
    CleanMarkdownAppend([a], [b]);
    CleanMarkdownLine(a);
    CleanMarkdownLine(b);
    CleanMarkdownLine(c);
  }

  lemma TableOfRows(text: string, d: Delimiter, rows: seq<Row>)
    requires DetectDelimiter(Lines(text)[0]) == Some(d)
    requires SurvivingRows(Lines(text), d) == rows && |rows| >= 2
    ensures Reconstruct(text) == Table(rows[0], rows[1..])
  {
  }

  lemma JoinThree(p: seq<string>, sep: char)
    requires |p| == 3
    ensures Join(p, sep) == p[0] + [sep] + p[1] + [sep] + p[2]
  {
    assert Join(p[2..], sep) == p[2];
  }

  lemma JoinTwo(p: seq<string>, sep: char)
    requires |p| == 2
    ensures Join(p, sep) == p[0] + [sep] + p[1]
  {
    assert Join(p[1..], sep) == p[1];
  }

  // ---------------------------------------------------------------------
  // Cells for the worked examples: any non-empty text without whitespace
  // or delimiters

  predicate Word(w: string) {
    |w| > 0 && forall k :: 0 <= k < |w| ==> !IsSpace(w[k]) && w[k] != '|' && w[k] != ',' && w[k] != '\t'
  }

  lemma WordFacts(w: string)
    requires Word(w)
    ensures Strip(w) == w && Strip(w) != []
    ensures '\n' !in w && '|' !in w && ',' !in w && '\t' !in w
  {
    StripTrimmed(w);
    assert IsSpace('\n');
  }

  /** `a,b` splits on the comma into the two words. */
  lemma CommaPair(a: string, b: string)
    requires Word(a) && Word(b)
    ensures SplitRow(a + "," + b, Comma) == [a, b]
    ensures HasContent([a, b])
    ensures '\n' !in a + "," + b && '|' !in a + "," + b
    ensures DetectDelimiter(a + "," + b) == Some(Comma)
  {
    CommaPairRow(a, b);
    CommaPairChars(a, b);
  }

  lemma CommaPairRow(a: string, b: string)
    requires Word(a) && Word(b)
    ensures SplitRow(a + "," + b, Comma) == [a, b] && HasContent([a, b])
  {
    WordFacts(a); WordFacts(b);
    JoinTwo([a, b], ',');
    EveryOfTwo(x => ',' !in x && Strip(x) == x, a, b);
    SplitRowOfTrimmedCells(a + "," + b, Comma, [a, b]);
    assert [a, b][0] == a;
  }

  lemma CommaPairChars(a: string, b: string)
    requires Word(a) && Word(b)
    ensures '\n' !in a + "," + b && '|' !in a + "," + b
    ensures DetectDelimiter(a + "," + b) == Some(Comma)
  {
    WordFacts(a); WordFacts(b);
    assert (a + "," + b)[|a|] == ',';
  }

  /** `a|b|c` splits on the pipes into the three words ... */
  lemma PipeTriple(a: string, b: string, c: string)
    requires Word(a) && Word(b) && Word(c)
    ensures SplitRow(a + "|" + b + "|" + c, Pipe) == [a, b, c]
    ensures HasContent([a, b, c])
    ensures '\n' !in a + "|" + b + "|" + c
  {
    PipeTripleOfWords(a, b, c);
    FirstWordContent(a, [a, b, c]);
    PipeTripleNoLineFeed(a, b, c);
  }

  lemma PipeTripleOfWords(a: string, b: string, c: string)
    requires Word(a) && Word(b) && Word(c)
    ensures SplitRow(a + "|" + b + "|" + c, Pipe) == [a, b, c]
  {
    WordFacts(a); WordFacts(b); WordFacts(c);
    PipeTripleRow(a, b, c);
  }

  lemma PipeTripleNoLineFeed(a: string, b: string, c: string)
    requires Word(a) && Word(b) && Word(c)
    ensures '\n' !in a + "|" + b + "|" + c
  {
    WordFacts(a); WordFacts(b); WordFacts(c);
  }

  /** A row whose first cell is a word has content. */
  lemma FirstWordContent(w: string, row: Row)
    requires Word(w) && |row| > 0 && row[0] == w
    ensures HasContent(row)
  {
    WordFacts(w);
  }

  lemma PipeTripleRow(a: string, b: string, c: string)
    requires Strip(a) == a && Strip(b) == b && Strip(c) == c
    requires '|' !in a && '|' !in b && '|' !in c
    ensures SplitRow(a + "|" + b + "|" + c, Pipe) == [a, b, c]
  {
    var cells := [a, b, c];
    JoinThree(cells, '|');
    EveryOfThree(x => '|' !in x && Strip(x) == x, a, b, c);
    SplitRowOfTrimmedCells(a + "|" + b + "|" + c, Pipe, cells);
  }

  /** ... and survives the cleaner. */
  lemma PipeTripleKept(a: string, b: string, c: string)
    requires Word(a) && Word(b) && Word(c)
    ensures KeepPipeLine(a + "|" + b + "|" + c)
    ensures DetectDelimiter(a + "|" + b + "|" + c) == Some(Pipe)
  {
    var line := a + "|" + b + "|" + c;
    assert line[|a|] == '|';
    assert line[..0] == [];
    assert line[0] == a[0] && !IsSpace(a[0]) && a[0] != '|';
    SeparatorByFirstChars(line, 0);
  }

  // ---------------------------------------------------------------------
  // Texts of three lines, each followed by a newline

  function ThreeLines(l0: string, l1: string, l2: string): string {
    l0 + "\n" + l1 + "\n" + l2 + "\n"
  }

  function CommaLine(a: string, b: string): string {
    a + "," + b
  }

  function PipeLine(a: string, b: string, c: string): string {
    a + "|" + b + "|" + c
  }

  /** A line that may open or close a text: non-empty, no newline, no blank at either end. */
  predicate Edge(l: string) {
    |l| > 0 && '\n' !in l && !IsSpace(l[0]) && !IsSpace(l[|l| - 1])
  }

  /** The lines of such a text are the three lines themselves. */
  lemma LinesOfThree(l0: string, l1: string, l2: string)
    requires Edge(l0) && Edge(l2) && '\n' !in l1
    ensures Lines(ThreeLines(l0, l1, l2)) == [l0, l1, l2]
  {
    var text := ThreeLines(l0, l1, l2);
    var body := l0 + "\n" + l1 + "\n" + l2;
    assert text == body + "\n";
    assert text[..0] == [] && text[|body|..] == "\n" && text[0..|body|] == body;
    assert body[0] == l0[0];
    assert body[|body| - 1] == l2[|l2| - 1];
    StripCharacterization(text, 0, |body|);
    JoinThree([l0, l1, l2], '\n');
    LinesFromPieces(text, [l0, l1, l2]);
  }

  /** A comma line of two words: its row, its delimiter, and its edges. */
  lemma CommaLineFacts(a: string, b: string)
    requires Word(a) && Word(b)
    ensures SplitRow(CommaLine(a, b), Comma) == [a, b] && HasContent([a, b])
    ensures DetectDelimiter(CommaLine(a, b)) == Some(Comma)
    ensures Edge(CommaLine(a, b))
  {
    var l := CommaLine(a, b);
    CommaPair(a, b);
    assert l[0] == a[0] && l[|l| - 1] == b[|b| - 1];
  }

  /** A pipe line of three words: its row, its delimiter, and its edges. */
  lemma PipeLineFacts(a: string, b: string, c: string)
    requires Word(a) && Word(b) && Word(c)
    ensures SplitRow(PipeLine(a, b, c), Pipe) == [a, b, c] && HasContent([a, b, c])
    ensures KeepPipeLine(PipeLine(a, b, c))
    ensures DetectDelimiter(PipeLine(a, b, c)) == Some(Pipe)
    ensures Edge(PipeLine(a, b, c))
  {
    var l := PipeLine(a, b, c);
    PipeTriple(a, b, c);
    PipeTripleKept(a, b, c);
    assert l[0] == a[0] && l[|l| - 1] == c[|c| - 1];
  }

  /** Without the markdown cleaner, the surviving rows are the non-blank tokenized rows. */
  lemma SurvivingUncleaned(lines: seq<string>, d: Delimiter, rows: seq<Row>)
    requires d != Pipe && Tokenize(lines, d) == rows
    ensures SurvivingRows(lines, d) == DropBlank(rows)
  {
  }

  /** Three comma (or tab) lines whose rows all have content all survive. */
  lemma RowsOfThree(x: string, y: string, z: string, d: Delimiter, r0: Row, r1: Row, r2: Row)
    requires d != Pipe
    requires SplitRow(x, d) == r0 && SplitRow(y, d) == r1 && SplitRow(z, d) == r2
    requires HasContent(r0) && HasContent(r1) && HasContent(r2)
    ensures SurvivingRows([x, y, z], d) == [r0, r1, r2]
  {
    TokenizeThree(x, y, z, d);
    SurvivingUncleaned([x, y, z], d, [r0, r1, r2]);
    DropBlankKeepAll(r0, r1, r2);
  }

  /** Of three comma (or tab) lines, a middle one with a blank row is dropped. */
  lemma RowsOfKeepDropKeep(x: string, y: string, z: string, d: Delimiter, r0: Row, r1: Row, r2: Row)
    requires d != Pipe
    requires SplitRow(x, d) == r0 && SplitRow(y, d) == r1 && SplitRow(z, d) == r2
    requires HasContent(r0) && !HasContent(r1) && HasContent(r2)
    ensures SurvivingRows([x, y, z], d) == [r0, r2]
  {
    TokenizeThree(x, y, z, d);
    SurvivingUncleaned([x, y, z], d, [r0, r1, r2]);
    DropBlankMiddle(r0, r1, r2);
  }

  /** Of three pipe lines, a middle one the cleaner removes is gone before splitting. */
  lemma RowsOfCleanedMiddle(x: string, y: string, z: string, r0: Row, r2: Row)
    requires KeepPipeLine(x) && !KeepPipeLine(y) && KeepPipeLine(z)
    requires SplitRow(x, Pipe) == r0 && SplitRow(z, Pipe) == r2
    requires HasContent(r0) && HasContent(r2)
    ensures SurvivingRows([x, y, z], Pipe) == [r0, r2]
  {
    CleanKeepDropKeep(x, y, z);
    TokenizeTwo(x, z, Pipe);
    DropBlankTwo(r0, r2);
  }

  // ---------------------------------------------------------------------
  // Example A: a markdown table with a separator row

  const SeparatorRow := "|---|---|---|"

  lemma SeparatorRowFacts()
    ensures IsSeparator(SeparatorRow) && !KeepPipeLine(SeparatorRow) && '\n' !in SeparatorRow
  {
    var s := SeparatorRow;
    assert s[..0] == [];
    SeparatorByFirstChars(s, 0);
    assert s[0..3] == "|--";
  }

  /** `h1|h2|h3`, the separator row, `v1|v2|v3`: the separator goes, the
      header and the one data row stay. */
  lemma ExampleMarkdownTable(h1: string, h2: string, h3: string, v1: string, v2: string, v3: string)
    requires Word(h1) && Word(h2) && Word(h3) && Word(v1) && Word(v2) && Word(v3)
    ensures Reconstruct(ThreeLines(PipeLine(h1, h2, h3), SeparatorRow, PipeLine(v1, v2, v3)))
         == Table([h1, h2, h3], [[v1, v2, v3]])
  {
    var l0, l2 := PipeLine(h1, h2, h3), PipeLine(v1, v2, v3);
    PipeLineFacts(h1, h2, h3);
    PipeLineFacts(v1, v2, v3);
    SeparatorRowFacts();
    LinesOfThree(l0, SeparatorRow, l2);
    RowsOfCleanedMiddle(l0, SeparatorRow, l2, [h1, h2, h3], [v1, v2, v3]);
    TableOfRows(ThreeLines(l0, SeparatorRow, l2), Pipe, [[h1, h2, h3], [v1, v2, v3]]);
    assert [[h1, h2, h3], [v1, v2, v3]][1..] == [[v1, v2, v3]];
  }

  // ---------------------------------------------------------------------
  // Example B: comma-separated lines

  /** `n1,n2`, `a1,a2`, `b1,b2`: every line is a row, the first the header. */
  lemma ExampleCommaTable(n1: string, n2: string, a1: string, a2: string, b1: string, b2: string)
    requires Word(n1) && Word(n2) && Word(a1) && Word(a2) && Word(b1) && Word(b2)
    ensures Reconstruct(ThreeLines(CommaLine(n1, n2), CommaLine(a1, a2), CommaLine(b1, b2)))
         == Table([n1, n2], [[a1, a2], [b1, b2]])
  {
    var l0, l1, l2 := CommaLine(n1, n2), CommaLine(a1, a2), CommaLine(b1, b2);
    CommaLineFacts(n1, n2);
    CommaLineFacts(a1, a2);
    CommaLineFacts(b1, b2);
    LinesOfThree(l0, l1, l2);
    RowsOfThree(l0, l1, l2, Comma, [n1, n2], [a1, a2], [b1, b2]);
    TableOfRows(ThreeLines(l0, l1, l2), Comma, [[n1, n2], [a1, a2], [b1, b2]]);
    assert [[n1, n2], [a1, a2], [b1, b2]][1..] == [[a1, a2], [b1, b2]];
  }

  // ---------------------------------------------------------------------
  // Example D: a blank line between two comma rows

  const EmptyLine: string := ""
  const BlankRow: Row := [EmptyLine]

  lemma EmptyLineRow()
    ensures SplitRow(EmptyLine, Comma) == BlankRow && !HasContent(BlankRow) && '\n' !in EmptyLine
  {
    StripTrimmed(EmptyLine);
    SplitRowOfTrimmedCells(EmptyLine, Comma, BlankRow);
  }

  /** `a,b`, an empty line, `c,d`: the blank line gives a blank row, which is dropped. */
  lemma ExampleBlankLineDropped(a: string, b: string, c: string, d: string)
    requires Word(a) && Word(b) && Word(c) && Word(d)
    ensures Reconstruct(ThreeLines(CommaLine(a, b), EmptyLine, CommaLine(c, d))) == Table([a, b], [[c, d]])
  {
    var l0, l2 := CommaLine(a, b), CommaLine(c, d);
    CommaLineFacts(a, b);
    CommaLineFacts(c, d);
    EmptyLineRow();
    LinesOfThree(l0, EmptyLine, l2);
    RowsOfKeepDropKeep(l0, EmptyLine, l2, Comma, [a, b], BlankRow, [c, d]);
    TableOfRows(ThreeLines(l0, EmptyLine, l2), Comma, [[a, b], [c, d]]);
    assert [[a, b], [c, d]][1..] == [[c, d]];
  }
}
