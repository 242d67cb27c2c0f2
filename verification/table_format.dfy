/** The formatter: it aligns the pipes, keeps the meaning and is idempotent. */
module TableFormat {
  import opened Seqs
  import opened Text
  import opened Lines
  import opened Containers
  import opened MarkdownTable
  import opened TableText
  import opened TableEdits

  function Spaces(n: int): (s: string)
    ensures AllSpace(s) && OneLine(s) && '\n' !in s
  {
    if n <= 0 then "" else Repeated(' ', n)
  }

  function PadEnd(s: string, width: nat): string {
    s + Spaces(width - |s|)
  }

  /** The longest cell text of a column. */
  function ContentWidth(rows: seq<Row>, column: nat): (w: nat)
    ensures forall i :: 0 <= i < |rows| ==> |CellText(rows[i], column)| <= w
  {
    if rows == [] then 0
    else
      Uncons(rows);
      Max(|CellText(rows[0], column)|, ContentWidth(rows[1..], column))
  }

  function AlignmentAt(t: Table, column: nat): Alignment {
    if column < |t.alignments| then t.alignments[column] else Unaligned
  }

  function Widths(t: Table): (widths: seq<nat>)
    ensures |widths| == t.columnCount
  {
    seq(t.columnCount, j requires 0 <= j =>
      var w: nat := Max(ContentWidth(SemanticRows(t), j), MinimumWidth(AlignmentAt(t, j))); w)
  }

  function CanonicalFormattedRow(prefix: string, values: seq<string>): string {
    prefix + "| " + Join(values, " | ") + " |"
  }

  function FormattedValues(row: Row, widths: seq<nat>): (values: seq<string>)
    ensures |values| == |widths|
  {
    seq(|widths|, j requires 0 <= j < |widths| => PadEnd(CellText(row, j), widths[j]))
  }

  function DelimiterValues(t: Table): (values: seq<string>)
    ensures |values| == t.columnCount
  {
    seq(t.columnCount, j requires 0 <= j < t.columnCount => DelimiterMarker(AlignmentAt(t, j), Widths(t)[j]))
  }

  function FormatDataRow(row: Row, widths: seq<nat>): string {
    CanonicalFormattedRow(row.prefix, FormattedValues(row, widths))
  }

  function FormattedLines(t: Table): (lines: seq<string>)
    ensures |lines| == 2 + |t.body|
  {
    [FormatDataRow(t.header, Widths(t)), CanonicalFormattedRow(t.delimiter.prefix, DelimiterValues(t))]
    + seq(|t.body|, i requires 0 <= i < |t.body| => FormatDataRow(t.body[i], Widths(t)))
  }

  function FormatTable(t: Table): string {
    Terminate(FormattedLines(t), Ending(t.crlf), t.trailingNewline)
  }

  // ---------------------------------------------------------------- what the formatter needs

  /** A row, possibly too short, of a parsed table. */
  predicate LooseRow(row: Row, columnCount: nat) {
    && |row.cells| <= columnCount
    && StablePrefix(row.prefix) && '\n' !in row.prefix
    && forall j :: 0 <= j < |row.cells| ==> LooseText(row.cells[j].markdown, row.prefix)
  }

  predicate LooseText(s: string, prefix: string) {
    Sealed(s) && Trimmed(s) && '\n' !in s && (AllSpace(prefix) || OneLine(s))
  }

  predicate Loose(t: Table) {
    && t.columnCount > 0 && |t.alignments| == t.columnCount
    && forall i :: 0 <= i < |Rows(t)| ==> LooseRow(Rows(t)[i], t.columnCount)
  }

  lemma SealedShift(before: string, s: string, after: string)
    requires AllSpace(before) && AllSpace(after)
    ensures Sealed(before + s + after) <==> Sealed(s)
  {
    var raw := before + s + after;
    forall i | 0 <= i < |s| ensures TailRun(raw[..|before| + i]) == TailRun(s[..i]) {
      TailRunAfterSpace(before, s[..i]);
      assert raw[..|before| + i] == before + s[..i];
    }
    assert !IsSpace('|');
    assert forall i :: 0 <= i < |before| ==> raw[i] == before[i];
    assert forall i :: |before| + |s| <= i < |raw| ==> raw[i] == after[i - |before| - |s|];
    if Sealed(raw) {
      forall i | 0 <= i < |s| && s[i] == '|' ensures OddTail(s[..i]) {
        assert raw[|before| + i] == '|';
      }
    }
    if Sealed(s) {
      forall i | 0 <= i < |raw| && raw[i] == '|' ensures OddTail(raw[..i]) {
        assert |before| <= i < |before| + |s|;
        assert raw[..|before| + (i - |before|)] == raw[..i];
      }
    }
  }

  lemma ParsedCellLoose(c: Cell, prefix: string)
    requires ParsedCell(c) && (AllSpace(prefix) || OneLine(Raw(c)))
    ensures LooseText(c.markdown, prefix)
  {
    SealedShift(c.before, c.markdown, c.after);
    OneLineConcat(c.before + c.markdown, c.after);
    OneLineConcat(c.before, c.markdown);
  }

  lemma ParsedRowLoose(row: Row, n: nat)
    requires ParsedFacts(row) && |row.cells| <= n
    ensures LooseRow(row, n)
  {
    forall j | 0 <= j < |row.cells| ensures LooseText(row.cells[j].markdown, row.prefix) {
      ParsedCellLoose(row.cells[j], row.prefix);
    }
  }

  lemma LooseFromFacts(t: Table)
    requires t.columnCount == MaxCells(Rows(t)) && |t.alignments| == t.columnCount
    requires forall i :: 0 <= i < |Rows(t)| ==> ParsedFacts(Rows(t)[i])
    ensures Loose(t)
  {
    forall i | 0 <= i < |Rows(t)| ensures LooseRow(Rows(t)[i], t.columnCount) {
      ParsedRowLoose(Rows(t)[i], t.columnCount);
    }
    assert Rows(t)[0].cells != [];
  }

  /** Every accepted source, ragged or not, in any container, can be formatted. */
  lemma ParsedTableLoose(source: string)
    requires ParseTable(source).Some?
    ensures Loose(ParseTable(source).value)
  {
    ReadLinesClean(source);
    ParsedRowsFacts(ReadLines(source));
    ParsedParts(source);
    LooseFromFacts(ParseTable(source).value);
  }

  // ---------------------------------------------------------------- the formatted text as a printed table

  function FormattedCell(s: string, width: nat): Cell {
    Cell(s, " ", Spaces(width - |s|) + " ")
  }

  function FormattedRow(row: Row, widths: seq<nat>): Row {
    Row(row.prefix, true, true, "", seq(|widths|, j requires 0 <= j < |widths| => FormattedCell(CellText(row, j), widths[j])))
  }

  function FormattedDelimiter(t: Table): Row {
    Row(t.delimiter.prefix, true, true, "", seq(t.columnCount, j requires 0 <= j < t.columnCount =>
      CanonicalCell(DelimiterMarker(AlignmentAt(t, j), Widths(t)[j]))))
  }

  function FormattedTable(t: Table): Table {
    t.(header := FormattedRow(t.header, Widths(t)),
       delimiter := FormattedDelimiter(t),
       body := seq(|t.body|, i requires 0 <= i < |t.body| => FormattedRow(t.body[i], Widths(t))))
  }

  /** Joining padded values by ` | ` is joining spaced cells by `|`. */
  lemma {:induction false} SpacedJoin(values: seq<string>, spaced: seq<string>)
    requires values != [] && |spaced| == |values|
    requires forall j :: 0 <= j < |values| ==> spaced[j] == " " + values[j] + " "
    ensures Join(spaced, "|") == " " + Join(values, " | ") + " "
  {
    if |values| > 1 {
      SpacedJoin(values[1..], spaced[1..]);
      SpacedStep(values[0], Join(values[1..], " | "));
    }
  }

  lemma SpacedStep(v: string, rest: string)
    ensures (" " + v + " ") + "|" + (" " + rest + " ") == " " + (v + " | " + rest) + " "
  {
  }

  lemma SerializedFormattedRow(prefix: string, values: seq<string>, cells: seq<Cell>)
    requires values != [] && |cells| == |values|
    requires forall j :: 0 <= j < |values| ==> Raw(cells[j]) == " " + values[j] + " "
    ensures SerializeRow(Row(prefix, true, true, "", cells)) == CanonicalFormattedRow(prefix, values)
  {
    SpacedJoin(values, Raws(cells));
    OuterPipesText(prefix, Join(values, " | "));
  }

  lemma OuterPipesText(prefix: string, s: string)
    ensures prefix + "|" + (" " + s + " ") + "|" + "" == prefix + "| " + s + " |"
  {
  }

  lemma FormattedRaw(s: string, width: nat)
    ensures Raw(FormattedCell(s, width)) == " " + PadEnd(s, width) + " "
  {
  }

  /** The formatted text is the printed formatted table. */
  lemma FormatIsPrint(t: Table)
    requires t.columnCount > 0
    ensures FormatTable(t) == SerializeTable(FormattedTable(t))
  {
    forall i | 0 <= i < |FormattedLines(t)| ensures FormattedLines(t)[i] == SerializeRows(Rows(FormattedTable(t)))[i] {
      LineOfFormatted(t, i);
    }
    assert FormattedLines(t) == SerializeRows(Rows(FormattedTable(t)));
  }

  lemma SpacedCellFits(s: string, prefix: string, after: string)
    requires LooseText(s, prefix) && AllSpace(after) && OneLine(after) && '\n' !in after
    ensures var c := Cell(s, " ", after + " ");
            GoodCell(c) && (AllSpace(prefix) || OneLine(Raw(c)))
  {
    AllSpaceConcat(after, " ");
    SealedShift(" ", s, after + " ");
    TailRunOfSpace(" " + s, after + " ");
    OneLineConcat(" " + s, after + " ");
    OneLineConcat(after, " ");
    OneLineConcat(" ", s);
  }

  lemma FormattedRowTidy(row: Row, widths: seq<nat>)
    requires LooseRow(row, |widths|) && widths != []
    ensures TidyRow(FormattedRow(row, widths), |widths|, true)
    ensures RowTexts(FormattedRow(row, widths), |widths|) == RowTexts(row, |widths|)
  {
    forall j | 0 <= j < |widths|
      ensures LooseText(CellText(row, j), row.prefix)
      ensures GoodCell(FormattedCell(CellText(row, j), widths[j]))
      ensures AllSpace(row.prefix) || OneLine(Raw(FormattedCell(CellText(row, j), widths[j])))
    {
      SpacedCellFits(CellText(row, j), row.prefix, Spaces(widths[j] - |CellText(row, j)|));
    }
  }

  lemma MarkerText(a: Alignment, width: nat, prefix: string)
    ensures LooseText(DelimiterMarker(a, width), prefix) && ParseAlignment(DelimiterMarker(a, width)) == Some(a)
    ensures |DelimiterMarker(a, width)| == Max(width, MinimumWidth(a))
  {
    TrimOfTrimmed(DelimiterMarker(a, width));
  }

  lemma FormattedDelimiterTidy(t: Table)
    requires Loose(t)
    ensures TidyRow(FormattedDelimiter(t), t.columnCount, true)
    ensures SpellsAlignments(FormattedDelimiter(t).cells, t.alignments)
  {
    var row := FormattedDelimiter(t);
    assert LooseRow(Rows(t)[1], t.columnCount);
    forall j | 0 <= j < t.columnCount
      ensures GoodCell(row.cells[j]) && Trimmed(row.cells[j].markdown)
      ensures AllSpace(row.prefix) || OneLine(Raw(row.cells[j]))
      ensures ParseAlignment(row.cells[j].markdown) == Some(t.alignments[j])
    {
      MarkerText(AlignmentAt(t, j), Widths(t)[j], row.prefix);
      SpacedCellFits(row.cells[j].markdown, row.prefix, "");
      assert "" + " " == " ";
    }
  }

  lemma FormattedTidy(t: Table)
    requires Loose(t)
    ensures Tidy(FormattedTable(t), true) && Grid(FormattedTable(t)) == Grid(t)
  {
    var f := FormattedTable(t);
    forall i | 0 <= i < |SemanticRows(t)|
      ensures TidyRow(SemanticRows(f)[i], t.columnCount, true)
      ensures Grid(f)[i] == Grid(t)[i]
    {
      assert SemanticRows(t)[i] == Rows(t)[if i == 0 then 0 else i + 1];
      FormattedRowTidy(SemanticRows(t)[i], Widths(t));
      assert SemanticRows(f)[i] == FormattedRow(SemanticRows(t)[i], Widths(t));
    }
    FormattedDelimiterTidy(t);
  }

  // ---------------------------------------------------------------- the laws of formatting

  /** What formatting depends on. */
  /** Same meaning, line endings and number of rows, and every row keeps its prefix. */
  predicate SameFormat(a: Table, b: Table) {
    && SameMeaning(a, b) && a.crlf == b.crlf && a.trailingNewline == b.trailingNewline
    && |a.body| == |b.body|
    && forall i :: 0 <= i < |Rows(a)| ==> Rows(a)[i].prefix == Rows(b)[i].prefix
  }

  lemma {:induction false} ContentWidthOfGrid(a: seq<Row>, b: seq<Row>, n: nat, j: nat)
    requires j < n && GridOf(a, n) == GridOf(b, n)
    ensures ContentWidth(a, j) == ContentWidth(b, j)
  {
    assert |a| == |GridOf(a, n)| == |b|;
    if a != [] {
      assert GridOf(a, n)[0][j] == CellText(a[0], j) && GridOf(b, n)[0][j] == CellText(b[0], j);
      assert GridOf(a[1..], n) == GridOf(a, n)[1..] && GridOf(b[1..], n) == GridOf(b, n)[1..];
      ContentWidthOfGrid(a[1..], b[1..], n, j);
    }
  }

  lemma SameWidths(a: Table, b: Table)
    requires SameFormat(a, b)
    ensures Widths(a) == Widths(b) && DelimiterValues(a) == DelimiterValues(b)
  {
    forall j | 0 <= j < a.columnCount ensures Widths(a)[j] == Widths(b)[j] {
      ContentWidthOfGrid(SemanticRows(a), SemanticRows(b), a.columnCount, j);
    }
  }

  lemma SameDataLine(a: Table, b: Table, i: nat)
    requires SameFormat(a, b) && i < |SemanticRows(a)|
    ensures FormatDataRow(SemanticRows(a)[i], Widths(a)) == FormatDataRow(SemanticRows(b)[i], Widths(a))
  {
    var k := if i == 0 then 0 else i + 1;
    assert SemanticRows(a)[i] == Rows(a)[k] && SemanticRows(b)[i] == Rows(b)[k];
    FormattedValuesOfTexts(SemanticRows(a)[i], SemanticRows(b)[i], Widths(a), Grid(a)[i], Grid(b)[i]);
  }

  lemma LineParts(t: Table, i: nat)
    requires i < |FormattedLines(t)|
    ensures FormattedLines(t)[i] == if i == 1 then CanonicalFormattedRow(t.delimiter.prefix, DelimiterValues(t))
                                    else FormatDataRow(SemanticRows(t)[if i == 0 then 0 else i - 1], Widths(t))
  {
  }

  lemma SameLine(a: Table, b: Table, i: nat)
    requires SameFormat(a, b) && i < |FormattedLines(a)|
    ensures FormattedLines(a)[i] == FormattedLines(b)[i]
  {
    LineParts(a, i);
    LineParts(b, i);
    SameWidths(a, b);
    if i == 1 {
      assert Rows(a)[1] == a.delimiter && Rows(b)[1] == b.delimiter;
    } else {
      SameDataLine(a, b, if i == 0 then 0 else i - 1);
    }
  }

  lemma FormatCongruence(a: Table, b: Table)
    requires SameFormat(a, b)
    ensures FormatTable(a) == FormatTable(b)
  {
    forall i | 0 <= i < |FormattedLines(a)| ensures FormattedLines(a)[i] == FormattedLines(b)[i] {
      SameLine(a, b, i);
    }
    assert FormattedLines(a) == FormattedLines(b);
  }

  lemma FormattedValuesOfTexts(a: Row, b: Row, widths: seq<nat>, ta: seq<string>, tb: seq<string>)
    requires ta == RowTexts(a, |widths|) && tb == RowTexts(b, |widths|) && ta == tb
    ensures FormattedValues(a, widths) == FormattedValues(b, widths)
  {
    forall j | 0 <= j < |widths| ensures CellText(a, j) == CellText(b, j) {
      assert ta[j] == tb[j];
    }
  }

  /** No carriage return can slip in before a line feed. */
  lemma FormattedEnding(t: Table)
    requires Loose(t)
    ensures HasCrlf(FormatTable(t)) <==> t.crlf
  {
    var lines := FormattedLines(t);
    FormattedTidy(t);
    FormatIsPrint(t);
    TidyLinesRead(FormattedTable(t), true);
    forall i | 0 <= i < |lines| ensures '\n' !in lines[i] && Chomp(lines[i]) == lines[i] {
      assert LineReads(Rows(FormattedTable(t))[i], Chomps(FormattedTable(t), i));
      LineOfFormatted(t, i);
      EndsWithPipe(lines[i]);
    }
    if t.crlf {
      CrlfBetween(lines[0], lines[1..], t.trailingNewline);
    } else {
      NoCrlfWhenChomped(lines, t.trailingNewline);
    }
  }

  lemma LineOfFormattedRow(row: Row, widths: seq<nat>)
    requires widths != []
    ensures FormatDataRow(row, widths) == SerializeRow(FormattedRow(row, widths))
  {
    forall j | 0 <= j < |widths| ensures Raw(FormattedCell(CellText(row, j), widths[j])) == " " + FormattedValues(row, widths)[j] + " " {
      FormattedRaw(CellText(row, j), widths[j]);
    }
    SerializedFormattedRow(row.prefix, FormattedValues(row, widths), FormattedRow(row, widths).cells);
  }

  lemma LineOfFormattedDelimiter(t: Table)
    requires t.columnCount > 0
    ensures CanonicalFormattedRow(t.delimiter.prefix, DelimiterValues(t)) == SerializeRow(FormattedDelimiter(t))
  {
    SerializedFormattedRow(t.delimiter.prefix, DelimiterValues(t), FormattedDelimiter(t).cells);
  }

  lemma RowEndsWithPipe(row: Row)
    requires row.trailingPipe && row.suffix == ""
    ensures var line := SerializeRow(row); line != "" && line[|line| - 1] == '|'
  {
  }

  lemma FormattedRowAt(t: Table, i: nat)
    requires i < |Rows(t)|
    ensures Rows(FormattedTable(t))[i]
         == if i == 1 then FormattedDelimiter(t) else FormattedRow(SemanticRows(t)[if i == 0 then 0 else i - 1], Widths(t))
  {
  }

  lemma LineOfFormatted(t: Table, i: nat)
    requires t.columnCount > 0 && i < |FormattedLines(t)|
    ensures FormattedLines(t)[i] == SerializeRow(Rows(FormattedTable(t))[i])
    ensures FormattedLines(t)[i] != "" && FormattedLines(t)[i][|FormattedLines(t)[i]| - 1] == '|'
  {
    LineParts(t, i);
    FormattedRowAt(t, i);
    RowEndsWithPipe(Rows(FormattedTable(t))[i]);
    if i == 1 {
      LineOfFormattedDelimiter(t);
    } else {
      LineOfFormattedRow(SemanticRows(t)[if i == 0 then 0 else i - 1], Widths(t));
    }
  }

  lemma EndsWithPipe(s: string)
    requires s != "" && s[|s| - 1] == '|'
    ensures Chomp(s) == s
  {
  }

  lemma CrlfBetween(first: string, rest: seq<string>, trailing: bool)
    requires rest != []
    ensures HasCrlf(Terminate([first] + rest, "\r\n", trailing))
  {
    var tail := Join(rest, "\r\n") + if trailing then "\r\n" else "";
    JoinAppend([first], rest, "\r\n");
    Assoc(first + "\r\n", Join(rest, "\r\n"), if trailing then "\r\n" else "");
    assert "\r\n"[0] == '\r' && "\r\n"[0 + 1] == '\n';
    CrlfInPart(first, "\r\n", tail);
  }

  /** Formatting preserves meaning and is idempotent. For every accepted source, ragged or not,
      the formatted text parses to the same cell texts (missing cells read as empty), alignments
      and column count, and formatting once more changes nothing. */
  lemma FormatPreserves(t: Table)
    requires Loose(t)
    ensures ParseTable(FormatTable(t)).Some?
    ensures SameMeaning(ParseTable(FormatTable(t)).value, t)
    ensures Rectangular(ParseTable(FormatTable(t)).value) && OuterPipes(ParseTable(FormatTable(t)).value)
    ensures FormatTable(ParseTable(FormatTable(t)).value) == FormatTable(t)
  {
    var f := FormattedTable(t);
    FormattedTidy(t);
    FormatIsPrint(t);
    ParsePrintedTable(f, true);
    ReadBackGrid(f, true);
    FormattedEnding(t);
    FormattedSame(t);
    FormatCongruence(ReadBackTable(f), t);
  }

  lemma FormattedPrefixes(t: Table, i: nat)
    requires i < |Rows(t)|
    ensures |Rows(FormattedTable(t))| == |Rows(t)| && Rows(FormattedTable(t))[i].prefix == Rows(t)[i].prefix
  {
  }

  lemma ReadBackPrefix(t: Table, i: nat)
    requires i < |Rows(t)|
    ensures |Rows(ReadBackTable(t))| == |Rows(t)| && Rows(ReadBackTable(t))[i].prefix == Rows(t)[i].prefix
  {
    var back := ReadBackRows(t);
    assert [back[0], back[1]] + back[2..] == back;
  }

  lemma FormattedPrefix(t: Table, i: nat)
    requires i < |Rows(t)|
    ensures |Rows(ReadBackTable(FormattedTable(t)))| == |Rows(t)|
    ensures Rows(ReadBackTable(FormattedTable(t)))[i].prefix == Rows(t)[i].prefix
  {
    FormattedPrefixes(t, i);
    ReadBackPrefix(FormattedTable(t), i);
  }

  lemma FormattedSame(t: Table)
    requires Grid(ReadBackTable(FormattedTable(t))) == Grid(t)
    requires HasCrlf(SerializeTable(FormattedTable(t))) == t.crlf
    ensures SameFormat(ReadBackTable(FormattedTable(t)), t)
  {
    var back := ReadBackTable(FormattedTable(t));
    assert |Rows(back)| == |Rows(t)|;
    forall i | 0 <= i < |Rows(back)| ensures Rows(back)[i].prefix == Rows(t)[i].prefix {
      FormattedPrefix(t, i);
    }
  }

  lemma FormatSource(source: string)
    requires ParseTable(source).Some?
    ensures var t := ParseTable(source).value;
            var formatted := FormatTable(t);
            && ParseTable(formatted).Some?
            && SameMeaning(ParseTable(formatted).value, t)
            && FormatTable(ParseTable(formatted).value) == formatted
  {
    ParsedTableLoose(source);
    FormatPreserves(ParseTable(source).value);
  }

  /** In the formatted text all cells of a column, the delimiter included, have the same width,
      so the pipes of rows with equally long prefixes stand below each other. */
  lemma FormatAligns(t: Table, i: nat, j: nat)
    requires i < |SemanticRows(t)| && j < t.columnCount
    ensures |FormattedValues(SemanticRows(t)[i], Widths(t))[j]| == Widths(t)[j]
    ensures |DelimiterValues(t)[j]| == Widths(t)[j]
  {
    assert |CellText(SemanticRows(t)[i], j)| <= ContentWidth(SemanticRows(t), j);
    MarkerText(AlignmentAt(t, j), Widths(t)[j], "");
  }

  lemma {:induction false} WidthReached(rows: seq<Row>, column: nat) returns (i: nat)
    requires rows != []
    ensures i < |rows| && ContentWidth(rows, column) == |CellText(rows[i], column)|
  {
    i := 0;
    Uncons(rows);
    if |rows| > 1 {
      var k := WidthReached(rows[1..], column);
      if ContentWidth(rows[1..], column) > |CellText(rows[0], column)| {
        i := k + 1;
      }
    } else {
      assert ContentWidth(rows[1..], column) == 0;
    }
  }

  /** A width that fits every cell text of the column, and its delimiter with at least three dashes. */
  predicate FitsColumn(t: Table, j: nat, width: nat) {
    && (forall i :: 0 <= i < |SemanticRows(t)| ==> |CellText(SemanticRows(t)[i], j)| <= width)
    && width >= 3 + match AlignmentAt(t, j) case Unaligned => 0 case Center => 2 case _ => 1
  }

  /** The width of a column is the least that fits. */
  lemma WidthIsLeast(t: Table, j: nat, width: nat)
    requires j < t.columnCount
    ensures FitsColumn(t, j, Widths(t)[j]) && (FitsColumn(t, j, width) ==> Widths(t)[j] <= width)
  {
    forall i | 0 <= i < |SemanticRows(t)| ensures |CellText(SemanticRows(t)[i], j)| <= Widths(t)[j] {
      assert |CellText(SemanticRows(t)[i], j)| <= ContentWidth(SemanticRows(t), j);
    }
    var i := WidthReached(SemanticRows(t), j);
  }

  /** A formatted cell is its text, and spaces behind it. */
  lemma TextThenSpaces(row: Row, widths: seq<nat>, j: nat)
    requires j < |widths| && |CellText(row, j)| <= widths[j]
    ensures FormattedValues(row, widths)[j] == CellText(row, j) + Repeated(' ', widths[j] - |CellText(row, j)|)
  {
  }
}
