/** Parsing and printing undo each other: on text for every accepted source,
    and on tables for everything the editor writes. */
module TableText {
  import opened Seqs
  import opened Text
  import opened Lines
  import opened Containers
  import opened MarkdownTable

  // ---------------------------------------------------------------- print after parse

  lemma RawOfParsedCell(source: string)
    ensures Raw(ParseCell(source)) == source
  {
    CutAtTwo(source, LeadingSpace(source), TrimEnd(source));
  }

  lemma RawsOfParsedCells(segments: seq<string>)
    ensures Raws(ParseCells(segments)) == segments
  {
    forall i | 0 <= i < |segments| ensures Raws(ParseCells(segments))[i] == segments[i] {
      RawOfParsedCell(segments[i]);
    }
  }

  lemma {:induction false} LeadingPipeKept(split: Prefixed)
    ensures var head := CutLeadingPipe(split);
            head.prefix + Pipe(head.present) + head.inner == split.prefix + split.content
  {
    var head := CutLeadingPipe(split);
    var first := LeadingSpace(split.content);
    if head.present {
      PipeBetween(split.prefix, split.content, first);
    }
  }

  lemma {:induction false} PipeBetween(prefix: string, content: string, k: nat)
    requires k < |content| && content[k] == '|'
    ensures (prefix + content[..k]) + "|" + content[k + 1..] == prefix + content
  {
    CutAtPipe(content, k);
    Assoc(prefix + content[..k], "|", content[k + 1..]);
    Assoc(prefix, content[..k], "|" + content[k + 1..]);
  }

  lemma TrailingPipeKept(inner: string)
    ensures var tail := CutTrailingPipe(inner); tail.cells + Pipe(tail.present) + tail.suffix == inner
  {
    var tail := CutTrailingPipe(inner);
    if tail.present {
      CutAtTwo(inner, |tail.cells|, |tail.cells| + 1);
    }
  }

  lemma PrintPieces(prefix: string, leading: bool, cells: string, trailing: bool, suffix: string)
    ensures SerializeRow(Row(prefix, leading, trailing, suffix, ParseCells(Split(cells))))
         == prefix + Pipe(leading) + (cells + Pipe(trailing) + suffix)
  {
    SplitParts(cells);
    RawsOfParsedCells(Split(cells));
    Regroup(prefix + Pipe(leading), cells, Pipe(trailing), suffix);
  }

  lemma Regroup(a: string, b: string, c: string, d: string)
    ensures a + b + c + d == a + (b + c + d)
  {
  }

  /** Printing a parsed line gives back the line, whatever its container prefix and pipes. */
  lemma PrintParsedRow(line: string)
    ensures SerializeRow(ParseRow(line)) == line
  {
    var head := CutLeadingPipe(SplitPrefix(line));
    var tail := CutTrailingPipe(head.inner);
    LeadingPipeKept(SplitPrefix(line));
    TrailingPipeKept(head.inner);
    PrintPieces(head.prefix, head.present, tail.cells, tail.present, tail.suffix);
  }

  lemma BuiltParts(crlf: bool, trailing: bool, rows: seq<Row>)
    requires BuildTable(crlf, trailing, rows).Some?
    ensures var t := BuildTable(crlf, trailing, rows).value;
            && Rows(t) == rows
            && t.crlf == crlf && t.trailingNewline == trailing
            && t.columnCount == MaxCells(rows) && |t.alignments| == t.columnCount
            && |t.header.cells| == |t.delimiter.cells|
  {
    assert [rows[0], rows[1]] + rows[2..] == rows;
  }

  /** The parts of an accepted source. */
  lemma ParsedParts(source: string)
    requires ParseTable(source).Some?
    ensures var t := ParseTable(source).value;
            && Rows(t) == ParseRows(ReadLines(source))
            && t.crlf == HasCrlf(source) && t.trailingNewline == EndsWithLf(source)
            && t.columnCount == MaxCells(Rows(t)) && |t.alignments| == t.columnCount
            && |t.header.cells| == |t.delimiter.cells| && source != ""
  {
    BuiltParts(HasCrlf(source), EndsWithLf(source), ParseRows(ReadLines(source)));
    assert ReadLines("") == [""];
  }

  lemma PrintParsedRows(lines: seq<string>)
    ensures SerializeRows(ParseRows(lines)) == lines
  {
    forall i | 0 <= i < |lines| ensures SerializeRows(ParseRows(lines))[i] == lines[i] {
      PrintParsedRow(lines[i]);
    }
  }

  /** Printing a parsed table gives back the source text exactly when its line endings are uniform. */
  lemma PrintParsedTable(source: string)
    requires ParseTable(source).Some?
    ensures SerializeTable(ParseTable(source).value) == source <==> UniformEndings(source)
  {
    ParsedParts(source);
    PrintParsedRows(ReadLines(source));
    RejoinReadLines(source);
  }

  // ---------------------------------------------------------------- what parsing guarantees

  /** A cell that can be printed between two pipes. */
  predicate GoodCell(c: Cell) {
    AllSpace(c.before) && AllSpace(c.after) && Closed(Raw(c)) && '\n' !in Raw(c)
  }

  predicate OneLineCells(cells: seq<Cell>) {
    forall i :: 0 <= i < |cells| ==> OneLine(Raw(cells[i]))
  }

  /** A row that reads back as itself. With `exact`, its cell texts carry no white space of their own. */
  predicate TidyRow(row: Row, columnCount: nat, exact: bool) {
    && row.leadingPipe && row.trailingPipe
    && |row.cells| == columnCount > 0
    && TidyEnds(row)
    && forall i :: 0 <= i < |row.cells| ==> GoodCell(row.cells[i]) && (exact ==> Trimmed(row.cells[i].markdown))
  }

  predicate TidyEnds(row: Row) {
    && StablePrefix(row.prefix) && '\n' !in row.prefix
    && AllSpace(row.suffix) && '\n' !in row.suffix
    && (AllSpace(row.prefix) || (OneLine(row.suffix) && OneLineCells(row.cells)))
  }

  predicate TidyRows(rows: seq<Row>, columnCount: nat, exact: bool) {
    forall i :: 0 <= i < |rows| ==> TidyRow(rows[i], columnCount, exact)
  }

  /** The delimiter row spells the alignments. */
  predicate SpellsAlignments(cells: seq<Cell>, alignments: seq<Alignment>) {
    |cells| == |alignments| &&
    forall i :: 0 <= i < |cells| ==> ParseAlignment(cells[i].markdown) == Some(alignments[i])
  }

  /** A table inside the language: what the structural edits keep. */
  predicate Tidy(t: Table, exact: bool) {
    && t.columnCount > 0
    && TidyRows(SemanticRows(t), t.columnCount, exact)
    && TidyRow(t.delimiter, t.columnCount, true)
    && SpellsAlignments(t.delimiter.cells, t.alignments)
  }

  lemma OneLineConcat(a: string, b: string)
    ensures OneLine(a + b) <==> OneLine(a) && OneLine(b)
  {
    assert forall i :: 0 <= i < |a| ==> (a + b)[i] == a[i];
    assert forall i :: 0 <= i < |b| ==> (a + b)[|a| + i] == b[i];
  }

  /** What each segment inherits from the joined text. */
  lemma {:induction false} PartsOfJoin(parts: seq<string>)
    ensures OneLine(Join(parts, "|")) <==> forall i :: 0 <= i < |parts| ==> OneLine(parts[i])
    ensures '\n' in Join(parts, "|") <==> exists i :: 0 <= i < |parts| && '\n' in parts[i]
  {
    if |parts| > 1 {
      PartsOfJoin(parts[1..]);
      assert forall i :: 1 <= i < |parts| ==> parts[i] == parts[1..][i - 1];
      OneLineConcat(parts[0] + "|", Join(parts[1..], "|"));
      OneLineConcat(parts[0], "|");
    }
  }

  predicate CellFacts(cells: seq<Cell>, source: string) {
    forall i :: 0 <= i < |cells| ==>
      && ParsedCell(cells[i])
      && (i < |cells| - 1 || !OddTail(source) ==> !OddTail(Raw(cells[i])))
      && (OneLine(source) ==> OneLine(Raw(cells[i])))
  }

  /** The parsed pieces of a line, with both outer pipes or not. */
  lemma ParsedCells(source: string)
    requires '\n' !in source
    ensures CellFacts(ParseCells(Split(source)), source)
  {
    var parts := Split(source);
    SplitParts(source);
    PartsOfJoin(parts);
    RawsOfParsedCells(parts);
    var cells := ParseCells(parts);
    forall i | 0 <= i < |cells|
      ensures AllSpace(cells[i].before) && AllSpace(cells[i].after) && Trimmed(cells[i].markdown)
      ensures Raw(cells[i]) == parts[i]
    {
      TrimParts(parts[i]);
      assert Raws(cells)[i] == parts[i];
    }
  }

  lemma ParsedEnds(line: string)
    requires '\n' !in line
    ensures var head := CutLeadingPipe(SplitPrefix(line));
            PrefixFits(head.prefix, head.inner) && '\n' !in head.prefix && '\n' !in head.inner
  {
    SplitPrefixFits(line);
    HeadFits(SplitPrefix(line), line);
  }

  lemma HeadFits(split: Prefixed, line: string)
    requires SplitFits(split) && split.prefix + split.content == line && '\n' !in line
    ensures var head := CutLeadingPipe(split);
            PrefixFits(head.prefix, head.inner) && '\n' !in head.prefix && '\n' !in head.inner
  {
    LeadingPipeKept(split);
    NoNewlineParts(CutLeadingPipe(split), line);
  }

  lemma NoNewlineParts(head: Leading, line: string)
    requires head.prefix + Pipe(head.present) + head.inner == line && '\n' !in line
    ensures '\n' !in head.prefix && '\n' !in head.inner
  {
  }

  lemma ParsedTail(inner: string)
    requires '\n' !in inner
    ensures var tail := CutTrailingPipe(inner);
            && AllSpace(tail.suffix) && '\n' !in tail.suffix && '\n' !in tail.cells
            && (OneLine(inner) ==> OneLine(tail.suffix) && OneLine(tail.cells))
            && (tail.present ==> !OddTail(tail.cells))
  {
    var tail := CutTrailingPipe(inner);
    TrailingPipeKept(inner);
    if tail.present {
      AllSpaceFrom(inner, |tail.cells| + 1);
      OneLineConcat(tail.cells + "|", tail.suffix);
      OneLineConcat(tail.cells, "|");
    }
  }

  /** What parsing guarantees of every cell. */
  predicate ParsedCell(c: Cell) {
    && AllSpace(c.before) && AllSpace(c.after) && Trimmed(c.markdown)
    && Sealed(Raw(c)) && '\n' !in Raw(c)
  }

  lemma ParsedRow(line: string)
    requires '\n' !in line
    ensures ParsedFacts(ParseRow(line))
  {
    var head := CutLeadingPipe(SplitPrefix(line));
    ParsedEnds(line);
    ParsedBody(head);
  }

  predicate ParsedFacts(row: Row) {
    && row.cells != [] && TidyEnds(row)
    && (row.leadingPipe && row.trailingPipe ==> TidyRow(row, |row.cells|, true))
    && forall i :: 0 <= i < |row.cells| ==> ParsedCell(row.cells[i])
  }

  lemma ParsedBody(head: Leading)
    requires PrefixFits(head.prefix, head.inner) && '\n' !in head.prefix && '\n' !in head.inner
    ensures var tail := CutTrailingPipe(head.inner);
            ParsedFacts(Row(head.prefix, head.present, tail.present, tail.suffix, ParseCells(Split(tail.cells))))
  {
    var tail := CutTrailingPipe(head.inner);
    ParsedTail(head.inner);
    ParsedCells(tail.cells);
    RowFacts(Row(head.prefix, head.present, tail.present, tail.suffix, ParseCells(Split(tail.cells))), tail.cells);
  }

  lemma RowFacts(row: Row, source: string)
    requires row.cells == ParseCells(Split(source))
    requires StablePrefix(row.prefix) && '\n' !in row.prefix && AllSpace(row.suffix) && '\n' !in row.suffix
    requires row.trailingPipe ==> !OddTail(source)
    requires AllSpace(row.prefix) || (OneLine(row.suffix) && OneLine(source))
    requires CellFacts(row.cells, source)
    ensures ParsedFacts(row)
  {
  }

  lemma ReadLinesClean(source: string)
    ensures forall i :: 0 <= i < |ReadLines(source)| ==> '\n' !in ReadLines(source)[i]
  {
    SplitLinesPieces(Normalize(source));
  }

  lemma ParsedRowsFacts(lines: seq<string>)
    requires forall i :: 0 <= i < |lines| ==> '\n' !in lines[i]
    ensures forall i :: 0 <= i < |lines| ==> ParsedFacts(ParseRows(lines)[i])
  {
    forall i | 0 <= i < |lines| ensures ParsedFacts(ParseRows(lines)[i]) {
      ParsedRow(lines[i]);
    }
  }

  lemma BuiltTable(crlf: bool, trailing: bool, rows: seq<Row>)
    requires forall i :: 0 <= i < |rows| ==> ParsedFacts(rows[i])
    requires BuildTable(crlf, trailing, rows).Some?
    ensures var t := BuildTable(crlf, trailing, rows).value;
            Rows(t) == rows && (Rectangular(t) && OuterPipes(t) ==> Tidy(t, true))
  {
    var t := BuildTable(crlf, trailing, rows).value;
    assert Rows(t) == rows;
    if Rectangular(t) && OuterPipes(t) {
      forall i | 0 <= i < |rows| ensures TidyRow(rows[i], t.columnCount, true) {
        assert Rows(t)[i] == rows[i];
      }
      assert forall i :: 1 <= i < |SemanticRows(t)| ==> SemanticRows(t)[i] == rows[i + 1];
    }
  }

  /** Every accepted rectangular source whose rows all have their outer pipes is a tidy table. */
  lemma ParsedTableTidy(source: string)
    requires ParseTable(source).Some?
    requires Rectangular(ParseTable(source).value) && OuterPipes(ParseTable(source).value)
    ensures Tidy(ParseTable(source).value, true)
  {
    ReadLinesClean(source);
    ParsedRowsFacts(ReadLines(source));
    BuiltTable(HasCrlf(source), EndsWithLf(source), ParseRows(ReadLines(source)));
  }

  // ---------------------------------------------------------------- parse after print

  /** A printed cell as it is read back. */
  function ReadCell(c: Cell): Cell {
    ParseCell(Raw(c))
  }

  function ReadCells(cells: seq<Cell>): (r: seq<Cell>)
    ensures |r| == |cells|
  {
    seq(|cells|, i requires 0 <= i < |cells| => ReadCell(cells[i]))
  }

  /** Only the text of a cell matters: it is read back trimmed. */
  lemma ReadCellText(c: Cell)
    requires AllSpace(c.before) && AllSpace(c.after)
    ensures ReadCell(c).markdown == Trim(c.markdown)
    ensures Raw(ReadCell(c)) == Raw(c)
  {
    TrimAbsorbsSpace(c.before, c.markdown, c.after);
    RawOfParsedCell(Raw(c));
  }

  lemma ReadCellGood(c: Cell)
    requires GoodCell(c)
    ensures GoodCell(ReadCell(c)) && Trimmed(ReadCell(c).markdown)
  {
    ReadCellText(c);
    TrimParts(Raw(c));
  }

  lemma RawsGood(cells: seq<Cell>)
    requires cells != [] && forall i :: 0 <= i < |cells| ==> GoodCell(cells[i])
    ensures GoodSegments(Raws(cells))
    ensures !OddTail(Join(Raws(cells), "|")) && '\n' !in Join(Raws(cells), "|")
    ensures ParseCells(Split(Join(Raws(cells), "|"))) == ReadCells(cells)
  {
    var raws := Raws(cells);
    forall i | 0 <= i < |raws| ensures Closed(raws[i]) && '\n' !in raws[i] {
      assert raws[i] == Raw(cells[i]);
    }
    SplitOfJoin(raws);
    SplitParts(Join(raws, "|"));
    PartsOfJoin(raws);
  }

  /** A tidy row is read back with the same ends and the same cells. */
  lemma {:induction false} ReadTidyRow(row: Row, n: nat, exact: bool)
    requires TidyRow(row, n, exact)
    ensures ParseRow(SerializeRow(row)) == row.(cells := ReadCells(row.cells))
  {
    var body := Join(Raws(row.cells), "|");
    var rest := body + "|" + row.suffix;
    RawsGood(row.cells);
    TidyRestFits(row, n, exact);
    var line := row.prefix + "|" + rest;
    assert SerializeRow(row) == line;
    StablePrefixRead(row.prefix, rest);
    ReadAfterPrefix(row, SplitPrefix(line), body);
  }

  lemma {:induction false} TidyRestFits(row: Row, n: nat, exact: bool)
    requires TidyRow(row, n, exact)
    ensures PrefixFits(row.prefix, Join(Raws(row.cells), "|") + "|" + row.suffix)
  {
    var body := Join(Raws(row.cells), "|");
    if !AllSpace(row.prefix) {
      forall i | 0 <= i < |Raws(row.cells)| ensures OneLine(Raws(row.cells)[i]) {
        assert Raws(row.cells)[i] == Raw(row.cells[i]);
      }
      PartsOfJoin(Raws(row.cells));
      OneLineConcat(body + "|", row.suffix);
      OneLineConcat(body, "|");
    }
  }

  lemma ReadAfterPrefix(row: Row, split: Prefixed, body: string)
    requires row.leadingPipe && row.trailingPipe && AllSpace(row.suffix) && !OddTail(body)
    requires ReadAs(row.prefix, body + "|" + row.suffix, split)
    ensures CutLeadingPipe(split) == Leading(row.prefix, true, body + "|" + row.suffix)
    ensures CutTrailingPipe(body + "|" + row.suffix) == Trailing(body, true, row.suffix)
  {
    var rest := body + "|" + row.suffix;
    var e :| 0 <= e <= |row.prefix| && AllSpace(row.prefix[e..])
             && split == Prefixed(row.prefix[..e], row.prefix[e..] + ("|" + rest));
    LeadingPipeRead(row.prefix[..e], row.prefix[e..], rest);
    TakeDrop(row.prefix, e);
    BodyEnd(body, row.suffix);
  }

  lemma LeadingPipeRead(p: string, w: string, rest: string)
    requires AllSpace(w)
    ensures CutLeadingPipe(Prefixed(p, w + ("|" + rest))) == Leading(p + w, true, rest)
  {
    var content := w + ("|" + rest);
    assert forall i :: 0 <= i < |w| ==> content[i] == w[i];
    LeadingUnique(content, |w|);
    assert content[..|w|] == w && content[|w|] == '|' && content[|w| + 1..] == rest;
    TailRunAfterSpace(w, "");
    assert w + "" == w;
  }

  /** The last bare pipe of the inner text ends the body. */
  lemma BodyEnd(body: string, suffix: string)
    requires AllSpace(suffix) && !OddTail(body)
    ensures var rest := body + "|" + suffix;
            CutTrailingPipe(rest) == Trailing(body, true, suffix)
  {
    var rest := body + "|" + suffix;
    forall i | |body| < i < |rest| ensures IsSpace(rest[i]) {
      assert rest[i] == suffix[i - |body| - 1];
    }
    TrailingUnique(rest, |suffix|);
    assert rest[..|body|] == body;
  }

  /** A carriage return at the end of a line is lost when a line feed follows it. */
  function ReadSuffix(row: Row, chomped: bool): Row {
    row.(cells := ReadCells(row.cells), suffix := if chomped then Chomp(row.suffix) else row.suffix)
  }

  lemma ChompedRow(row: Row)
    requires row.trailingPipe
    ensures SerializeRow(row.(suffix := Chomp(row.suffix))) == Chomp(SerializeRow(row))
    ensures SerializeRow(row) != ""
  {
    var head := row.prefix + Pipe(row.leadingPipe) + Join(Raws(row.cells), "|") + "|";
    assert SerializeRow(row) == head + row.suffix;
    assert Chomp(head + row.suffix) == head + Chomp(row.suffix);
  }

  lemma TidyRowText(row: Row, n: nat, exact: bool)
    requires TidyRow(row, n, exact)
    ensures '\n' !in SerializeRow(row) && SerializeRow(row) != ""
  {
    RawsGood(row.cells);
    ChompedRow(row);
  }

  lemma ReadTidyLine(row: Row, n: nat, exact: bool, chomped: bool)
    requires TidyRow(row, n, exact)
    ensures var line := SerializeRow(row);
            && (if chomped then Chomp(line) else line) != ""
            && ParseRow(if chomped then Chomp(line) else line) == ReadSuffix(row, chomped)
  {
    var short := if chomped then row.(suffix := Chomp(row.suffix)) else row;
    ChompedRow(row);
    ChompedRow(short);
    assert TidyRow(short, n, exact);
    ReadTidyRow(short, n, exact);
  }

  lemma ReadRowTidy(row: Row, n: nat, exact: bool, chomped: bool)
    requires TidyRow(row, n, exact)
    ensures TidyRow(ReadSuffix(row, chomped), n, true)
  {
    forall i | 0 <= i < |row.cells|
      ensures GoodCell(ReadCells(row.cells)[i]) && Trimmed(ReadCells(row.cells)[i].markdown)
      ensures Raw(ReadCells(row.cells)[i]) == Raw(row.cells[i])
    {
      ReadCellGood(row.cells[i]);
      ReadCellText(row.cells[i]);
    }
  }

  /** The table that is read back from the printed text of a tidy table. */
  function ReadBackTable(t: Table): Table {
    var rows := ReadBackRows(t);
    Table(HasCrlf(SerializeTable(t)), t.trailingNewline, rows[0], rows[1], rows[2..], t.alignments, t.columnCount)
  }

  function ReadBackRows(t: Table): (rows: seq<Row>)
    ensures |rows| == |Rows(t)|
  {
    var all := Rows(t);
    seq(|all|, i requires 0 <= i < |all| =>
      ReadSuffix(all[i], Chomps(t, i)))
  }

  lemma TidyRowsAll(t: Table, exact: bool)
    requires Tidy(t, exact)
    ensures TidyRows(Rows(t), t.columnCount, false)
  {
    forall i | 0 <= i < |Rows(t)| ensures TidyRow(Rows(t)[i], t.columnCount, false) {
      if i == 0 {
        assert Rows(t)[0] == SemanticRows(t)[0];
      } else if i > 1 {
        assert Rows(t)[i] == SemanticRows(t)[i - 1];
      }
    }
  }

  /** The printed line of a row, with or without its final carriage return, parses to the expected row. */
  predicate LineReads(row: Row, chomped: bool) {
    var line := SerializeRow(row);
    var read := if chomped then Chomp(line) else line;
    '\n' !in line && line != "" && read != "" && ParseRow(read) == ReadSuffix(row, chomped)
  }

  predicate Chomps(t: Table, i: nat) {
    !(t.crlf || (i == |Rows(t)| - 1 && !t.trailingNewline))
  }

  lemma TidyLinesRead(t: Table, exact: bool)
    requires Tidy(t, exact)
    ensures forall i :: 0 <= i < |Rows(t)| ==> LineReads(Rows(t)[i], Chomps(t, i))
  {
    var rows := Rows(t);
    TidyRowsAll(t, exact);
    forall i | 0 <= i < |rows| ensures LineReads(rows[i], Chomps(t, i)) {
      assert TidyRow(rows[i], t.columnCount, false);
      TidyRowText(rows[i], t.columnCount, false);
      ReadTidyLine(rows[i], t.columnCount, false, Chomps(t, i));
    }
  }

  lemma ReadBackRowParsed(t: Table, printed: seq<string>, i: nat)
    requires i < |Rows(t)| == |printed| && printed[i] == SerializeRow(Rows(t)[i]) && LineReads(Rows(t)[i], Chomps(t, i))
    ensures ReadBackLine(printed, i, t.crlf, t.trailingNewline) != ""
    ensures ParseRow(ReadBackLine(printed, i, t.crlf, t.trailingNewline)) == ReadBackRows(t)[i]
  {
  }

  lemma ReadBackRowsParsed(t: Table)
    requires forall i :: 0 <= i < |Rows(t)| ==> LineReads(Rows(t)[i], Chomps(t, i))
    ensures var lines := ReadLines(SerializeTable(t));
            |lines| == |Rows(t)| && ParseRows(lines) == ReadBackRows(t) && forall i :: 0 <= i < |lines| ==> lines[i] != ""
    ensures EndsWithLf(SerializeTable(t)) <==> t.trailingNewline
  {
    var rows := Rows(t);
    var printed := SerializeRows(rows);
    forall i | 0 <= i < |rows| ensures '\n' !in printed[i] && printed[i] != "" {
      assert LineReads(rows[i], Chomps(t, i));
    }
    ReadBack(printed, t.crlf, t.trailingNewline);
    PrintedEnd(printed, t.crlf, t.trailingNewline);
    var lines := ReadBackLines(printed, t.crlf, t.trailingNewline);
    forall i | 0 <= i < |rows| ensures lines[i] != "" && ParseRows(lines)[i] == ReadBackRows(t)[i] {
      ReadBackRowParsed(t, printed, i);
    }
  }

  lemma ReadBackRowsTidy(t: Table, exact: bool)
    requires Tidy(t, exact)
    ensures TidyRows(ReadBackRows(t), t.columnCount, true)
  {
    var rows := Rows(t);
    TidyRowsAll(t, exact);
    forall i | 0 <= i < |rows| ensures TidyRow(ReadBackRows(t)[i], t.columnCount, true) {
      ReadRowTidy(rows[i], t.columnCount, false, Chomps(t, i));
    }
  }

  lemma ParseAlignmentTrimmed(c: Cell)
    requires GoodCell(c)
    ensures ParseAlignment(ReadCell(c).markdown) == ParseAlignment(c.markdown)
  {
    ReadCellText(c);
    TrimParts(c.markdown);
    TrimOfTrimmed(Trim(c.markdown));
  }

  lemma MaxCellsUniform(rows: seq<Row>, n: nat)
    requires rows != [] && forall i :: 0 <= i < |rows| ==> |rows[i].cells| == n
    ensures MaxCells(rows) == n
  {
    if |rows| > 1 {
      assert forall i :: 1 <= i < |rows| ==> rows[i] == rows[1..][i - 1];
      MaxCellsUniform(rows[1..], n);
    }
  }

  lemma ReadBackAlignments(cells: seq<Cell>, alignments: seq<Alignment>)
    requires SpellsAlignments(cells, alignments) && forall i :: 0 <= i < |cells| ==> GoodCell(cells[i])
    ensures SpellsAlignments(ReadCells(cells), alignments)
    ensures ParsedAlignments(ReadCells(cells), |cells|) == alignments
  {
    forall i | 0 <= i < |cells| ensures ParseAlignment(ReadCells(cells)[i].markdown) == Some(alignments[i]) {
      ParseAlignmentTrimmed(cells[i]);
    }
  }

  lemma BuiltFromTidy(crlf: bool, trailing: bool, rows: seq<Row>, n: nat, alignments: seq<Alignment>)
    requires |rows| >= 2 && TidyRows(rows, n, true)
    requires SpellsAlignments(rows[1].cells, alignments) && ParsedAlignments(rows[1].cells, n) == alignments
    ensures var t := Table(crlf, trailing, rows[0], rows[1], rows[2..], alignments, n);
            BuildTable(crlf, trailing, rows) == Some(t) && Tidy(t, true) && Rectangular(t) && OuterPipes(t)
  {
    var t := Table(crlf, trailing, rows[0], rows[1], rows[2..], alignments, n);
    MaxCellsUniform(rows, n);
    assert Rows(t) == rows;
    assert forall i :: 0 <= i < |SemanticRows(t)| ==> SemanticRows(t)[i] == rows[if i == 0 then 0 else i + 1];
  }

  /** Parsing is building the table from the parsed lines. */
  lemma ParseFromRows(text: string, rows: seq<Row>)
    requires var lines := ReadLines(text);
             |lines| == |rows| && |rows| >= 2 && ParseRows(lines) == rows && forall i :: 0 <= i < |lines| ==> lines[i] != ""
    ensures ParseTable(text) == BuildTable(HasCrlf(text), EndsWithLf(text), rows)
  {
  }

  /** Printing a tidy table and parsing the text succeeds, and the result is exactly known. */
  lemma ParsePrintedTable(t: Table, exact: bool)
    requires Tidy(t, exact)
    ensures ParseTable(SerializeTable(t)) == Some(ReadBackTable(t))
    ensures Tidy(ReadBackTable(t), true) && Rectangular(ReadBackTable(t)) && OuterPipes(ReadBackTable(t))
  {
    TidyLinesRead(t, exact);
    ReadBackRowsParsed(t);
    ReadBackRowsTidy(t, exact);
    var rows := ReadBackRows(t);
    ParseFromRows(SerializeTable(t), rows);
    assert Rows(t)[1] == t.delimiter;
    assert rows[1].cells == ReadCells(t.delimiter.cells);
    ReadBackAlignments(t.delimiter.cells, t.alignments);
    BuiltFromTidy(HasCrlf(SerializeTable(t)), t.trailingNewline, rows, t.columnCount, t.alignments);
  }

  /** The grid of trimmed cell texts. */
  function TrimmedGrid(t: Table): (grid: seq<seq<string>>) {
    seq(|Grid(t)|, i requires 0 <= i < |Grid(t)| =>
      seq(t.columnCount, j requires 0 <= j < t.columnCount => Trim(Grid(t)[i][j])))
  }

  lemma ReadBackTexts(row: Row, n: nat, exact: bool, chomped: bool, j: nat)
    requires TidyRow(row, n, exact) && j < n
    ensures CellText(ReadSuffix(row, chomped), j) == Trim(CellText(row, j))
    ensures exact ==> Trim(CellText(row, j)) == CellText(row, j)
  {
    assert GoodCell(row.cells[j]);
    ReadCellText(row.cells[j]);
    if exact {
      TrimOfTrimmed(row.cells[j].markdown);
    }
  }

  lemma ReadBackGrid(t: Table, exact: bool)
    requires Tidy(t, exact)
    ensures Grid(ReadBackTable(t)) == TrimmedGrid(t)
    ensures exact ==> TrimmedGrid(t) == Grid(t)
  {
    var back := ReadBackTable(t);
    forall i | 0 <= i < |Grid(t)|
      ensures Grid(back)[i] == TrimmedGrid(t)[i]
      ensures exact ==> TrimmedGrid(t)[i] == Grid(t)[i]
    {
      var row := SemanticRows(t)[i];
      var k := if i == 0 then 0 else i + 1;
      assert row == Rows(t)[k];
      assert SemanticRows(back)[i] == ReadBackRows(t)[k];
      assert TidyRow(row, t.columnCount, exact);
      forall j | 0 <= j < t.columnCount
        ensures Grid(back)[i][j] == TrimmedGrid(t)[i][j]
        ensures exact ==> TrimmedGrid(t)[i][j] == Grid(t)[i][j]
      {
        ReadBackTexts(row, t.columnCount, exact, Chomps(t, k), j);
      }
    }
  }

  /** A table inside the language is read back with the same meaning. */
  lemma TidyReparses(t: Table)
    requires Tidy(t, true)
    ensures ParseTable(SerializeTable(t)).Some?
    ensures SameMeaning(ParseTable(SerializeTable(t)).value, t)
    ensures Tidy(ParseTable(SerializeTable(t)).value, true)
  {
    ParsePrintedTable(t, true);
    ReadBackGrid(t, true);
  }
}
