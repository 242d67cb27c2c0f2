/** A change that the protection lets through, seen on the whole table: one cell changes, or the table is read
    as another one. */
module TableChanges {
  import opened Seqs
  import opened Text
  import opened Lines
  import opened MarkdownTable
  import opened TableText
  import opened TableLayout
  import opened DocumentLayout
  import opened CellEdit
  import opened ProtectedEdits

  // ---------------------------------------------------------------- counting lines

  function LineFeeds(s: string): nat {
    if s == "" then 0 else (if s[0] == '\n' then 1 else 0) + LineFeeds(s[1..])
  }

  lemma {:induction false} LineFeedsConcat(a: string, b: string)
    ensures LineFeeds(a + b) == LineFeeds(a) + LineFeeds(b)
  {
    if a == "" {
      assert a + b == b;
    } else {
      TailConcat(a, b);
      LineFeedsConcat(a[1..], b);
    }
  }

  lemma {:induction false} LineFeedsNone(s: string)
    ensures LineFeeds(s) == 0 <==> '\n' !in s
  {
    if s != "" {
      Uncons(s);
      LineFeedsNone(s[1..]);
    }
  }

  lemma {:induction false} LineCount(s: string)
    ensures |SplitLines(s)| == 1 + LineFeeds(s)
  {
    if s != "" {
      LineCount(s[1..]);
    }
  }

  lemma {:induction false} ReadCount(source: string)
    requires '\r' !in source
    ensures |ReadLines(source)| == 1 + LineFeeds(source) - if EndsWithLf(source) then 1 else 0
  {
    NoReturnEndings(source);
    NormalizeWithoutCrlf(source);
    LineCount(source);
  }

  // ---------------------------------------------------------------- one line replaced

  predicate CleanLine(line: string) {
    line != "" && '\n' !in line && '\r' !in line
  }

  /** Replacing a line by a line replaces it among the lines that are read. */
  lemma {:induction false} ReplacedLines(lines: seq<string>, i: nat, line: string, trailing: bool)
    requires i < |lines| && CleanLine(line) && forall j :: 0 <= j < |lines| ==> CleanLine(lines[j])
    ensures var text := Terminate(lines[i := line], "\n", trailing);
            ReadLines(text) == lines[i := line] && (EndsWithLf(text) <==> trailing) && !HasCrlf(text)
  {
    var changed := lines[i := line];
    forall j | 0 <= j < |changed| ensures CleanLine(changed[j]) && Chomp(changed[j]) == changed[j] {
      assert j != i ==> changed[j] == lines[j];
    }
    ReadBack(changed, false, trailing);
    assert ReadBackLines(changed, false, trailing) == changed;
    PrintedEnd(changed, false, trailing);
    NoCrlfWhenChomped(changed, trailing);
  }

  function WithRow(t: Table, i: nat, row: Row): Table
    requires i < |Rows(t)|
  {
    if i == 0 then t.(header := row) else if i == 1 then t.(delimiter := row) else t.(body := t.body[i - 2 := row])
  }

  lemma WithRowRows(t: Table, i: nat, row: Row)
    requires i < |Rows(t)|
    ensures Rows(WithRow(t, i, row)) == Rows(t)[i := row]
  {
  }

  lemma {:induction false} MaxCellsSame(a: seq<Row>, b: seq<Row>)
    requires |a| == |b| && forall j :: 0 <= j < |a| ==> |a[j].cells| == |b[j].cells|
    ensures MaxCells(a) == MaxCells(b)
  {
    if a != [] {
      MaxCellsSame(a[1..], b[1..]);
    }
  }

  /** A data row with as many cells takes the place of another one in the table. */
  lemma {:induction false} ReplacedRowBuilds(t: Table, i: nat, row: Row)
    requires BuildTable(t.crlf, t.trailingNewline, Rows(t)) == Some(t)
    requires i < |Rows(t)| && i != 1 && |row.cells| == |Rows(t)[i].cells|
    ensures BuildTable(t.crlf, t.trailingNewline, Rows(t)[i := row]) == Some(WithRow(t, i, row))
  {
    var rows := Rows(t)[i := row];
    MaxCellsSame(Rows(t), rows);
    assert i > 1 ==> rows[2..] == t.body[i - 2 := row];
    assert i == 0 ==> rows[2..] == t.body;
  }

  // ---------------------------------------------------------------- the changed source

  /** The table that was parsed, with its lines. */
  predicate ParsedFrom(source: string, t: Table, lines: seq<string>) {
    && '\r' !in source && ParseTable(source) == Some(t) && ReadFrom(t, lines, source)
    && (forall j :: 0 <= j < |lines| ==> CleanLine(lines[j]) && ParseRow(lines[j]) == Rows(t)[j])
    && BuildTable(t.crlf, t.trailingNewline, Rows(t)) == Some(t)
  }

  lemma {:induction false} SourceParsed(source: string)
    requires '\r' !in source && ParseTable(source).Some?
    ensures ParsedFrom(source, ParseTable(source).value, ReadLines(source))
  {
    var t, lines := ParseTable(source).value, ReadLines(source);
    SourceReadsLines(source);
    ParsedParts(source);
    forall j | 0 <= j < |lines| ensures CleanLine(lines[j]) {
      assert '\r' !in lines[j] by {
        SerializedWithoutReturn(t, lines, j);
      }
    }
  }

  lemma {:induction false} SerializedWithoutReturn(t: Table, lines: seq<string>, j: nat)
    requires ReadFrom(t, lines, SerializeTable(t)) && '\r' !in SerializeTable(t) && j < |lines|
    ensures '\r' !in lines[j]
  {
    assert SerializeRows(Rows(t)) == lines;
    JoinCut(lines, j, "\n");
    InMiddle(TextBefore(lines, j, "\n"), lines[j], TextAfter(lines, j, "\n"));
  }

  lemma InMiddle(a: string, b: string, c: string)
    ensures '\r' in b ==> '\r' in a + b + c
  {
  }

  /** What stands before and after line `i`. */
  function Before(lines: seq<string>, i: nat): string
    requires i < |lines|
  {
    TextBefore(lines, i, "\n")
  }

  function Behind(t: Table, lines: seq<string>, i: nat): string
    requires i < |lines|
  {
    TextAfter(lines, i, "\n") + if t.trailingNewline then "\n" else ""
  }

  lemma {:induction false} SourceAround(source: string, t: Table, lines: seq<string>, i: nat, line: string)
    requires ReadFrom(t, lines, source) && i < |lines|
    ensures source == Before(lines, i) + lines[i] + Behind(t, lines, i)
    ensures Terminate(lines[i := line], "\n", t.trailingNewline) == Before(lines, i) + line + Behind(t, lines, i)
    ensures |Before(lines, i)| == PartStart(lines, i)
  {
    var ending := if t.trailingNewline then "\n" else "";
    assert SerializeRows(Rows(t)) == lines;
    JoinAround(lines, i, "\n", line);
    Assoc(Before(lines, i) + lines[i], TextAfter(lines, i, "\n"), ending);
    Assoc(Before(lines, i) + line, TextAfter(lines, i, "\n"), ending);
  }

  /** The source with another text in place of line `i`. */
  function Replacing(t: Table, lines: seq<string>, i: nat, text: string): string
    requires i < |lines|
  {
    Before(lines, i) + text + Behind(t, lines, i)
  }

  /** If the new text is one line, the source parses as if that row had been replaced. */
  lemma {:induction false} ReplacedParses(source: string, t: Table, lines: seq<string>, i: nat, line: string)
    requires ParsedFrom(source, t, lines) && i < |lines| && CleanLine(line)
    ensures ParseTable(Replacing(t, lines, i, line)) == BuildTable(false, t.trailingNewline, Rows(t)[i := ParseRow(line)])
  {
    SourceAround(source, t, lines, i, line);
    ReplacedLines(lines, i, line, t.trailingNewline);
    ReplacedRows(lines, lines[i := line], Rows(t), i, line);
    LinesParse(Replacing(t, lines, i, line), lines[i := line], Rows(t)[i := ParseRow(line)], t.trailingNewline);
  }

  lemma {:induction false} ReplacedRows(lines: seq<string>, changed: seq<string>, rows: seq<Row>, i: nat, line: string)
    requires |lines| == |rows| && i < |lines| && CleanLine(line) && changed == lines[i := line]
    requires forall j :: 0 <= j < |lines| ==> CleanLine(lines[j]) && ParseRow(lines[j]) == rows[j]
    ensures ParseRows(changed) == rows[i := ParseRow(line)]
    ensures forall j :: 0 <= j < |changed| ==> changed[j] != ""
  {
    forall j | 0 <= j < |changed| ensures changed[j] != "" {
      assert CleanLine(lines[j]);
    }
  }

  lemma {:induction false} LinesParse(text: string, lines: seq<string>, rows: seq<Row>, trailing: bool)
    requires ReadLines(text) == lines && ParseRows(lines) == rows && |rows| >= 2
    requires (EndsWithLf(text) <==> trailing) && !HasCrlf(text)
    requires forall j :: 0 <= j < |lines| ==> lines[j] != ""
    ensures ParseTable(text) == BuildTable(false, trailing, rows)
  {
    ParseFromRows(text, rows);
  }

  /** Line feeds in the new text add lines. */
  lemma {:induction false} ReplacedCount(source: string, t: Table, lines: seq<string>, i: nat, text: string)
    requires ParsedFrom(source, t, lines) && i < |lines| && '\r' !in Replacing(t, lines, i, text)
    requires text != "" && text[|text| - 1] != '\n'
    ensures |ReadLines(Replacing(t, lines, i, text))| == |lines| + LineFeeds(text)
  {
    var changed := Replacing(t, lines, i, text);
    var before, behind := Before(lines, i), Behind(t, lines, i);
    SourceAround(source, t, lines, i, text);
    ReadCount(source);
    ReadCount(changed);
    LineFeedsConcat(before + lines[i], behind);
    LineFeedsConcat(before, lines[i]);
    LineFeedsConcat(before + text, behind);
    LineFeedsConcat(before, text);
    LineFeedsNone(lines[i]);
    SameEnd(before, lines[i], text, behind);
    assert |ReadLines(source)| == |lines|;
  }

  lemma SameEnd(before: string, line: string, text: string, behind: string)
    requires line != "" && '\n' !in line && text != "" && text[|text| - 1] != '\n'
    ensures EndsWithLf(before + line + behind) <==> EndsWithLf(before + text + behind)
  {
    if behind != "" {
      assert (before + line + behind)[|before + line + behind| - 1] == behind[|behind| - 1];
      assert (before + text + behind)[|before + text + behind| - 1] == behind[|behind| - 1];
    } else {
      assert (before + line + behind)[|before + line + behind| - 1] == line[|line| - 1];
      assert (before + text + behind)[|before + text + behind| - 1] == text[|text| - 1];
    }
  }

  // ---------------------------------------------------------------- one cell of the table

  /** `u` is `t` with another text in cell `k` of row `i`, and nothing else changed but the spelling of that row. */
  predicate CellChanged(t: Table, u: Table, i: nat, k: nat, text: string) {
    && i < |Rows(t)| == |Rows(u)| && k < |Rows(t)[i].cells|
    && KeepsFrame(Rows(t)[i], Rows(u)[i], k, text)
    && u == WithRow(t, i, Rows(u)[i])
  }

  /** The changed source parses to the table with the changed text in the changed cell. */
  predicate TableChanges(t: Table, changed: string, i: nat, k: nat, start: int, end: int, insert: string) {
    && i < |Rows(t)| && InCellText(Rows(t)[i], k, start, end)
    && ParseTable(changed).Some?
    && CellChanged(t, ParseTable(changed).value, i, k, Trim(RawAfter(Rows(t)[i], k, start, end, insert)))
  }

  /** The line of the row after the change. */
  function LineAfter(line: string, start: int, end: int, insert: string): string
    requires 0 <= start <= end <= |line|
  {
    line[..start] + insert + line[end..]
  }

  /** The change leaves the leading pipe before and the trailing pipe behind the inserted text. */
  lemma {:induction false} PipesAround(row: Row, line: string, k: nat, start: int, end: int, insert: string)
    requires line == SerializeRow(row) && row.leadingPipe && row.trailingPipe && InCellText(row, k, start, end)
    requires '\n' !in line && '\r' !in line && '\r' !in insert
    ensures 0 < start <= end < |line|
    ensures var text := LineAfter(line, start, end, insert);
            text != "" && text[|text| - 1] != '\n' && '\r' !in text && ('\n' in text <==> '\n' in insert)
    ensures LineFeeds(LineAfter(line, start, end, insert)) == LineFeeds(insert)
  {
    PlacedEnd(row, 0, k);
    RowEndInside(row, 0, |line|, 0);
    var text := LineAfter(line, start, end, insert);
    assert text[|text| - 1] == line[|line| - 1];
    LineFeedsConcat(line[..start] + insert, line[end..]);
    LineFeedsConcat(line[..start], insert);
    LineFeedsNone(line[..start]);
    LineFeedsNone(line[end..]);
  }

  /** If the change inserts no line feed, the table changes in that cell exactly when the cell stays closed. */
  lemma {:induction false} LineChangeExact(source: string, t: Table, lines: seq<string>, i: nat, k: nat,
                                           start: int, end: int, insert: string)
    requires ParsedFrom(source, t, lines) && i < |lines| && i != 1 && InCellText(Rows(t)[i], k, start, end)
    requires Rows(t)[i].leadingPipe && Rows(t)[i].trailingPipe && TextFits(Rows(t)[i], insert)
    requires '\r' !in insert && '\n' !in insert
    ensures 0 <= start <= end <= |lines[i]|
    ensures TableChanges(t, Replacing(t, lines, i, LineAfter(lines[i], start, end, insert)), i, k, start, end, insert)
       <==> StaysClosed(Rows(t)[i], k, start, end, insert)
  {
    var row, line := Rows(t)[i], lines[i];
    PipesAround(row, line, k, start, end, insert);
    var text := LineAfter(line, start, end, insert);
    ChangeIsExact(row, k, start, end, insert);
    ReplacedParses(source, t, lines, i, text);
    ParsedChange(t, i, k, ParseRow(text), ParseTable(Replacing(t, lines, i, text)), Trim(RawAfter(row, k, start, end, insert)));
  }

  /** A replaced row changes the table in one cell exactly when it keeps the frame of the row. */
  lemma {:induction false} ParsedChange(t: Table, i: nat, k: nat, row: Row, parsed: Option<Table>, text: string)
    requires BuildTable(t.crlf, t.trailingNewline, Rows(t)) == Some(t) && !t.crlf
    requires i < |Rows(t)| && i != 1 && k < |Rows(t)[i].cells|
    requires parsed == BuildTable(false, t.trailingNewline, Rows(t)[i := row])
    ensures parsed.Some? && CellChanged(t, parsed.value, i, k, text) <==> KeepsFrame(Rows(t)[i], row, k, text)
  {
    var rows := Rows(t)[i := row];
    if parsed.Some? {
      BuiltRows(false, t.trailingNewline, rows);
    }
    if |row.cells| == |Rows(t)[i].cells| {
      ReplacedRowBuilds(t, i, row);
      WithRowRows(t, i, row);
    }
  }

  lemma BuiltRows(crlf: bool, trailing: bool, rows: seq<Row>)
    requires BuildTable(crlf, trailing, rows).Some?
    ensures Rows(BuildTable(crlf, trailing, rows).value) == rows
  {
    BuiltParts(crlf, trailing, rows);
  }

  /** If it inserts one, the source has more lines than the table has rows. */
  lemma {:induction false} LineFeedBreaks(source: string, t: Table, lines: seq<string>, i: nat, k: nat,
                                          start: int, end: int, insert: string)
    requires ParsedFrom(source, t, lines) && i < |lines| && InCellText(Rows(t)[i], k, start, end)
    requires Rows(t)[i].leadingPipe && Rows(t)[i].trailingPipe && '\r' !in insert && '\n' in insert
    requires 0 <= start <= end <= |lines[i]|
    requires '\r' !in Replacing(t, lines, i, LineAfter(lines[i], start, end, insert))
    ensures !TableChanges(t, Replacing(t, lines, i, LineAfter(lines[i], start, end, insert)), i, k, start, end, insert)
  {
    var text := LineAfter(lines[i], start, end, insert);
    var changed := Replacing(t, lines, i, text);
    PipesAround(Rows(t)[i], lines[i], k, start, end, insert);
    LineFeedsNone(insert);
    ReplacedCount(source, t, lines, i, text);
    if ParseTable(changed).Some? {
      ParsedParts(changed);
    }
  }

  // ---------------------------------------------------------------- in a document

  lemma SpliceMiddle<T>(p: seq<T>, line: seq<T>, q: seq<T>, lo: nat, hi: nat, text: seq<T>)
    requires lo <= hi <= |line|
    ensures var s := p + line + q;
            s[..|p| + lo] + text + s[|p| + hi..] == p + (line[..lo] + text + line[hi..]) + q
  {
    var s := p + line + q;
    assert s[..|p| + lo] == p + line[..lo];
    assert s[|p| + hi..] == line[hi..] + q;
  }

  /** The source of the node after the change. */
  function ChangedSource(doc: string, nodeFrom: nat, nodeTo: nat, from: int, to: int, insert: string): string
    requires nodeFrom <= from <= to <= nodeTo <= |doc|
  {
    doc[nodeFrom..from] + insert + doc[to..nodeTo]
  }

  lemma {:induction false} ChangedIsReplacing(doc: string, nodeFrom: nat, nodeTo: nat, t: Table, lines: seq<string>, i: nat,
                                              from: int, to: int, start: int, end: int, insert: string)
    requires nodeFrom <= nodeTo <= |doc| && ReadFrom(t, lines, doc[nodeFrom..nodeTo]) && i < |lines|
    requires 0 <= start <= end <= |lines[i]|
    requires from == nodeFrom + PartStart(lines, i) + start && to == nodeFrom + PartStart(lines, i) + end
    ensures nodeFrom <= from <= to <= nodeTo
    ensures ChangedSource(doc, nodeFrom, nodeTo, from, to, insert) == Replacing(t, lines, i, LineAfter(lines[i], start, end, insert))
  {
    SourceAround(doc[nodeFrom..nodeTo], t, lines, i, lines[i]);
    SpliceSource(doc, nodeFrom, nodeTo, Before(lines, i), lines[i], Behind(t, lines, i), from, to, start, end, insert);
  }

  lemma {:induction false} SpliceSource(doc: string, nodeFrom: nat, nodeTo: nat, p: string, line: string, q: string,
                                        from: int, to: int, start: int, end: int, insert: string)
    requires nodeFrom <= nodeTo <= |doc| && doc[nodeFrom..nodeTo] == p + line + q && 0 <= start <= end <= |line|
    requires from == nodeFrom + |p| + start && to == nodeFrom + |p| + end
    ensures nodeFrom <= from <= to <= nodeTo
    ensures doc[nodeFrom..from] + insert + doc[to..nodeTo] == p + (line[..start] + insert + line[end..]) + q
  {
    var source := doc[nodeFrom..nodeTo];
    var a, b := |p| + start, |p| + end;
    assert |source| == |p| + |line| + |q|;
    SpliceMiddle(p, line, q, start, end, insert);
    SlicesOfSource(doc, nodeFrom, nodeTo, a, b);
  }

  lemma SlicesOfSource(doc: string, nodeFrom: nat, nodeTo: nat, from: nat, to: nat)
    requires nodeFrom <= nodeTo <= |doc| && from <= to <= nodeTo - nodeFrom
    ensures var source := doc[nodeFrom..nodeTo];
            doc[nodeFrom..nodeFrom + from] == source[..from] && doc[nodeFrom + to..nodeTo] == source[to..]
  {
  }

  /** A row of the layout is a row of the parsed table, on the same line. */
  lemma {:induction false} LaidOutLine(doc: string, nodeFrom: nat, nodeTo: nat, t: Table, lines: seq<string>, i: nat)
    requires EndsWithLine(doc, nodeFrom, nodeTo) && '\r' !in doc && ParsedFrom(doc[nodeFrom..nodeTo], t, lines)
    requires LayoutOf(doc, nodeFrom, nodeTo).Some? && i < |LayoutOf(doc, nodeFrom, nodeTo).value.rows|
    ensures var layout := LayoutOf(doc, nodeFrom, nodeTo).value;
            && i < |Rows(layout.table)| <= |Rows(t)| && Rows(layout.table)[i] == Rows(t)[i]
            && ContentFrom(layout.rows, layout.from, i) == nodeFrom + PartStart(lines, i)
  {
    var layout := LayoutOf(doc, nodeFrom, nodeTo).value;
    LayoutFaithful(doc, nodeFrom, nodeTo);
    ExplicitRows(t);
    var k := |Rows(layout.table)|;
    FirstRowsText(Rows(t), lines, k);
    ContentIsPartStart(layout.rows, Rows(layout.table), layout.from, layout.table.columnCount, i);
    PartStartPrefix(lines, k, i);
  }

  lemma SourceWithoutReturn(doc: string, from: nat, to: nat)
    requires from <= to <= |doc| && '\r' !in doc
    ensures '\r' !in doc[from..to]
  {
  }

  lemma {:induction false} ChangedWithoutReturn(doc: string, nodeFrom: nat, nodeTo: nat, from: int, to: int, insert: string)
    requires nodeFrom <= from <= to <= nodeTo <= |doc| && '\r' !in doc && '\r' !in insert
    ensures '\r' !in ChangedSource(doc, nodeFrom, nodeTo, from, to, insert)
  {
    SourceWithoutReturn(doc, nodeFrom, from);
    SourceWithoutReturn(doc, to, nodeTo);
  }

  /** What a change at these places makes of the whole table. */
  predicate ChangesTable(t: Table, changed: string, i: nat, k: nat, start: int, end: int, insert: string) {
    && i < |Rows(t)|
    && (TableChanges(t, changed, i, k, start, end, insert) <==> '\n' !in insert && StaysClosed(Rows(t)[i], k, start, end, insert))
  }

  lemma {:induction false} LocatedChange(source: string, t: Table, lines: seq<string>, i: nat, k: nat,
                                         start: int, end: int, insert: string, changed: string)
    requires ParsedFrom(source, t, lines) && i < |lines| && i != 1 && InCellText(Rows(t)[i], k, start, end)
    requires Rows(t)[i].leadingPipe && Rows(t)[i].trailingPipe && '\r' !in insert
    requires '\n' !in insert ==> TextFits(Rows(t)[i], insert)
    requires 0 <= start <= end <= |lines[i]|
    requires changed == Replacing(t, lines, i, LineAfter(lines[i], start, end, insert)) && '\r' !in changed
    ensures ChangesTable(t, changed, i, k, start, end, insert)
  {
    if '\n' in insert {
      LineFeedBreaks(source, t, lines, i, k, start, end, insert);
    } else {
      LineChangeExact(source, t, lines, i, k, start, end, insert);
    }
  }

  /** In any document: a change of a table that the protection does not block stays inside one cell of one data row,
      and the source of the table then parses to the same table with that one cell changed if and only if the change
      inserts no line feed and the text of the cell stays closed. */
  lemma {:induction false} LetThroughChangesTable(doc: string, nodeFrom: nat, nodeTo: nat, terminator: Option<Span>,
                                                  from: int, to: int, insert: string)
    returns (i: nat, k: nat, start: int, end: int)
    requires EndsWithLine(doc, nodeFrom, nodeTo) && '\r' !in doc && '\r' !in insert && LayoutOf(doc, nodeFrom, nodeTo).Some?
    requires var layout := LayoutOf(doc, nodeFrom, nodeTo).value;
             && OuterPipes(layout.table) && ('\n' !in insert ==> TextFitsAll(layout.table, insert))
             && nodeFrom <= from <= to <= layout.to - (if layout.table.trailingNewline then 1 else 0)
             && (from == to ==> insert != "")
             && !Blocked(layout, terminator, from, to, insert)
    ensures var layout := LayoutOf(doc, nodeFrom, nodeTo).value;
            && PermittedAt(layout, i, k, from, to) && AtOffset(layout, i, from, start) && AtOffset(layout, i, to, end)
    ensures to <= nodeTo && ParseTable(doc[nodeFrom..nodeTo]).Some?
    ensures ChangesTable(ParseTable(doc[nodeFrom..nodeTo]).value, ChangedSource(doc, nodeFrom, nodeTo, from, to, insert),
                         i, k, start, end, insert)
  {
    var source := doc[nodeFrom..nodeTo];
    i, k, start, end := LetThroughLocated(doc, nodeFrom, nodeTo, terminator, from, to, insert);
    SourceWithoutReturn(doc, nodeFrom, nodeTo);
    SourceParsed(source);
    PermittedLine(doc, nodeFrom, nodeTo, ParseTable(source).value, ReadLines(source), i, k, from, to, start, end, insert);
  }

  lemma {:induction false} PermittedLine(doc: string, nodeFrom: nat, nodeTo: nat, t: Table, lines: seq<string>, i: nat, k: nat,
                                         from: int, to: int, start: int, end: int, insert: string)
    requires EndsWithLine(doc, nodeFrom, nodeTo) && '\r' !in doc && '\r' !in insert && LayoutOf(doc, nodeFrom, nodeTo).Some?
    requires ParsedFrom(doc[nodeFrom..nodeTo], t, lines)
    requires var layout := LayoutOf(doc, nodeFrom, nodeTo).value;
             && OuterPipes(layout.table) && ('\n' !in insert ==> TextFitsAll(layout.table, insert))
             && PermittedAt(layout, i, k, from, to) && RowReads(doc, layout, i)
             && AtOffset(layout, i, from, start) && AtOffset(layout, i, to, end)
             && InCellText(Rows(layout.table)[i], k, start, end)
    ensures nodeFrom <= from <= to <= nodeTo
    ensures ChangesTable(t, ChangedSource(doc, nodeFrom, nodeTo, from, to, insert), i, k, start, end, insert)
  {
    var layout := LayoutOf(doc, nodeFrom, nodeTo).value;
    LaidOutLine(doc, nodeFrom, nodeTo, t, lines, i);
    LayoutFaithful(doc, nodeFrom, nodeTo);
    DataRow(layout.rows, Rows(layout.table), layout.from, layout.table.columnCount, i);
    assert '\n' !in insert ==> TextFits(Rows(layout.table)[i], insert);
    PlacedEnd(Rows(t)[i], 0, k);
    RowEndInside(Rows(t)[i], 0, |lines[i]|, 0);
    ChangedIsReplacing(doc, nodeFrom, nodeTo, t, lines, i, from, to, start, end, insert);
    ChangedWithoutReturn(doc, nodeFrom, nodeTo, from, to, insert);
    LocatedChange(doc[nodeFrom..nodeTo], t, lines, i, k, start, end, insert,
                  ChangedSource(doc, nodeFrom, nodeTo, from, to, insert));
  }

  /** The delimiter row is no data row. */
  lemma DataRow(rows: seq<RowLayout>, source: seq<Row>, layoutFrom: int, n: nat, i: nat)
    requires LaidOut(rows, source, layoutFrom, n) && i < |rows| && rows[i].semanticIndex.Some?
    ensures i != 1
  {
    assert LaidOutRow(rows, source, layoutFrom, n, i);
  }
}
