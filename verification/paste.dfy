/** Pasting a grid of texts into a table, and copying a selection and pasting it back. */
module Paste {
  import opened Seqs
  import opened Sequences
  import opened Text
  import opened Lines
  import opened MarkdownTable
  import opened TableEdits
  import opened Delimited
  import opened Clipboard

  type TextGrid = seq<seq<string>>

  // ---------------------------------------------------------------- reading the clipboard

  /** `replace(/\r\n/g, '\n').replace(/\r/g, '\n')` */
  function NormalizeReturns(text: string): string {
    ReturnsToNewlines(Normalize(text))
  }

  function ReturnsToNewlines(text: string): string {
    if text == "" then "" else [if text[0] == '\r' then '\n' else text[0]] + ReturnsToNewlines(text[1..])
  }

  function ImportRow(row: seq<string>): (r: seq<string>)
    ensures |r| == |row|
  {
    seq(|row|, j requires 0 <= j < |row| => NormalizeImportedCell(row[j]))
  }

  function ImportGrid(rows: TextGrid): (r: TextGrid)
    ensures |r| == |rows|
  {
    seq(|rows|, i requires 0 <= i < |rows| => ImportRow(rows[i]))
  }

  /** Tab-separated text if a tab stands outside of quotes; comma-separated text if it is valid,
      rectangular and at least two wide; otherwise one cell per line. */
  function ParseClipboard(text: string): TextGrid {
    var normalized := NormalizeReturns(text);
    var csv := ParseDelimited(normalized, ',');
    if UnquotedFrom(normalized, '\t', false) then ImportGrid(ParseDelimited(normalized, '\t').rows)
    else if UnquotedFrom(normalized, ',', false) && csv.valid && csv.rows != [] && |csv.rows[0]| > 1
            && (forall i :: 0 <= i < |csv.rows| ==> |csv.rows[i]| == |csv.rows[0]|)
    then ImportGrid(csv.rows)
    else
      var lines := SplitLines(normalized);
      var kept := if |lines| > 1 && lines[|lines| - 1] == "" then lines[..|lines| - 1] else lines;
      seq(|kept|, i requires 0 <= i < |kept| => [NormalizeImportedCell(kept[i])])
  }

  // ---------------------------------------------------------------- writing into the table

  function GridWidth(grid: TextGrid): (w: nat)
    ensures forall i :: 0 <= i < |grid| ==> |grid[i]| <= w
  {
    if grid == [] then 0
    else
      Uncons(grid);
      var w := GridWidth(grid[1..]);
      assert forall i :: 1 <= i < |grid| ==> grid[i] == grid[1..][i - 1];
      if |grid[0]| > w then |grid[0]| else w
  }

  function PastedText(value: string): string {
    EscapeCell(LineEndsToBreaks(value))
  }

  /** The cells of a row after writing `values` from column `start` on. */
  function WrittenCells(cells: seq<Cell>, start: nat, values: seq<string>): (r: seq<Cell>)
    requires start + |values| <= |cells|
    ensures |r| == |cells|
  {
    seq(|cells|, j requires 0 <= j < |cells| =>
      if start <= j < start + |values| then CanonicalCell(PastedText(values[j - start])) else cells[j])
  }

  function WrittenRow(row: Row, columnCount: nat, start: nat, values: seq<string>): Row
    requires start + |values| <= columnCount
  {
    row.(cells := WrittenCells(Padded(row.cells, columnCount, CanonicalCell("")), start, values))
  }

  function Widened(t: Table, required: nat): Table {
    if required > t.columnCount then InsertColumns(t, t.columnCount - 1, After, required - t.columnCount) else t
  }

  function Heightened(t: Table, rowCount: nat): Table {
    if rowCount - 1 > |t.body| then InsertRows(t, |t.body|, After, rowCount - 1 - |t.body|) else t
  }

  /** The table made large enough for the grid. */
  function Enlarged(t: Table, startRow: nat, startColumn: nat, grid: TextGrid): Table {
    Heightened(Widened(t, startColumn + GridWidth(grid)), startRow + |grid|)
  }

  function WrittenRows(rows: seq<Row>, columnCount: nat, startRow: nat, startColumn: nat, grid: TextGrid, done: nat): (r: seq<Row>)
    requires done <= |grid| && startColumn + GridWidth(grid) <= columnCount
    ensures |r| == |rows|
  {
    seq(|rows|, i requires 0 <= i < |rows| =>
      if startRow <= i < startRow + done
      then WrittenRow(rows[i], columnCount, startColumn, grid[i - startRow])
      else rows[i])
  }

  // ---------------------------------------------------------------- what enlarging does

  /** `u` has the cell texts and alignments of `t`, and blank cells elsewhere. */
  predicate Extends(t: Table, u: Table) {
    && Shaped(u) && t.columnCount <= u.columnCount && |t.body| <= |u.body|
    && |t.alignments| == t.columnCount
    && (forall j :: 0 <= j < u.columnCount ==>
          u.alignments[j] == if j < t.columnCount then t.alignments[j] else Unaligned)
    && (forall i :: 0 <= i < |SemanticRows(u)| ==> ExtendsRow(t, u, i))
  }

  predicate ExtendsRow(t: Table, u: Table, i: nat)
    requires i < |SemanticRows(u)|
  {
    forall j :: 0 <= j < u.columnCount ==> CellText(SemanticRows(u)[i], j) == TextAt(t, i, j)
  }

  /** The text at a position; outside of the table it is blank. */
  function TextAt(t: Table, i: nat, j: nat): string {
    if i < |SemanticRows(t)| then CellText(SemanticRows(t)[i], j) else ""
  }

  lemma ExtendsItself(t: Table)
    requires Shaped(t)
    ensures Extends(t, t)
  {
  }

  lemma ShapedRow(t: Table, i: nat)
    requires Shaped(t) && i < |SemanticRows(t)|
    ensures |SemanticRows(t)[i].cells| <= t.columnCount
  {
    assert SemanticRows(t)[i] == Rows(t)[if i == 0 then 0 else i + 1];
  }

  lemma ExtendsTransitive(t: Table, u: Table, v: Table)
    requires Shaped(t) && Extends(t, u) && Extends(u, v)
    ensures Extends(t, v)
  {
    forall i | 0 <= i < |SemanticRows(v)| ensures ExtendsRow(t, v, i) {
      assert ExtendsRow(u, v, i);
      if i < |SemanticRows(u)| {
        assert ExtendsRow(t, u, i);
        ShapedRow(u, i);
        forall j | 0 <= j < v.columnCount ensures CellText(SemanticRows(v)[i], j) == TextAt(t, i, j) {
          if i < |SemanticRows(t)| {
            ShapedRow(t, i);
          }
        }
      }
    }
  }

  lemma AppendAtEnd<T>(s: seq<T>, extra: nat, filler: T)
    ensures EditSeq(Insert(|s|, extra), s, filler) == s + seq(extra, i => filler)
  {
  }

  lemma AppendedCells(row: Row, n: nat, extra: nat)
    requires |row.cells| <= n
    ensures var edited := EditCells(row, Insert(n, extra), n, CanonicalCell(""));
            |edited.cells| == n + extra
            && forall j :: 0 <= j ==> CellText(edited, j) == CellText(row, j)
  {
    AppendAtEnd(Padded(row.cells, n, CanonicalCell("")), extra, CanonicalCell(""));
  }

  lemma EnlargedColumns(t: Table, extra: nat)
    requires Shaped(t) && extra > 0
    ensures var wide := InsertColumns(t, t.columnCount - 1, After, extra);
            Extends(t, wide) && wide.columnCount == t.columnCount + extra && |wide.body| == |t.body|
  {
    var e := Insert(t.columnCount, extra);
    var wide := InsertColumns(t, t.columnCount - 1, After, extra);
    assert wide == RebuildColumns(t, e);
    forall i | 0 <= i < |SemanticRows(t)|
      ensures |SemanticRows(wide)[i].cells| == t.columnCount + extra
      ensures ExtendsRow(t, wide, i)
    {
      ShapedRow(t, i);
      AppendedCells(SemanticRows(t)[i], t.columnCount, extra);
      assert SemanticRows(wide)[i] == EditCells(SemanticRows(t)[i], e, t.columnCount, CanonicalCell(""));
    }
    AppendAtEnd(t.alignments, extra, Unaligned);
    assert t.delimiter == Rows(t)[1];
    AppendAtEnd(Padded(t.delimiter.cells, t.columnCount, DelimiterCell(Unaligned)), extra, DelimiterCell(Unaligned));
    ShapedFromRows(wide);
  }

  lemma ShapedFromRows(t: Table)
    requires t.columnCount > 0 && |t.alignments| == t.columnCount && |t.delimiter.cells| <= t.columnCount
    requires forall i :: 0 <= i < |SemanticRows(t)| ==> |SemanticRows(t)[i].cells| <= t.columnCount
    ensures Shaped(t)
  {
    forall i | 0 <= i < |Rows(t)| ensures |Rows(t)[i].cells| <= t.columnCount {
      if i != 1 {
        assert Rows(t)[i] == SemanticRows(t)[if i == 0 then 0 else i - 1];
      }
    }
  }

  lemma EnlargedRows(t: Table, extra: nat)
    requires Shaped(t) && extra > 0
    ensures var tall := InsertRows(t, |t.body|, After, extra);
            Extends(t, tall) && tall.columnCount == t.columnCount && |tall.body| == |t.body| + extra
  {
    var rows := SemanticRows(t);
    var blank := BlankRow(t, rows[|rows| - 1]);
    AppendAtEnd(rows, extra, blank);
    var all := rows + seq(extra, i => blank);
    var tall := InsertRows(t, |t.body|, After, extra);
    Uncons(all);
    assert SemanticRows(tall) == all;
    forall i | 0 <= i < |all| ensures |all[i].cells| <= t.columnCount && ExtendsRow(t, tall, i) {
      if i < |rows| {
        ShapedRow(t, i);
      }
    }
    assert t.delimiter == Rows(t)[1];
    ShapedFromRows(tall);
  }

  lemma WidenedSpec(t: Table, required: nat)
    requires Shaped(t)
    ensures var wide := Widened(t, required);
            Extends(t, wide) && wide.columnCount == Max(t.columnCount, required) && |wide.body| == |t.body|
  {
    if required > t.columnCount {
      EnlargedColumns(t, required - t.columnCount);
    } else {
      ExtendsItself(t);
    }
  }

  lemma HeightenedSpec(t: Table, rowCount: nat)
    requires Shaped(t)
    ensures var tall := Heightened(t, rowCount);
            Extends(t, tall) && tall.columnCount == t.columnCount && 1 + |tall.body| == Max(1 + |t.body|, rowCount)
  {
    if rowCount - 1 > |t.body| {
      EnlargedRows(t, rowCount - 1 - |t.body|);
    } else {
      ExtendsItself(t);
    }
  }

  lemma ExtendsShaped(t: Table, u: Table)
    requires Extends(t, u)
    ensures Shaped(u)
  {
  }

  /** Enlarging keeps every cell text and adds blanks. */
  lemma EnlargedSpec(t: Table, startRow: nat, startColumn: nat, grid: TextGrid)
    requires Shaped(t) && grid != []
    ensures var large := Enlarged(t, startRow, startColumn, grid);
            && Extends(t, large)
            && large.columnCount == Max(t.columnCount, startColumn + GridWidth(grid))
            && |SemanticRows(large)| == Max(|SemanticRows(t)|, startRow + |grid|)
  {
    var wide := Widened(t, startColumn + GridWidth(grid));
    WidenedSpec(t, startColumn + GridWidth(grid));
    ExtendsShaped(t, wide);
    HeightenedSpec(wide, startRow + |grid|);
    ExtendsTransitive(t, wide, Heightened(wide, startRow + |grid|));
  }

  // ---------------------------------------------------------------- pasting

  /** The table after pasting. */
  function Pasted(t: Table, startRowIndex: int, startColumnIndex: int, grid: TextGrid): Table
    requires Shaped(t)
  {
    if grid == [] || GridWidth(grid) == 0 then t
    else
      var startRow: nat, startColumn: nat := Max(0, startRowIndex), Max(0, startColumnIndex);
      EnlargedSpec(t, startRow, startColumn, grid);
      var large := Enlarged(t, startRow, startColumn, grid);
      SetRows(large, WrittenRows(SemanticRows(large), large.columnCount, startRow, startColumn, grid, |grid|))
  }

  /** The loops of applyMarkdownTableGrid. */
  method ApplyMarkdownTableGrid(t: Table, startRowIndex: int, startColumnIndex: int, grid: TextGrid) returns (result: Table)
    requires Shaped(t)
    ensures result == Pasted(t, startRowIndex, startColumnIndex, grid)
  {
    var gridWidth := GridWidth(grid);
    if grid == [] || gridWidth == 0 {
      return t;
    }
    var startRow: nat, startColumn: nat := Max(0, startRowIndex), Max(0, startColumnIndex);
    EnlargedSpec(t, startRow, startColumn, grid);
    var large := Enlarged(t, startRow, startColumn, grid);
    var n := large.columnCount;
    var header := large.header;
    var body := large.body;
    ghost var rows := SemanticRows(large);
    for rowOffset := 0 to |grid|
      invariant |body| == |large.body|
      invariant [header] + body == WrittenRows(rows, n, startRow, startColumn, grid, rowOffset)
    {
      ghost var before := [header] + body;
      var sourceRow := grid[rowOffset];
      var semanticRowIndex := startRow + rowOffset;
      var target := if semanticRowIndex == 0 then header else body[semanticRowIndex - 1];
      assert target == before[semanticRowIndex] == rows[semanticRowIndex];
      var padded := Padded(target.cells, n, CanonicalCell(""));
      var cells := padded;
      for columnOffset := 0 to |sourceRow|
        invariant cells == WrittenCells(padded, startColumn, sourceRow[..columnOffset])
      {
        cells := cells[startColumn + columnOffset := CanonicalCell(PastedText(sourceRow[columnOffset]))];
      }
      assert sourceRow[..|sourceRow|] == sourceRow;
      var updated := target.(cells := cells);
      if semanticRowIndex == 0 {
        header := updated;
      } else {
        body := body[semanticRowIndex - 1 := updated];
      }
      assert [header] + body == before[semanticRowIndex := updated];
    }
    result := large.(header := header, body := body);
    assert ([header] + body)[1..] == body;
  }

  /** Whether a cell lies in the pasted rectangle; rows of the grid may differ in length. */
  predicate InPasted(grid: TextGrid, startRow: nat, startColumn: nat, i: nat, j: nat) {
    startRow <= i < startRow + |grid| && startColumn <= j < startColumn + |grid[i - startRow]|
  }

  /** The text at a position after pasting. */
  function TextAfterPaste(t: Table, grid: TextGrid, r: nat, c: nat, i: nat, j: nat): string {
    if InPasted(grid, r, c, i, j) then PastedText(grid[i - r][j - c]) else TextAt(t, i, j)
  }

  predicate PastedRow(t: Table, result: Table, grid: TextGrid, r: nat, c: nat, i: nat)
    requires i < |SemanticRows(result)|
  {
    forall j :: 0 <= j < result.columnCount ==>
      CellText(SemanticRows(result)[i], j) == TextAfterPaste(t, grid, r, c, i, j)
  }

  predicate PastedAlignments(t: Table, result: Table) {
    |result.alignments| == result.columnCount && |t.alignments| == t.columnCount &&
    forall j :: 0 <= j < result.columnCount ==>
      result.alignments[j] == if j < t.columnCount then t.alignments[j] else Unaligned
  }

  /** Pasting changes exactly its rectangle: the table becomes as large as needed, each cell of the
      rectangle holds the escaped text, every other cell keeps its text or is blank if it is new. */
  lemma PasteSpec(t: Table, startRowIndex: int, startColumnIndex: int, grid: TextGrid, r: nat, c: nat)
    requires Shaped(t) && grid != [] && GridWidth(grid) > 0
    requires r == Max(0, startRowIndex) && c == Max(0, startColumnIndex)
    ensures var result := Pasted(t, startRowIndex, startColumnIndex, grid);
            && result.columnCount == Max(t.columnCount, c + GridWidth(grid))
            && |SemanticRows(result)| == Max(|SemanticRows(t)|, r + |grid|)
            && PastedAlignments(t, result)
            && forall i :: 0 <= i < |SemanticRows(result)| ==> PastedRow(t, result, grid, r, c, i)
  {
    EnlargedSpec(t, r, c, grid);
    var large := Enlarged(t, r, c, grid);
    var result := Pasted(t, startRowIndex, startColumnIndex, grid);
    var written := WrittenRows(SemanticRows(large), large.columnCount, r, c, grid, |grid|);
    Uncons(written);
    assert SemanticRows(result) == written;
    forall i | 0 <= i < |written| ensures PastedRow(t, result, grid, r, c, i) {
      assert ExtendsRow(t, large, i);
      WrittenRowTexts(t, large, grid, r, c, i);
    }
  }

  lemma {:induction false} WrittenRowTexts(t: Table, large: Table, grid: TextGrid, r: nat, c: nat, i: nat)
    requires i < |SemanticRows(large)| && ExtendsRow(t, large, i) && c + GridWidth(grid) <= large.columnCount
    ensures var row := WrittenRows(SemanticRows(large), large.columnCount, r, c, grid, |grid|)[i];
            forall j :: 0 <= j < large.columnCount ==> CellText(row, j) == TextAfterPaste(t, grid, r, c, i, j)
  {
    if r <= i < r + |grid| {
      forall j | 0 <= j < large.columnCount
        ensures CellText(WrittenRow(SemanticRows(large)[i], large.columnCount, c, grid[i - r]), j)
             == TextAfterPaste(t, grid, r, c, i, j)
      {
        WrittenText(SemanticRows(large)[i], large.columnCount, c, grid[i - r], j);
      }
    }
  }

  lemma WrittenText(row: Row, n: nat, start: nat, values: seq<string>, j: nat)
    requires start + |values| <= n && j < n
    ensures CellText(WrittenRow(row, n, start, values), j)
         == if start <= j < start + |values| then PastedText(values[j - start]) else CellText(row, j)
  {
    assert Padded(row.cells, n, CanonicalCell(""))[j].markdown == CellText(row, j);
  }

  /** A pasted text is one segment: it cannot break its row. */
  lemma PastedIsOneSegment(value: string)
    ensures Split(PastedText(value)) == [PastedText(value)] && '\n' !in PastedText(value)
  {
    EscapeSeals(LineEndsToBreaks(value));
    NoLineEnds(value);
    EscapeKeepsNewlines(LineEndsToBreaks(value));
  }

  lemma {:induction false} NoLineEnds(s: string)
    ensures '\n' !in LineEndsToBreaks(s)
    decreases |s|
  {
    if s != "" {
      NoLineEnds(s[1..]);
      if |s| >= 2 {
        NoLineEnds(s[2..]);
      }
    }
  }

  // ---------------------------------------------------------------- copying and pasting back

  function CopiedRow(row: Row, low: int, high: int): (values: seq<string>)
    requires 0 <= low <= high
    ensures |values| == high - low + 1
  {
    seq(high - low + 1, j requires 0 <= j => ClipboardCellValue(CellText(row, low + j)))
  }

  function CopiedGrid(t: Table, b: Bounds): (grid: TextGrid)
    requires 0 <= b.minRow <= b.maxRow < |SemanticRows(t)| && 0 <= b.minColumn <= b.maxColumn
    ensures |grid| == b.maxRow - b.minRow + 1
    ensures forall i :: 0 <= i < |grid| ==> |grid[i]| == b.maxColumn - b.minColumn + 1
  {
    var grid := seq(b.maxRow - b.minRow + 1, i requires 0 <= i <= b.maxRow - b.minRow =>
      CopiedRow(SemanticRows(t)[b.minRow + i], b.minColumn, b.maxColumn));
    assert forall i :: 0 <= i < |grid| ==> grid[i] == CopiedRow(SemanticRows(t)[b.minRow + i], b.minColumn, b.maxColumn);
    grid
  }

  function SelectionToTsv(t: Table, b: Bounds): string
    requires 0 <= b.minRow <= b.maxRow < |SemanticRows(t)| && 0 <= b.minColumn <= b.maxColumn
  {
    WriteGrid(CopiedGrid(t, b), '\t')
  }

  lemma BoundsFit(t: Table, selection: CellRange)
    requires t.columnCount > 0
    ensures var b := SelectionBounds(|SemanticRows(t)|, t.columnCount, selection);
            0 <= b.minRow <= b.maxRow < |SemanticRows(t)| && 0 <= b.minColumn <= b.maxColumn < t.columnCount
  {
  }

  /** A cell text as parsing yields it, without carriage returns. */
  predicate Copyable(s: string) {
    Sealed(s) && '\n' !in s && '\r' !in s
  }

  lemma {:induction false} NoReturns(s: string)
    requires '\r' !in s
    ensures NormalizeReturns(s) == s
  {
    assert !HasCrlf(s);
    NormalizeWithoutCrlf(s);
    ReturnsUnchanged(s);
  }

  lemma {:induction false} ReturnsUnchanged(s: string)
    requires '\r' !in s
    ensures ReturnsToNewlines(s) == s
  {
    if s != "" {
      ReturnsUnchanged(s[1..]);
      Uncons(s);
    }
  }

  // Writing introduces no carriage return.

  lemma {:induction false} BreaksNoReturn(s: string)
    requires '\r' !in s
    ensures '\r' !in BreaksToNewlines(s)
    decreases |s|
  {
    if s != "" {
      if BreakLength(s) > 0 {
        BreaksNoReturn(s[BreakLength(s)..]);
      } else {
        BreaksNoReturn(s[1..]);
      }
    }
  }

  lemma {:induction false} UnescapeNoReturn(s: string)
    requires '\r' !in s
    ensures '\r' !in UnescapePipes(s)
  {
    if s != "" {
      var k := |s| - 1;
      if s[k] == '|' && k > 0 && s[k - 1] == '\\' {
        UnescapeNoReturn(s[..k - 1]);
      } else {
        UnescapeNoReturn(s[..k]);
      }
    }
  }

  lemma {:induction false} QuotesNoReturn(s: string)
    requires '\r' !in s
    ensures '\r' !in DoubleQuotes(s)
  {
    if s != "" {
      QuotesNoReturn(s[1..]);
    }
  }

  lemma {:induction false} JoinNoReturn(parts: seq<string>, sep: string)
    requires '\r' !in sep && forall i :: 0 <= i < |parts| ==> '\r' !in parts[i]
    ensures '\r' !in Join(parts, sep)
  {
    if |parts| > 1 {
      JoinNoReturn(parts[1..], sep);
    }
  }

  lemma GridNoReturn(grid: TextGrid)
    requires forall i, j :: 0 <= i < |grid| && 0 <= j < |grid[i]| ==> '\r' !in grid[i][j]
    ensures '\r' !in WriteGrid(grid, '\t')
  {
    forall i | 0 <= i < |grid| ensures '\r' !in WriteRows(grid, '\t')[i] {
      forall j | 0 <= j < |grid[i]| ensures '\r' !in QuoteCells(grid[i], '\t')[j] {
        QuotesNoReturn(grid[i][j]);
      }
      JoinNoReturn(QuoteCells(grid[i], '\t'), "\t");
    }
    JoinNoReturn(WriteRows(grid, '\t'), "\n");
  }

  predicate IsEnding(ending: string) {
    ending == "\n" || ending == "\r\n" || ending == "\r"
  }

  lemma {:induction false} NormalizeParts(a: string, b: string)
    requires a == "" || b == "" || a[|a| - 1] != '\r' || b[0] != '\n'
    ensures Normalize(a + b) == Normalize(a) + Normalize(b)
    decreases |a|
  {
    if a == "" {
      assert a + b == b;
    } else {
      TailConcat(a, b);
      if |a| >= 2 && a[0] == '\r' && a[1] == '\n' {
        TailConcat(a[1..], b);
        NormalizeParts(a[2..], b);
        Assoc("\n", Normalize(a[2..]), Normalize(b));
      } else {
        assert |a| >= 2 ==> (a + b)[1] == a[1];
        NormalizeParts(a[1..], b);
        Assoc([a[0]], Normalize(a[1..]), Normalize(b));
      }
    }
  }

  lemma {:induction false} ReturnsParts(a: string, b: string)
    ensures ReturnsToNewlines(a + b) == ReturnsToNewlines(a) + ReturnsToNewlines(b)
  {
    if a == "" {
      assert a + b == b;
    } else {
      TailConcat(a, b);
      ReturnsParts(a[1..], b);
      Assoc([if a[0] == '\r' then '\n' else a[0]], ReturnsToNewlines(a[1..]), ReturnsToNewlines(b));
    }
  }

  lemma ReadParts(a: string, b: string)
    requires a == "" || b == "" || a[|a| - 1] != '\r' || b[0] != '\n'
    ensures NormalizeReturns(a + b) == NormalizeReturns(a) + NormalizeReturns(b)
  {
    NormalizeParts(a, b);
    ReturnsParts(Normalize(a), Normalize(b));
  }

  lemma EndingIs(ending: string)
    requires IsEnding(ending)
    ensures NormalizeReturns(ending) == "\n"
  {
    var normalized := if ending == "\r" then "\r" else "\n";
    assert Normalize(ending) == normalized by {
      assert ending == "\r\n" ==> ending[2..] == "";
      assert ending != "\r\n" ==> ending[1..] == "";
    }
    assert normalized[1..] == "";
    assert ReturnsToNewlines(normalized) == ['\n'] + ReturnsToNewlines("");
  }

  /** Every line ending, of whatever style, is read as a line feed. */
  lemma {:induction false} EndingRead(x: string, ending: string, y: string)
    requires IsEnding(ending) && (x != "" ==> x[|x| - 1] != '\r') && (ending == "\r" && y != "" ==> y[0] != '\n')
    ensures NormalizeReturns(x + ending + y) == NormalizeReturns(x) + "\n" + NormalizeReturns(y)
  {
    EndingIs(ending);
    ReadParts(x, ending);
    ReadParts(x + ending, y);
  }

  /** The style of the line endings does not change what is read. */
  lemma {:induction false} JoinRead(lines: seq<string>, ending: string)
    requires IsEnding(ending) && forall i :: 0 <= i < |lines| ==> '\r' !in lines[i] && (ending == "\r" ==> '\n' !in lines[i])
    ensures NormalizeReturns(Join(lines, ending)) == Join(lines, "\n")
  {
    if |lines| == 1 {
      NoReturns(lines[0]);
    } else if |lines| > 1 {
      JoinRead(lines[1..], ending);
      NoReturns(lines[0]);
      var rest := Join(lines[1..], ending);
      if ending == "\r" && rest != "" {
        StartOfJoin(lines[1..]);
      }
      EndingRead(lines[0], ending, rest);
    }
  }

  lemma StartOfJoin(lines: seq<string>)
    requires lines != [] && '\n' !in lines[0] && Join(lines, "\r") != ""
    ensures Join(lines, "\r")[0] != '\n'
  {
  }

  lemma TerminatedRead(lines: seq<string>, ending: string, trailing: bool)
    requires lines != [] && IsEnding(ending)
    requires forall i :: 0 <= i < |lines| ==> '\r' !in lines[i] && (ending == "\r" ==> '\n' !in lines[i])
    ensures NormalizeReturns(Terminate(lines, ending, trailing)) == Terminate(lines, "\n", trailing)
  {
    if trailing {
      TrailingJoin(lines, ending);
      TrailingJoin(lines, "\n");
      JoinRead(lines + [""], ending);
    } else {
      JoinRead(lines, ending);
      assert Join(lines, ending) + "" == Join(lines, ending);
    }
  }

  lemma TrailingJoin(lines: seq<string>, ending: string)
    requires lines != []
    ensures Terminate(lines, ending, true) == Join(lines + [""], ending)
  {
    JoinAppend(lines, [""], ending);
  }

  /** Whatever is pasted, its line endings may have any style. */
  lemma LineEndingsIgnored(lines: seq<string>, ending: string, trailing: bool)
    requires lines != [] && IsEnding(ending)
    requires forall i :: 0 <= i < |lines| ==> '\r' !in lines[i] && (ending == "\r" ==> '\n' !in lines[i])
    ensures ParseClipboard(Terminate(lines, ending, trailing)) == ParseClipboard(Terminate(lines, "\n", trailing))
  {
    TerminatedRead(lines, ending, trailing);
    TerminatedRead(lines, "\n", trailing);
  }

  lemma DelimiterShown(grid: TextGrid, delimiter: char)
    requires grid != [] && |grid[0]| >= 2 && delimiter != '"' && delimiter != '\n'
    ensures UnquotedFrom(WriteGrid(grid, delimiter), delimiter, false)
  {
    WriteRowCons(grid[0], delimiter);
    var cell := QuoteCell(grid[0][0], delimiter);
    var rest := WriteRow(grid[0][1..], delimiter);
    if |grid| > 1 {
      WriteGridCons(grid, delimiter);
      Assoc(cell, [delimiter] + rest, "\n" + WriteGrid(grid[1..], delimiter));
      Assoc([delimiter], rest, "\n" + WriteGrid(grid[1..], delimiter));
      DelimiterSeen(grid[0][0], rest + ("\n" + WriteGrid(grid[1..], delimiter)), delimiter);
    } else {
      DelimiterSeen(grid[0][0], rest, delimiter);
    }
  }

  function WithEmptyRow(grid: TextGrid, trailing: bool): TextGrid {
    if trailing then grid + [[""]] else grid
  }

  lemma {:induction false} TerminatedGrid(grid: TextGrid, delimiter: char, trailing: bool)
    requires grid != []
    ensures Terminate(WriteRows(grid, delimiter), "\n", trailing) == WriteGrid(WithEmptyRow(grid, trailing), delimiter)
  {
    if trailing {
      TrailingJoin(WriteRows(grid, delimiter), "\n");
      assert WriteRow([""], delimiter) == "";
      assert WriteRows(grid + [[""]], delimiter) == WriteRows(grid, delimiter) + [""];
    } else {
      assert WriteGrid(grid, delimiter) + "" == WriteGrid(grid, delimiter);
    }
  }

  /** A line feed at the end of a written grid is read as no row. */
  lemma {:induction false} ParseTerminated(grid: TextGrid, delimiter: char, trailing: bool)
    requires grid != [] && delimiter != '"' && delimiter != '\n' && forall i :: 0 <= i < |grid| ==> |grid[i]| >= 2
    ensures ParseDelimited(WriteGrid(WithEmptyRow(grid, trailing), delimiter), delimiter) == ParsedText(true, grid)
  {
    ParseWritten(WithEmptyRow(grid, trailing), delimiter);
    assert trailing ==> (grid + [[""]])[..|grid|] == grid;
  }

  lemma {:induction false} RowsNoReturn(grid: TextGrid, delimiter: char)
    requires delimiter != '\r'
    requires forall i, j :: 0 <= i < |grid| && 0 <= j < |grid[i]| ==> '\r' !in grid[i][j]
    ensures forall i :: 0 <= i < |grid| ==> '\r' !in WriteRows(grid, delimiter)[i]
  {
    forall i | 0 <= i < |grid| ensures '\r' !in WriteRows(grid, delimiter)[i] {
      forall j | 0 <= j < |grid[i]| ensures '\r' !in QuoteCells(grid[i], delimiter)[j] {
        QuotesNoReturn(grid[i][j]);
      }
      JoinNoReturn(QuoteCells(grid[i], delimiter), [delimiter]);
    }
  }

  /** Reading a written grid that is at least two columns wide and free of carriage returns; its rows may be
      joined by line feeds or by CRLF, and may be followed by one more. */
  lemma {:induction false} ClipboardReadsGrid(grid: TextGrid, ending: string, trailing: bool)
    requires grid != [] && forall i :: 0 <= i < |grid| ==> |grid[i]| >= 2
    requires forall i, j :: 0 <= i < |grid| && 0 <= j < |grid[i]| ==> '\r' !in grid[i][j]
    requires ending == "\n" || ending == "\r\n"
    ensures ParseClipboard(Terminate(WriteRows(grid, '\t'), ending, trailing)) == ImportGrid(grid)
  {
    RowsNoReturn(grid, '\t');
    TerminatedRead(WriteRows(grid, '\t'), ending, trailing);
    TerminatedGrid(grid, '\t', trailing);
    ParseTerminated(grid, '\t', trailing);
    DelimiterShown(WithEmptyRow(grid, trailing), '\t');
  }

  /** A grid written with commas is read back if all its rows are equally wide and no tab stands outside of quotes. */
  lemma {:induction false} ClipboardReadsCommas(grid: TextGrid, ending: string, trailing: bool)
    requires grid != [] && |grid[0]| >= 2 && forall i :: 0 <= i < |grid| ==> |grid[i]| == |grid[0]|
    requires forall i, j :: 0 <= i < |grid| && 0 <= j < |grid[i]| ==> '\r' !in grid[i][j]
    requires ending == "\n" || ending == "\r\n"
    requires !UnquotedFrom(Terminate(WriteRows(grid, ','), "\n", trailing), '\t', false)
    ensures ParseClipboard(Terminate(WriteRows(grid, ','), ending, trailing)) == ImportGrid(grid)
  {
    RowsNoReturn(grid, ',');
    TerminatedRead(WriteRows(grid, ','), ending, trailing);
    TerminatedGrid(grid, ',', trailing);
    ParseTerminated(grid, ',', trailing);
    DelimiterShown(WithEmptyRow(grid, trailing), ',');
  }

  /** All selected cell texts satisfy Copyable. */
  predicate CopyableSelection(t: Table, b: Bounds)
    requires 0 <= b.minRow <= b.maxRow < |SemanticRows(t)| && 0 <= b.minColumn <= b.maxColumn
  {
    forall i, j :: b.minRow <= i <= b.maxRow && b.minColumn <= j <= b.maxColumn ==> Copyable(CellText(SemanticRows(t)[i], j))
  }

  predicate PlainSelection(t: Table, b: Bounds)
    requires 0 <= b.minRow <= b.maxRow < |SemanticRows(t)| && 0 <= b.minColumn <= b.maxColumn
  {
    forall i, j :: b.minRow <= i <= b.maxRow && b.minColumn <= j <= b.maxColumn ==> PlainBreaks(CellText(SemanticRows(t)[i], j))
  }

  /** What is pasted back for one cell. */
  function Respelled(s: string): string {
    NormalizeImportedCell(ClipboardCellValue(s))
  }

  lemma RespelledPastes(s: string)
    ensures PastedText(Respelled(s)) == Respelled(s)
  {
    var v := NewlinesToBreaks(ClipboardCellValue(s));
    NoNewlinesLeft(ClipboardCellValue(s));
    EscapeKeepsNewlines(v);
    NoNewlinesLeft(EscapeCell(v));
    EscapeIdempotent(v);
  }

  lemma CopiedNoReturn(t: Table, b: Bounds)
    requires 0 <= b.minRow <= b.maxRow < |SemanticRows(t)| && 0 <= b.minColumn <= b.maxColumn
    requires CopyableSelection(t, b)
    ensures forall i, j :: 0 <= i < |CopiedGrid(t, b)| && 0 <= j < |CopiedGrid(t, b)[i]| ==> '\r' !in CopiedGrid(t, b)[i][j]
  {
    var grid := CopiedGrid(t, b);
    forall i, j | 0 <= i < |grid| && 0 <= j < |grid[i]| ensures '\r' !in grid[i][j] {
      var s := CellText(SemanticRows(t)[b.minRow + i], b.minColumn + j);
      assert grid[i] == CopiedRow(SemanticRows(t)[b.minRow + i], b.minColumn, b.maxColumn);
      assert grid[i][j] == ClipboardCellValue(s);
      assert Copyable(s);
      BreaksNoReturn(s);
      UnescapeNoReturn(BreaksToNewlines(s));
    }
  }

  /** The table after copying the selection and pasting it at its own corner. */
  function CopyPasted(t: Table, b: Bounds): Table
    requires Shaped(t) && 0 <= b.minRow <= b.maxRow < |SemanticRows(t)| && 0 <= b.minColumn <= b.maxColumn
  {
    Pasted(t, b.minRow, b.minColumn, ParseClipboard(SelectionToTsv(t, b)))
  }

  predicate HasWidth(grid: TextGrid, w: nat) {
    forall i :: 0 <= i < |grid| ==> |grid[i]| == w
  }

  /** The grid that is read back from the copied text. */
  lemma CopiedGridReads(t: Table, b: Bounds)
    requires 0 <= b.minRow <= b.maxRow < |SemanticRows(t)| && 0 <= b.minColumn < b.maxColumn
    requires CopyableSelection(t, b)
    ensures ParseClipboard(SelectionToTsv(t, b)) == ImportGrid(CopiedGrid(t, b))
  {
    CopiedNoReturn(t, b);
    ClipboardReadsGrid(CopiedGrid(t, b), "\n", false);
    assert SelectionToTsv(t, b) + "" == SelectionToTsv(t, b);
  }

  lemma ImportedGrid(t: Table, b: Bounds)
    requires 0 <= b.minRow <= b.maxRow < |SemanticRows(t)| && 0 <= b.minColumn < b.maxColumn
    ensures var grid := ImportGrid(CopiedGrid(t, b));
            && |grid| == b.maxRow - b.minRow + 1 && HasWidth(grid, b.maxColumn - b.minColumn + 1)
            && GridWidth(grid) == b.maxColumn - b.minColumn + 1
  {
    var copied := CopiedGrid(t, b);
    var grid := ImportGrid(copied);
    assert forall i :: 0 <= i < |grid| ==> grid[i] == ImportRow(copied[i]);
    UniformWidth(grid, b.maxColumn - b.minColumn + 1);
  }

  lemma ImportedText(t: Table, b: Bounds, i: nat, j: nat)
    requires 0 <= b.minRow <= b.maxRow < |SemanticRows(t)| && 0 <= b.minColumn < b.maxColumn
    requires i <= b.maxRow - b.minRow && j <= b.maxColumn - b.minColumn
    ensures var grid := ImportGrid(CopiedGrid(t, b));
            j < |grid[i]| && grid[i][j] == Respelled(CellText(SemanticRows(t)[b.minRow + i], b.minColumn + j))
  {
    var copied := CopiedGrid(t, b);
    assert ImportGrid(copied)[i] == ImportRow(copied[i]);
    assert copied[i] == CopiedRow(SemanticRows(t)[b.minRow + i], b.minColumn, b.maxColumn);
  }

  lemma {:induction false} UniformWidth(grid: TextGrid, w: nat)
    requires grid != [] && forall i :: 0 <= i < |grid| ==> |grid[i]| == w
    ensures GridWidth(grid) == w
  {
    assert |grid[0]| == w;
    if |grid| > 1 {
      UniformWidth(grid[1..], w);
    }
  }

  /** Every cell of the selection is respelled, everything else is untouched. */
  lemma CopyPasteTexts(t: Table, b: Bounds)
    requires Shaped(t) && 0 <= b.minRow <= b.maxRow < |SemanticRows(t)| && 0 <= b.minColumn < b.maxColumn < t.columnCount
    requires CopyableSelection(t, b)
    ensures var result := CopyPasted(t, b);
            && result.columnCount == t.columnCount && result.alignments == t.alignments
            && |SemanticRows(result)| == |SemanticRows(t)|
            && forall i, j :: 0 <= i < |SemanticRows(t)| && 0 <= j < t.columnCount ==>
                 CellText(SemanticRows(result)[i], j) == AfterCopyPaste(t, b, i, j)
  {
    CopiedGridReads(t, b);
    ImportedGrid(t, b);
    var grid := ImportGrid(CopiedGrid(t, b));
    PasteSpec(t, b.minRow, b.minColumn, grid, b.minRow, b.minColumn);
    var result := CopyPasted(t, b);
    forall i, j | 0 <= i < |SemanticRows(t)| && 0 <= j < t.columnCount
      ensures CellText(SemanticRows(result)[i], j) == AfterCopyPaste(t, b, i, j)
    {
      assert PastedRow(t, result, grid, b.minRow, b.minColumn, i);
      PastedBack(t, b, grid, i, j);
    }
    assert result.alignments == t.alignments;
  }

  lemma RespelledValue(value: string, s: string)
    requires value == Respelled(s)
    ensures PastedText(value) == Respelled(s)
  {
    RespelledPastes(s);
  }

  lemma {:induction false} PastedBackInside(t: Table, b: Bounds, grid: TextGrid, i: nat, j: nat)
    requires 0 <= b.minRow <= i <= b.maxRow < |SemanticRows(t)| && 0 <= b.minColumn <= j <= b.maxColumn && b.minColumn < b.maxColumn
    requires grid == ImportGrid(CopiedGrid(t, b)) && i - b.minRow < |grid| && j - b.minColumn < |grid[i - b.minRow]|
    ensures PastedText(grid[i - b.minRow][j - b.minColumn]) == Respelled(CellText(SemanticRows(t)[i], j))
  {
    PastedBackAt(t, b, grid, i - b.minRow, j - b.minColumn, CellText(SemanticRows(t)[i], j));
  }

  lemma {:induction false} PastedBackAt(t: Table, b: Bounds, grid: TextGrid, i: nat, j: nat, s: string)
    requires 0 <= b.minRow <= b.maxRow < |SemanticRows(t)| && 0 <= b.minColumn < b.maxColumn
    requires grid == ImportGrid(CopiedGrid(t, b)) && i <= b.maxRow - b.minRow && j <= b.maxColumn - b.minColumn
    requires s == CellText(SemanticRows(t)[b.minRow + i], b.minColumn + j)
    ensures i < |grid| && j < |grid[i]| && PastedText(grid[i][j]) == Respelled(s)
  {
    ImportedGrid(t, b);
    ImportedText(t, b, i, j);
    RespelledValue(grid[i][j], s);
  }

  lemma PastedBack(t: Table, b: Bounds, grid: TextGrid, i: nat, j: nat)
    requires 0 <= b.minRow <= b.maxRow < |SemanticRows(t)| && 0 <= b.minColumn < b.maxColumn
    requires grid == ImportGrid(CopiedGrid(t, b)) && HasWidth(grid, b.maxColumn - b.minColumn + 1)
    requires i < |SemanticRows(t)|
    ensures TextAfterPaste(t, grid, b.minRow, b.minColumn, i, j) == AfterCopyPaste(t, b, i, j)
  {
    if InPasted(grid, b.minRow, b.minColumn, i, j) {
      PastedBackInside(t, b, grid, i, j);
    }
  }

  function AfterCopyPaste(t: Table, b: Bounds, i: nat, j: nat): string
    requires i < |SemanticRows(t)|
  {
    var s := CellText(SemanticRows(t)[i], j);
    if b.minRow <= i <= b.maxRow && b.minColumn <= j <= b.maxColumn then Respelled(s) else s
  }

  /** Copying a selection that is at least two columns wide and pasting it in place leaves all
      cell texts and alignments as they are exactly when the selected cells spell their line
      breaks as `<br>`. */
  lemma CopyPasteIdentity(t: Table, b: Bounds)
    requires Shaped(t) && 0 <= b.minRow <= b.maxRow < |SemanticRows(t)| && 0 <= b.minColumn < b.maxColumn < t.columnCount
    requires CopyableSelection(t, b)
    ensures SameMeaning(CopyPasted(t, b), t) <==> PlainSelection(t, b)
  {
    CopyPasteTexts(t, b);
    var result := CopyPasted(t, b);
    forall i, j | b.minRow <= i <= b.maxRow && b.minColumn <= j <= b.maxColumn
      ensures CellText(SemanticRows(result)[i], j) == CellText(SemanticRows(t)[i], j)
         <==> PlainBreaks(CellText(SemanticRows(t)[i], j))
    {
      CellRoundTrip(CellText(SemanticRows(t)[i], j));
    }
    if PlainSelection(t, b) {
      forall i | 0 <= i < |Grid(t)| ensures Grid(result)[i] == Grid(t)[i] {
      }
    }
    if SameMeaning(result, t) {
      forall i, j | b.minRow <= i <= b.maxRow && b.minColumn <= j <= b.maxColumn
        ensures PlainBreaks(CellText(SemanticRows(t)[i], j))
      {
        assert Grid(result)[i][j] == Grid(t)[i][j];
      }
    }
  }
}
