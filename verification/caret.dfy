/** Where the caret is put after a table edit: in the requested cell of the new text. */
module Caret {
  import opened Sequences
  import opened Text
  import opened Lines
  import opened MarkdownTable
  import opened TableText
  import opened TableEdits
  import opened TableLayout
  import opened DocumentLayout

  /** editableCellContainsPosition */
  predicate EditableContains(cell: CellLayout, position: int) {
    !cell.isVirtual && if cell.from == cell.to then position == cell.cursor else cell.from <= position <= cell.to
  }

  /** The line of the table that a row index of the grid asks for. */
  function LineOfRow(t: Table, rowIndex: int): (k: nat)
    ensures k < |Rows(t)|
  {
    Clamp(if rowIndex == 0 then 0 else rowIndex + 1, 0, |Rows(t)| - 1)
  }

  function ColumnOf(row: Row, columnIndex: int): (c: nat)
    ensures row.cells != [] ==> c < |row.cells|
  {
    Clamp(columnIndex, 0, Max(0, |row.cells| - 1))
  }

  /** Offset inside a cell: the middle of its blanks if it has no text. */
  function CaretIn(cell: Cell, atEnd: bool): nat {
    if cell.markdown == "" then (|cell.before| + |cell.after|) / 2
    else |cell.before| + if atEnd then |cell.markdown| else 0
  }

  /** The text of the cell carries no white space at its ends, as parsing leaves it, or it stands between
      single spaces, as an edit writes it. */
  predicate Ready(cell: Cell) {
    && AllSpace(cell.before) && AllSpace(cell.after)
    && (Trimmed(cell.markdown) || cell.before == cell.after == " ")
  }

  /** A white-space-only cell of any width, or a cell with text: the caret is where it may be. */
  lemma CaretInCell(cell: Cell, start: int, rowIndex: int, columnIndex: nat, atEnd: bool)
    requires Ready(cell)
    ensures EditableContains(PlaceCell(Raw(cell), start, rowIndex, columnIndex), start + CaretIn(cell, atEnd))
  {
    var raw := Raw(cell);
    var b, m := |cell.before|, |cell.markdown|;
    assert forall i :: 0 <= i < b ==> raw[i] == cell.before[i];
    assert forall i :: 0 <= i < m ==> raw[b + i] == cell.markdown[i];
    assert forall i :: 0 <= i < |cell.after| ==> raw[b + m + i] == cell.after[i];
    if !Trimmed(cell.markdown) {
      assert raw[0] == ' ' && raw[b + m] == ' ' && |raw| == m + 2;
    } else if m > 0 {
      CaretInText(raw, b, m, |cell.after|, start, rowIndex, columnIndex);
    } else {
      CaretInBlank(raw, start, rowIndex, columnIndex);
    }
  }

  lemma CaretInText(raw: string, b: nat, m: nat, a: nat, start: int, rowIndex: int, columnIndex: nat)
    requires |raw| == b + m + a && m > 0 && !IsSpace(raw[b]) && !IsSpace(raw[b + m - 1])
    ensures EditableContains(PlaceCell(raw, start, rowIndex, columnIndex), start + b)
    ensures EditableContains(PlaceCell(raw, start, rowIndex, columnIndex), start + b + m)
  {
  }

  lemma CaretInBlank(raw: string, start: int, rowIndex: int, columnIndex: nat)
    requires AllSpace(raw)
    ensures EditableContains(PlaceCell(raw, start, rowIndex, columnIndex), start + |raw| / 2)
  {
  }

  /** No row is without cells; rows may differ in their number of cells. */
  predicate RowsHaveCells(t: Table) {
    forall k :: 0 <= k < |Rows(t)| ==> Rows(t)[k].cells != []
  }

  /** cellOffset: the offset of a cell in the printed table. */
  function CellOffset(t: Table, rowIndex: int, columnIndex: int, atEnd: bool): int
    requires RowsHaveCells(t)
  {
    var k := LineOfRow(t, rowIndex);
    var row := Rows(t)[k];
    var c := ColumnOf(row, columnIndex);
    OffsetOfLine(t, k) + CellStart(row.cells, RowBase(row, 0), c) + CaretIn(row.cells[c], atEnd)
  }

  /** Where line `k` of the printed table starts. */
  function OffsetOfLine(t: Table, k: nat): nat
    requires k <= |Rows(t)|
  {
    if k == 0 then 0 else OffsetOfLine(t, k - 1) + |SerializeRow(Rows(t)[k - 1])| + |Ending(t.crlf)|
  }

  /** The two accumulating loops of cellOffset. */
  method ComputeCellOffset(t: Table, rowIndex: int, columnIndex: int, atEnd: bool) returns (offset: int)
    requires RowsHaveCells(t)
    ensures offset == CellOffset(t, rowIndex, columnIndex, atEnd)
  {
    var rows := Rows(t);
    var physicalIndex := if rowIndex == 0 then 0 else rowIndex + 1;
    var safePhysicalIndex := Clamp(physicalIndex, 0, |rows| - 1);
    offset := 0;
    for index := 0 to safePhysicalIndex
      invariant offset == OffsetOfLine(t, index)
    {
      offset := offset + |SerializeRow(rows[index])| + |Ending(t.crlf)|;
    }
    var row := rows[safePhysicalIndex];
    var safeColumn := Clamp(columnIndex, 0, Max(0, |row.cells| - 1));
    ghost var lineStart := offset;
    offset := offset + |row.prefix| + if row.leadingPipe then 1 else 0;
    for index := 0 to safeColumn
      invariant offset == lineStart + CellStart(row.cells, RowBase(row, 0), index)
    {
      offset := offset + |Raw(row.cells[index])| + 1;
    }
    var cell := row.cells[safeColumn];
    if |cell.markdown| == 0 {
      return offset + (|cell.before| + |cell.after|) / 2;
    }
    offset := offset + |cell.before| + if atEnd then |cell.markdown| else 0;
  }

  // ---------------------------------------------------------------- the printed table, read back in a document

  lemma {:induction false} OffsetIsPartStart(t: Table, k: nat)
    requires k <= |Rows(t)| && !t.crlf
    ensures OffsetOfLine(t, k) == PartStart(SerializeRows(Rows(t)), k)
  {
    if k > 0 {
      OffsetIsPartStart(t, k - 1);
    }
  }

  lemma NoReturnInLine(lines: seq<string>, trailing: bool, i: nat)
    requires i < |lines| && '\r' !in Terminate(lines, "\n", trailing)
    ensures '\r' !in lines[i]
  {
    JoinCut(lines, i, "\n");
    InMiddle(TextBefore(lines, i, "\n"), lines[i], TextAfter(lines, i, "\n"));
  }

  lemma InMiddle(a: string, b: string, c: string)
    ensures '\r' in b ==> '\r' in a + b + c
  {
  }

  /** Without carriage returns, the lines that are read are the lines that were printed. */
  lemma PrintedLinesRead(t: Table)
    requires Tidy(t, false) && !t.crlf && '\r' !in SerializeTable(t)
    ensures ReadLines(SerializeTable(t)) == SerializeRows(Rows(t))
  {
    var lines := SerializeRows(Rows(t));
    TidyRowsAll(t, false);
    forall i | 0 <= i < |lines| ensures '\n' !in lines[i] && lines[i] != "" && Chomp(lines[i]) == lines[i] {
      TidyRowText(Rows(t)[i], t.columnCount, false);
      NoReturnInLine(lines, t.trailingNewline, i);
    }
    ReadBack(lines, false, t.trailingNewline);
    assert ReadBackLines(lines, false, t.trailingNewline) == lines;
  }

  lemma ReadBackIsExplicit(t: Table)
    requires OuterPipes(t)
    ensures ExplicitPart(t) == t
  {
    assert forall i :: 0 <= i < |t.body| ==> t.body[i] == Rows(t)[i + 2];
  }

  /** A printed row and the row read back have their cells at the same places. */
  predicate SamePlaces(row: Row, back: Row) {
    && back.prefix == row.prefix && back.leadingPipe == row.leadingPipe
    && Raws(back.cells) == Raws(row.cells)
  }

  lemma ReadBackPlaces(t: Table, k: nat)
    requires Tidy(t, false) && k < |Rows(t)|
    ensures SamePlaces(Rows(t)[k], Rows(ReadBackTable(t))[k])
  {
    var row := Rows(t)[k];
    var all := ReadBackRows(t);
    assert [all[0], all[1]] + all[2..] == all;
    TidyRowsAll(t, false);
    forall i | 0 <= i < |row.cells| ensures Raw(ReadCells(row.cells)[i]) == Raw(row.cells[i]) {
      ReadCellText(row.cells[i]);
    }
  }

  /** Column `c` of a laid-out line holds a cell with text `raw` that starts at `start`. */
  predicate CellAt(line: RowLayout, k: nat, c: nat, raw: string, start: int) {
    && line.semanticIndex == SemanticIndex(k) && c < |line.cells|
    && line.cells[c] == PlaceCell(raw, start, RowIndexOf(SemanticIndex(k)), c)
  }

  /** Every cell of a printed row that starts at `start` is laid out where the row has it. */
  predicate PlacesLine(line: RowLayout, k: nat, row: Row, start: int) {
    forall c :: 0 <= c < |row.cells| ==>
      CellAt(line, k, c, Raw(row.cells[c]), start + CellStart(row.cells, RowBase(row, 0), c))
  }

  /** Every cell of the table is laid out where the printed table has it. */
  predicate PlacesCells(lines: seq<RowLayout>, from: nat, t: Table) {
    && |lines| == |Rows(t)|
    && forall k :: 0 <= k < |lines| ==> PlacesLine(lines[k], k, Rows(t)[k], from + OffsetOfLine(t, k))
  }

  lemma PlacedInRow(row: Row, back: Row, laid: RowLayout, contentFrom: int, n: nat, k: nat, c: nat)
    requires LaidOutAt(laid, back, k, contentFrom, n) && SamePlaces(row, back) && c < |row.cells|
    ensures CellAt(laid, k, c, Raw(row.cells[c]), contentFrom + CellStart(row.cells, RowBase(row, 0), c))
  {
    LaidOutOrdered(back, laid.from, laid.to, SemanticIndex(k), contentFrom, n);
    LaidOutCell(back, laid.to, SemanticIndex(k), contentFrom, n, c);
    assert Raws(row.cells)[c] == Raw(row.cells[c]) && Raws(back.cells)[c] == Raw(back.cells[c]);
  }

  lemma PlacedLine(row: Row, back: Row, laid: RowLayout, contentFrom: int, n: nat, k: nat)
    requires LaidOutAt(laid, back, k, contentFrom, n) && SamePlaces(row, back)
    ensures PlacesLine(laid, k, row, contentFrom)
  {
    forall c | 0 <= c < |row.cells|
      ensures CellAt(laid, k, c, Raw(row.cells[c]), contentFrom + CellStart(row.cells, RowBase(row, 0), c))
    {
      PlacedInRow(row, back, laid, contentFrom, n, k, c);
    }
  }

  lemma {:induction false} BackLine(laid: RowLayout, from: nat, t: Table, back: Row, n: nat, k: nat)
    requires !t.crlf && k < |Rows(t)| && SamePlaces(Rows(t)[k], back)
    requires LaidOutAt(laid, back, k, from + PartStart(SerializeRows(Rows(t)), k), n)
    ensures PlacesLine(laid, k, Rows(t)[k], from + OffsetOfLine(t, k))
  {
    OffsetIsPartStart(t, k);
    PlacedLine(Rows(t)[k], back, laid, from + OffsetOfLine(t, k), n, k);
  }

  /** The cells of the printed table, read back, stand where the printed table has them. */
  lemma BackPlaces(laid: seq<RowLayout>, from: nat, t: Table, back: seq<Row>, n: nat)
    requires !t.crlf && LaidOutOnLines(laid, back, from, SerializeRows(Rows(t)), n) && |laid| == |Rows(t)|
    requires forall k :: 0 <= k < |Rows(t)| ==> SamePlaces(Rows(t)[k], back[k])
    ensures PlacesCells(laid, from, t)
  {
    forall k | 0 <= k < |laid| ensures PlacesLine(laid[k], k, Rows(t)[k], from + OffsetOfLine(t, k)) {
      BackLine(laid[k], from, t, back[k], n, k);
    }
  }

  /** What reading back the printed table says about its lines. */
  lemma BackLines(t: Table, source: string)
    requires Tidy(t, false) && !t.crlf && source == SerializeTable(t) && '\r' !in source
    ensures ParseTable(source) == Some(ReadBackTable(t)) && ExplicitPart(ReadBackTable(t)) == ReadBackTable(t)
    ensures ReadFrom(ReadBackTable(t), SerializeRows(Rows(t)), source)
  {
    ParsePrintedTable(t, false);
    SourceReadsLines(source);
    PrintedLinesRead(t);
    ReadBackIsExplicit(ReadBackTable(t));
  }

  lemma PrintedLayout(doc: string, from: nat, to: nat, t: Table) returns (layout: Layout)
    requires Tidy(t, false) && Rectangular(t) && !t.crlf && '\r' !in doc && EndsWithLine(doc, from, to)
    requires doc[from..to] == SerializeTable(t)
    ensures LayoutOf(doc, from, to) == Some(layout) && PlacesCells(layout.rows, from, t)
  {
    var back := ReadBackTable(t);
    var lines := SerializeRows(Rows(t));
    BackLines(t, doc[from..to]);
    layout := LayoutOfTable(doc, from, back);
    var end := ReadLinesStand(doc, from, to, back, lines);
    forall k | 0 <= k < |Rows(t)| ensures SamePlaces(Rows(t)[k], Rows(back)[k]) {
      ReadBackPlaces(t, k);
    }
    RowsStand(doc, from, lines, end, Rows(back), back.columnCount);
    BackPlaces(layout.rows, from, t, Rows(back), back.columnCount);
  }

  /** The caret offset falls in the editable range of column `c` of line `k`. */
  predicate LandsIn(line: RowLayout, k: nat, c: nat, position: int) {
    && line.semanticIndex == SemanticIndex(k) && c < |line.cells|
    && line.cells[c].columnIndex == c && line.cells[c].rowIndex == RowIndexOf(SemanticIndex(k))
    && EditableContains(line.cells[c], position)
  }

  lemma LandsOnLine(line: RowLayout, k: nat, c: nat, row: Row, start: int, atEnd: bool)
    requires PlacesLine(line, k, row, start) && c < |row.cells|
    requires Ready(row.cells[c])
    ensures LandsIn(line, k, c, start + CellStart(row.cells, RowBase(row, 0), c) + CaretIn(row.cells[c], atEnd))
  {
    var cellStart := start + CellStart(row.cells, RowBase(row, 0), c);
    assert CellAt(line, k, c, Raw(row.cells[c]), cellStart);
    CaretInCell(row.cells[c], cellStart, RowIndexOf(SemanticIndex(k)), c, atEnd);
  }

  predicate RowReady(row: Row) {
    forall c :: 0 <= c < |row.cells| ==> Ready(row.cells[c])
  }

  predicate AllReady(t: Table) {
    forall k :: 0 <= k < |Rows(t)| ==> RowReady(Rows(t)[k])
  }

  lemma CaretInPlacedCells(lines: seq<RowLayout>, from: nat, t: Table, k: nat, c: nat, atEnd: bool)
    requires AllReady(t) && PlacesCells(lines, from, t) && k < |lines| && c < |Rows(t)[k].cells|
    ensures var row := Rows(t)[k];
            LandsIn(lines[k], k, c, from + OffsetOfLine(t, k) + CellStart(row.cells, RowBase(row, 0), c) + CaretIn(row.cells[c], atEnd))
  {
    assert RowReady(Rows(t)[k]);
    LandsOnLine(lines[k], k, c, Rows(t)[k], from + OffsetOfLine(t, k), atEnd);
  }

  lemma CaretInLines(lines: seq<RowLayout>, from: nat, t: Table, rowIndex: int, columnIndex: int, atEnd: bool)
    requires AllReady(t) && Rectangular(t) && t.columnCount > 0 && PlacesCells(lines, from, t)
    ensures RowsHaveCells(t)
    ensures LandsIn(lines[LineOfRow(t, rowIndex)], LineOfRow(t, rowIndex), Clamp(columnIndex, 0, t.columnCount - 1),
                    from + CellOffset(t, rowIndex, columnIndex, atEnd))
  {
    var k := LineOfRow(t, rowIndex);
    CaretInPlacedCells(lines, from, t, k, ColumnOf(Rows(t)[k], columnIndex), atEnd);
  }

  /** The caret lands in the requested cell of the layout of the new text, for every row and column index:
      out-of-range indices are clamped, and blank cells may have any width. */
  lemma CaretLands(doc: string, from: nat, to: nat, t: Table, rowIndex: int, columnIndex: int, atEnd: bool) returns (layout: Layout)
    requires Tidy(t, false) && AllReady(t) && Rectangular(t) && !t.crlf && '\r' !in doc && EndsWithLine(doc, from, to)
    requires doc[from..to] == SerializeTable(t)
    ensures LayoutOf(doc, from, to) == Some(layout)
    ensures LineOfRow(t, rowIndex) < |layout.rows| && RowsHaveCells(t)
    ensures LandsIn(layout.rows[LineOfRow(t, rowIndex)], LineOfRow(t, rowIndex), Clamp(columnIndex, 0, t.columnCount - 1),
                    from + CellOffset(t, rowIndex, columnIndex, atEnd))
  {
    layout := PrintedLayout(doc, from, to, t);
    CaretInLines(layout.rows, from, t, rowIndex, columnIndex, atEnd);
  }

  /** The same for a line, a column and a position that are given by name. */
  lemma {:induction false} CaretLandsAt(doc: string, from: nat, to: nat, t: Table, rowIndex: int, columnIndex: int, atEnd: bool,
                                        k: nat, c: nat)
    returns (layout: Layout, position: int)
    requires Tidy(t, false) && AllReady(t) && Rectangular(t) && !t.crlf && '\r' !in doc && EndsWithLine(doc, from, to)
    requires doc[from..to] == SerializeTable(t) && k == LineOfRow(t, rowIndex) && c == Clamp(columnIndex, 0, t.columnCount - 1)
    ensures LayoutOf(doc, from, to) == Some(layout) && k < |layout.rows| && RowsHaveCells(t)
    ensures position == from + CellOffset(t, rowIndex, columnIndex, atEnd)
    ensures LandsIn(layout.rows[k], k, c, position)
  {
    layout := CaretLands(doc, from, to, t, rowIndex, columnIndex, atEnd);
    position := from + CellOffset(t, rowIndex, columnIndex, atEnd);
  }

  /** The cells of a table in the language are ready. */
  lemma TidyReady(t: Table)
    requires Tidy(t, true)
    ensures AllReady(t)
  {
    forall k | 0 <= k < |Rows(t)| ensures RowReady(Rows(t)[k]) {
      if k == 1 {
        assert Rows(t)[1] == t.delimiter;
      } else {
        var i := if k == 0 then 0 else k - 1;
        assert Rows(t)[k] == SemanticRows(t)[i];
        assert TidyRow(SemanticRows(t)[i], t.columnCount, true);
      }
    }
  }

  /** The line is that of a data row exactly when the index is at most 0 or the table has a body; it then
      is the requested row, clamped to the grid. */
  lemma RequestedRow(t: Table, rowIndex: int)
    ensures var k := LineOfRow(t, rowIndex);
            && (SemanticIndex(k).Some? <==> rowIndex <= 0 || t.body != [])
            && (rowIndex <= 0 || t.body != [] ==> SemanticIndex(k) == Some(Clamp(rowIndex, 0, |t.body|)))
  {
  }
}
