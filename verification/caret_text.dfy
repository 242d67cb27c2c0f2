/** Which side of the text of a cell the caret is put on. */
module CaretText {
  import opened Text
  import opened MarkdownTable
  import opened TableLayout
  import opened Caret

  lemma {:induction false} OffsetIsBefore(t: Table, k: nat)
    requires k < |Rows(t)|
    ensures OffsetOfLine(t, k) == |TextBefore(SerializeRows(Rows(t)), k, Ending(t.crlf))|
  {
    var lines, ending := SerializeRows(Rows(t)), Ending(t.crlf);
    if k > 0 {
      OffsetIsBefore(t, k - 1);
      assert lines[..k][..k - 1] == lines[..k - 1] && lines[..k] == lines[..k - 1] + [lines[k - 1]];
      if k > 1 {
        JoinAppend(lines[..k - 1], [lines[k - 1]], ending);
      }
    }
  }

  /** The printed row around one of its cells. */
  lemma RowAround(row: Row, c: nat) returns (left: string, right: string)
    requires c < |row.cells|
    ensures SerializeRow(row) == left + Raw(row.cells[c]) + right && |left| == CellStart(row.cells, RowBase(row, 0), c)
  {
    var raws := Raws(row.cells);
    JoinAround(raws, c, "|", raws[c]);
    left := row.prefix + Pipe(row.leadingPipe) + TextBefore(raws, c, "|");
    right := TextAfter(raws, c, "|") + Pipe(row.trailingPipe) + row.suffix;
    var head, before, after, end := row.prefix + Pipe(row.leadingPipe), TextBefore(raws, c, "|"), TextAfter(raws, c, "|"), Pipe(row.trailingPipe);
    NestedAround(head, before, raws[c], after, end, row.suffix);
  }

  /** The printed table around one cell. */
  lemma TableAround(t: Table, k: nat, c: nat) returns (left: string, right: string)
    requires k < |Rows(t)| && c < |Rows(t)[k].cells|
    ensures SerializeTable(t) == left + Raw(Rows(t)[k].cells[c]) + right
    ensures |left| == OffsetOfLine(t, k) + CellStart(Rows(t)[k].cells, RowBase(Rows(t)[k], 0), c)
  {
    var lines, ending := SerializeRows(Rows(t)), Ending(t.crlf);
    var rowLeft, rowRight := RowAround(Rows(t)[k], c);
    OffsetIsBefore(t, k);
    JoinCut(lines, k, ending);
    var before, after, last := TextBefore(lines, k, ending), TextAfter(lines, k, ending), if t.trailingNewline then ending else "";
    left, right := before + rowLeft, rowRight + after + last;
    NestedAround(before, rowLeft, Raw(Rows(t)[k].cells[c]), rowRight, after, last);
  }

  lemma NestedAround<T>(a: seq<T>, b: seq<T>, c: seq<T>, d: seq<T>, e: seq<T>, f: seq<T>)
    ensures a + (b + c + d) + e + f == (a + b) + c + (d + e + f)
  {
  }

  /** The caret is put right before or right after the text of the requested cell, or in the middle of its blanks. */
  lemma CaretBesideText(t: Table, rowIndex: int, columnIndex: int, atEnd: bool) returns (left: string, right: string)
    requires RowsHaveCells(t)
    ensures var row := Rows(t)[LineOfRow(t, rowIndex)]; var cell := row.cells[ColumnOf(row, columnIndex)];
            var offset := CellOffset(t, rowIndex, columnIndex, atEnd); var text := SerializeTable(t);
            && text == left + cell.before + cell.markdown + cell.after + right
            && |left| <= offset <= |text|
            && (cell.markdown != "" && !atEnd ==> text[..offset] == left + cell.before)
            && (cell.markdown != "" && atEnd ==> text[..offset] == left + cell.before + cell.markdown)
            && (cell.markdown == "" ==> -1 <= 2 * (offset - |left|) - |cell.before + cell.after| <= 0)
  {
    var k := LineOfRow(t, rowIndex);
    var row := Rows(t)[k];
    var c := ColumnOf(row, columnIndex);
    left, right := TableAround(t, k, c);
    SideOf(left, row.cells[c], right, atEnd);
  }

  lemma SideOf(left: string, cell: Cell, right: string, atEnd: bool)
    ensures var text := left + Raw(cell) + right; var offset := |left| + CaretIn(cell, atEnd);
            && text == left + cell.before + cell.markdown + cell.after + right
            && |left| <= offset <= |text|
            && (cell.markdown != "" && !atEnd ==> text[..offset] == left + cell.before)
            && (cell.markdown != "" && atEnd ==> text[..offset] == left + cell.before + cell.markdown)
  {
    var text := left + Raw(cell) + right;
    assert text == (left + cell.before) + (cell.markdown + cell.after + right);
    assert text == (left + cell.before + cell.markdown) + (cell.after + right);
  }

  // ---------------------------------------------------------------- where the caret may stand

  /** In a cell of the source the caret may stand anywhere but right beside a pipe that white space separates from
      the text; a cell that is one white space has one place. */
  lemma EditableExact(raw: string, start: int, rowIndex: int, columnIndex: nat, position: int)
    ensures EditableContains(PlaceCell(raw, start, rowIndex, columnIndex), position)
       <==> if |raw| == 1 && IsSpace(raw[0]) then position == start
            else && start <= position <= start + |raw|
                 && (position == start ==> raw == "" || !IsSpace(raw[0]))
                 && (position == start + |raw| ==> raw == "" || !IsSpace(raw[|raw| - 1]))
  {
  }

  /** Of a text between single spaces exactly the text is drawn, and the caret may stand in it and at its ends. */
  lemma TextIsDrawn(text: string, start: int, rowIndex: int, columnIndex: nat)
    requires text != ""
    ensures var cell := PlaceCell(" " + text + " ", start, rowIndex, columnIndex);
            cell.renderFrom == cell.from == start + 1 && cell.renderTo == cell.to == start + 1 + |text|
  {
    var raw := " " + text + " ";
    assert raw[0] == ' ' && raw[|raw| - 1] == ' ';
  }

  // ---------------------------------------------------------------- cells that the source does not have

  /** A data row has a cell for every column of the table, the delimiter row only its own. A missing cell stands,
      empty, where the cells of the row end, and never takes the caret. */
  lemma MissingCell(row: Row, lineFrom: int, lineTo: int, semanticIndex: Option<nat>, contentFrom: int, n: nat, c: nat)
    requires FitsLine(row, lineFrom, lineTo, contentFrom) && |row.cells| <= n && c < n
    ensures var cells := LaidOutCells(row, lineTo, semanticIndex, contentFrom, n);
            var end := lineTo - |Pipe(row.trailingPipe) + row.suffix|;
            && |cells| == (if semanticIndex.Some? then n else |row.cells|)
            && (semanticIndex.Some? && c >= |row.cells| ==>
                  && cells[c] == CellLayout(semanticIndex.value, c, end, end, end, end, end, true)
                  && forall p :: !EditableContains(cells[c], p))
  {
    RowEndInside(row, lineFrom, lineTo, contentFrom);
    if semanticIndex.Some? {
      LaidOutCell(row, lineTo, semanticIndex, contentFrom, n, c);
    }
  }

  /** A cell of the source is laid out where its text stands. */
  lemma PresentCell(row: Row, lineFrom: int, lineTo: int, semanticIndex: Option<nat>, contentFrom: int, n: nat, c: nat)
    returns (left: string, right: string)
    requires FitsLine(row, lineFrom, lineTo, contentFrom) && c < |row.cells| <= n
    ensures SerializeRow(row) == left + Raw(row.cells[c]) + right
    ensures var cells := LaidOutCells(row, lineTo, semanticIndex, contentFrom, n);
            && c < |cells| && cells[c].columnIndex == c && cells[c].rowIndex == (if semanticIndex == None then -1 else semanticIndex.value)
            && contentFrom + |left| <= cells[c].from <= cells[c].to <= contentFrom + |left + Raw(row.cells[c])|
  {
    RowEndInside(row, lineFrom, lineTo, contentFrom);
    LaidOutCell(row, lineTo, semanticIndex, contentFrom, n, c);
    left, right := RowAround(row, c);
    BaseShift(row, contentFrom, c);
  }

  lemma BaseShift(row: Row, contentFrom: int, c: nat)
    requires c < |row.cells|
    ensures CellStart(row.cells, RowBase(row, contentFrom), c) == contentFrom + CellStart(row.cells, RowBase(row, 0), c)
  {
  }
}
