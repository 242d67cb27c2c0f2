/** Edits of cell texts leave everything else of a row alone: prefix, outer pipes and suffix. */
module RowFrames {
  import opened Sequences
  import opened MarkdownTable
  import opened TableEdits
  import opened Paste
  import opened EditPositions

  /** The row has other cells, and is otherwise as before. */
  predicate SameFrameRow(row: Row, other: Row) {
    other == row.(cells := other.cells)
  }

  lemma ClearedRowsKeep(t: Table, selected: seq<int>)
    requires |t.alignments| == t.columnCount
    ensures SameEnds(t, ClearRows(t, selected)) && ClearRows(t, selected).delimiter == t.delimiter
    ensures ClearRows(t, selected).alignments == t.alignments
  {
    var u := ClearRows(t, selected);
    forall i | 0 <= i < |Rows(t)| ensures |Rows(u)| == |Rows(t)| && Rows(u)[i] == Rows(t)[i].(cells := Rows(u)[i].cells) {
      if i >= 2 {
        assert Rows(t)[i] == t.body[i - 2] && Rows(u)[i] == u.body[i - 2];
      }
    }
  }

  lemma ClearedColumnsKeep(t: Table, selected: seq<int>)
    requires |t.alignments| == t.columnCount
    ensures SameEnds(t, ClearColumns(t, selected)) && ClearColumns(t, selected).delimiter == t.delimiter
    ensures ClearColumns(t, selected).alignments == t.alignments
  {
    var u := ClearColumns(t, selected);
    forall i | 0 <= i < |Rows(t)| ensures |Rows(u)| == |Rows(t)| && Rows(u)[i] == Rows(t)[i].(cells := Rows(u)[i].cells) {
      if i >= 2 {
        assert Rows(t)[i] == t.body[i - 2] && Rows(u)[i] == u.body[i - 2];
      }
    }
  }

  /** Setting alignments changes cells of the delimiter row only, and of those the text only. */
  lemma AlignedKeeps(t: Table, selected: seq<int>, alignment: Alignment)
    ensures var u := SetAlignment(t, selected, alignment);
            && u == t.(alignments := u.alignments, delimiter := u.delimiter) && SameFrameRow(t.delimiter, u.delimiter)
            && |t.delimiter.cells| <= |u.delimiter.cells|
            && forall j :: 0 <= j < |t.delimiter.cells| ==>
                 u.delimiter.cells[j] == t.delimiter.cells[j].(markdown := u.delimiter.cells[j].markdown)
  {
  }

  lemma ClearedCellsKeep(t: Table, selection: CellRange, i: nat)
    requires i < |SemanticRows(t)|
    ensures |SemanticRows(ClearSelection(t, selection))| == |SemanticRows(t)|
    ensures SameFrameRow(SemanticRows(t)[i], SemanticRows(ClearSelection(t, selection))[i])
    ensures SameFrame(t, ClearSelection(t, selection))
  {
    var rows := SemanticRows(t);
    var b := SelectionBounds(|rows|, t.columnCount, selection);
    RowsOf(t, seq(|rows|, k requires 0 <= k < |rows| => ClearSelectedCells(rows[k], k, t.columnCount, b)));
  }

  // ---------------------------------------------------------------- pasting

  /** Prefix and outer pipes of a new row: those of the last row, without the list marker of the header. */
  predicate StyledAsLast(t: Table, row: Row) {
    var style := SemanticRows(t)[|t.body|];
    && row.leadingPipe == style.leadingPipe && row.trailingPipe == style.trailingPipe && row.suffix == ""
    && row.prefix == if style.prefix == t.header.prefix then t.delimiter.prefix else style.prefix
  }

  lemma WidenedEnds(t: Table, required: nat)
    requires Shaped(t)
    ensures var u := Widened(t, required); |Rows(u)| == |Rows(t)| && Shaped(u)
    ensures forall i :: 0 <= i < |Rows(t)| ==> SameFrameRow(Rows(t)[i], Rows(Widened(t, required))[i])
  {
    WidenedSpec(t, required);
    if required > t.columnCount {
      EndsKept(t, Insert(t.columnCount, required - t.columnCount));
    }
  }

  lemma {:induction false} HeightenedEnds(t: Table, rowCount: nat, i: nat)
    requires i < |SemanticRows(Heightened(t, rowCount))|
    ensures var row := SemanticRows(Heightened(t, rowCount))[i];
            if i < |SemanticRows(t)| then row == SemanticRows(t)[i] else StyledAsLast(t, row)
    ensures Heightened(t, rowCount).delimiter == t.delimiter
  {
    if rowCount - 1 > |t.body| {
      var n := 1 + |t.body|;
      var blank := InsertedRows(t, |t.body|, After, rowCount - 1 - |t.body|, n, |t.body|);
    }
  }

  lemma {:induction false} StyleSurvives(t: Table, u: Table, row: Row)
    requires |Rows(u)| == |Rows(t)| && forall i :: 0 <= i < |Rows(t)| ==> SameFrameRow(Rows(t)[i], Rows(u)[i])
    requires StyledAsLast(u, row)
    ensures StyledAsLast(t, row)
  {
    assert SameFrameRow(Rows(t)[0], Rows(u)[0]) && SameFrameRow(Rows(t)[1], Rows(u)[1]);
    var last := |t.body| + 1;
    assert |t.body| > 0 ==> SameFrameRow(Rows(t)[last], Rows(u)[last]);
  }

  lemma SemanticFrame(t: Table, u: Table, i: nat)
    requires |Rows(u)| == |Rows(t)| && forall k :: 0 <= k < |Rows(t)| ==> SameFrameRow(Rows(t)[k], Rows(u)[k])
    requires i < |SemanticRows(t)|
    ensures |SemanticRows(u)| == |SemanticRows(t)| && SameFrameRow(SemanticRows(t)[i], SemanticRows(u)[i])
  {
    var k := if i == 0 then 0 else i + 1;
    assert SameFrameRow(Rows(t)[k], Rows(u)[k]);
  }

  lemma {:induction false} EnlargedEnds(t: Table, startRow: nat, startColumn: nat, grid: TextGrid, i: nat)
    requires Shaped(t) && i < |SemanticRows(Enlarged(t, startRow, startColumn, grid))|
    ensures var row := SemanticRows(Enlarged(t, startRow, startColumn, grid))[i];
            if i < |SemanticRows(t)| then SameFrameRow(SemanticRows(t)[i], row) else StyledAsLast(t, row)
  {
    var wide := Widened(t, startColumn + GridWidth(grid));
    WidenedEnds(t, startColumn + GridWidth(grid));
    HeightenedEnds(wide, startRow + |grid|, i);
    if i < |SemanticRows(t)| {
      SemanticFrame(t, wide, i);
    } else {
      SemanticFrame(t, wide, 0);
      StyleSurvives(t, wide, SemanticRows(Enlarged(t, startRow, startColumn, grid))[i]);
    }
  }

  lemma {:induction false} WrittenFrame(rows: seq<Row>, columnCount: nat, startRow: nat, startColumn: nat, grid: TextGrid, i: nat)
    requires startColumn + GridWidth(grid) <= columnCount && i < |rows|
    ensures SameFrameRow(rows[i], WrittenRows(rows, columnCount, startRow, startColumn, grid, |grid|)[i])
  {
  }

  lemma FrameChain(t: Table, i: nat, row: Row, written: Row)
    requires SameFrameRow(row, written) && if i < |SemanticRows(t)| then SameFrameRow(SemanticRows(t)[i], row) else StyledAsLast(t, row)
    ensures if i < |SemanticRows(t)| then SameFrameRow(SemanticRows(t)[i], written) else StyledAsLast(t, written)
  {
  }

  /** Pasting changes cells of the old rows only, and adds rows in the style of the last one. */
  lemma {:induction false} PastedKeeps(t: Table, startRow: nat, startColumn: nat, grid: TextGrid, result: Table, i: nat)
    requires Shaped(t) && result == Pasted(t, startRow, startColumn, grid) && i < |SemanticRows(result)|
    ensures var row := SemanticRows(result)[i];
            if i < |SemanticRows(t)| then SameFrameRow(SemanticRows(t)[i], row) else StyledAsLast(t, row)
  {
    if grid != [] && GridWidth(grid) > 0 {
      var large := Enlarged(t, startRow, startColumn, grid);
      EnlargedSpec(t, startRow, startColumn, grid);
      RowsOf(large, WrittenRows(SemanticRows(large), large.columnCount, startRow, startColumn, grid, |grid|));
      EnlargedEnds(t, startRow, startColumn, grid, i);
      WrittenFrame(SemanticRows(large), large.columnCount, startRow, startColumn, grid, i);
      FrameChain(t, i, SemanticRows(large)[i], SemanticRows(result)[i]);
    }
  }
}
