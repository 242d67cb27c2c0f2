/** Where the caret is put after pasting: at the end of the last pasted cell, in the table as it was written. */
module PasteCaret {
  import opened Sequences
  import opened Text
  import opened MarkdownTable
  import opened TableText
  import opened TableEdits
  import opened TableLayout
  import opened DocumentLayout
  import opened Paste
  import opened DocumentRuns
  import opened Caret

  /** Pasted texts stand between single spaces, whatever white space they carry themselves. */
  lemma {:induction false} WrittenReady(row: Row, n: nat, start: nat, values: seq<string>)
    requires RowReady(row) && start + |values| <= n
    ensures RowReady(WrittenRow(row, n, start, values))
  {
    var cells := WrittenRow(row, n, start, values).cells;
    forall c | 0 <= c < |cells| ensures Ready(cells[c]) {
      if start <= c < start + |values| {
        CanonicalReady(PastedText(values[c - start]));
      } else if |row.cells| <= c {
        CanonicalReady("");
      }
    }
  }

  lemma CanonicalReady(s: string)
    ensures Ready(CanonicalCell(s))
  {
    assert IsSpace(' ');
  }

  lemma {:induction false} EnlargedReady(t: Table, row: nat, column: nat, grid: TextGrid)
    requires Tidy(t, true)
    ensures AllReady(Enlarged(t, row, column, grid))
  {
    WidenedTidy(t, column + GridWidth(grid));
    HeightenedTidy(Widened(t, column + GridWidth(grid)), row + |grid|);
    TidyReady(Enlarged(t, row, column, grid));
  }

  lemma {:induction false} PastedReady(t: Table, row: nat, column: nat, grid: TextGrid)
    requires Tidy(t, true) && Shaped(t)
    ensures AllReady(Pasted(t, row, column, grid))
  {
    if grid == [] || GridWidth(grid) == 0 {
      TidyReady(t);
    } else {
      var large := Enlarged(t, row, column, grid);
      EnlargedSpec(t, row, column, grid);
      EnlargedReady(t, row, column, grid);
      WrittenRowsReady(large, row, column, grid);
    }
  }

  lemma {:induction false} WrittenRowsReady(large: Table, row: nat, column: nat, grid: TextGrid)
    requires AllReady(large) && column + GridWidth(grid) <= large.columnCount
    ensures AllReady(SetRows(large, WrittenRows(SemanticRows(large), large.columnCount, row, column, grid, |grid|)))
  {
    var rows := SemanticRows(large);
    var written := WrittenRows(rows, large.columnCount, row, column, grid, |grid|);
    var result := SetRows(large, written);
    forall i | 0 <= i < |rows| ensures RowReady(written[i]) {
      assert rows[i] == Rows(large)[if i == 0 then 0 else i + 1];
      WrittenAt(rows, large.columnCount, row, column, grid, i);
      if row <= i < row + |grid| {
        WrittenReady(rows[i], large.columnCount, column, grid[i - row]);
      }
    }
    forall k | 0 <= k < |Rows(result)| ensures RowReady(Rows(result)[k]) {
      if k == 1 {
        assert Rows(result)[1] == Rows(large)[1];
      } else {
        assert Rows(result)[k] == written[if k == 0 then 0 else k - 1];
      }
    }
  }

  /** After pasting, the caret lands in the last row and column of the pasted rectangle, which the layout of
      the new text has as a data cell. */
  lemma {:induction false} CaretAfterPaste(doc: string, from: nat, to: nat, t: Table, row: nat, column: nat, grid: TextGrid,
                                           lastRow: nat, lastColumn: nat)
    returns (layout: Layout, k: nat, position: int)
    requires Tidy(t, true) && Shaped(t) && GridTaken(t, row, column, grid) && grid != [] && GridWidth(grid) > 0
    requires lastRow == row + |grid| - 1 && lastColumn == column + GridWidth(grid) - 1
    requires !t.crlf && '\r' !in doc && EndsWithLine(doc, from, to)
    requires doc[from..to] == SerializeTable(Pasted(t, row, column, grid))
    ensures LayoutOf(doc, from, to) == Some(layout) && k < |layout.rows| && RowsHaveCells(Pasted(t, row, column, grid))
    ensures SemanticIndex(k) == Some(lastRow)
    ensures position == from + CellOffset(Pasted(t, row, column, grid), lastRow, lastColumn, true)
    ensures LandsIn(layout.rows[k], k, lastColumn, position)
  {
    PastedReady(t, row, column, grid);
    PasteSpec(t, row, column, grid, row, column);
    PastedShape(t, row, column, grid);
    var result := Pasted(t, row, column, grid);
    k := InsideGrid(result, lastRow, lastColumn);
    layout, position := CaretLandsAt(doc, from, to, result, lastRow, lastColumn, true, k, lastColumn);
  }

  /** Indices inside the grid are not clamped. */
  lemma {:induction false} InsideGrid(u: Table, row: nat, column: nat) returns (k: nat)
    requires row < |SemanticRows(u)| && column < u.columnCount
    ensures k == LineOfRow(u, row) && SemanticIndex(k) == Some(row) && column == Clamp(column, 0, u.columnCount - 1)
  {
    k := LineOfRow(u, row);
    RequestedRow(u, row);
  }

  lemma {:induction false} PastedShape(t: Table, row: nat, column: nat, grid: TextGrid)
    requires Tidy(t, true) && Shaped(t) && GridTaken(t, row, column, grid)
    ensures Tidy(Pasted(t, row, column, grid), false) && Rectangular(Pasted(t, row, column, grid))
         && Pasted(t, row, column, grid).crlf == t.crlf
  {
    PastedTidy(t, row, column, grid);
    TidyIsRectangular(Pasted(t, row, column, grid));
    EnlargedSpec(t, row, column, if grid == [] then [[]] else grid);
  }

  lemma TidyIsRectangular(t: Table)
    requires Tidy(t, false)
    ensures Rectangular(t)
  {
    forall k | 0 <= k < |Rows(t)| ensures |Rows(t)[k].cells| == t.columnCount {
      assert k != 1 ==> Rows(t)[k] == SemanticRows(t)[if k == 0 then 0 else k - 1];
    }
  }
}
