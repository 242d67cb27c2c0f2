/** Which cells a selection covers, and what deleting it does. */
module Selections {
  import opened Sequences
  import opened Text
  import opened MarkdownTable
  import opened TableEdits
  import opened EditPositions

  /** Index `i` of `0..n - 1` lies between the two ends, which may lie outside and in either order. */
  predicate Covered(i: nat, a: int, b: int, n: nat) {
    || ((a <= i || i == n - 1) && (i <= b || i == 0))
    || ((b <= i || i == n - 1) && (i <= a || i == 0))
  }

  predicate CoversRow(t: Table, s: CellRange, i: nat) {
    Covered(i, s.anchor.row, s.head.row, 1 + |t.body|)
  }

  predicate CoversColumn(t: Table, s: CellRange, j: nat) {
    Covered(j, s.anchor.column, s.head.column, t.columnCount)
  }

  predicate CoversAllRows(t: Table, s: CellRange) {
    forall i :: 0 <= i < 1 + |t.body| ==> CoversRow(t, s, i)
  }

  predicate CoversAllColumns(t: Table, s: CellRange) {
    forall j :: 0 <= j < t.columnCount ==> CoversColumn(t, s, j)
  }

  lemma ClampedCover(i: nat, a: int, b: int, n: nat)
    requires i < n
    ensures var x, y := Clamp(a, 0, n - 1), Clamp(b, 0, n - 1); Min(x, y) <= i <= Max(x, y) <==> Covered(i, a, b, n)
  {
  }

  /** The rectangle of a selection. */
  lemma InBounds(t: Table, s: CellRange, i: nat, j: nat)
    requires i < 1 + |t.body| && j < t.columnCount
    ensures var b := SelectionBounds(1 + |t.body|, t.columnCount, s);
            && (b.minRow <= i <= b.maxRow <==> CoversRow(t, s, i))
            && (b.minColumn <= j <= b.maxColumn <==> CoversColumn(t, s, j))
  {
    ClampedCover(i, s.anchor.row, s.head.row, 1 + |t.body|);
    ClampedCover(j, s.anchor.column, s.head.column, t.columnCount);
  }

  lemma ClearedText(row: Row, i: nat, n: nat, b: Bounds, j: nat)
    requires |row.cells| <= n && j < n
    ensures CellText(ClearSelectedCells(row, i, n, b), j)
         == if b.minRow <= i <= b.maxRow && b.minColumn <= j <= b.maxColumn then "" else CellText(row, j)
  {
  }

  lemma ClearedRowIs(t: Table, s: CellRange, i: nat)
    requires i < |SemanticRows(t)|
    ensures |SemanticRows(ClearSelection(t, s))| == |SemanticRows(t)|
    ensures SemanticRows(ClearSelection(t, s))[i]
         == ClearSelectedCells(SemanticRows(t)[i], i, t.columnCount, SelectionBounds(1 + |t.body|, t.columnCount, s))
    ensures SameFrame(t, ClearSelection(t, s))
  {
    var b := SelectionBounds(1 + |t.body|, t.columnCount, s);
    var rows := SemanticRows(t);
    RowsOf(t, seq(|rows|, k requires 0 <= k < |rows| => ClearSelectedCells(rows[k], k, t.columnCount, b)));
  }

  /** Every cell text after clearing. */
  predicate IsCleared(t: Table, u: Table, s: CellRange) {
    && SameFrame(t, u) && |u.body| == |t.body|
    && forall i, j :: 0 <= i < |SemanticRows(t)| && 0 <= j < t.columnCount ==> ClearedTextAt(t, u, s, i, j)
  }

  predicate ClearedTextAt(t: Table, u: Table, s: CellRange, i: nat, j: nat)
    requires i < |SemanticRows(t)| == |SemanticRows(u)|
  {
    CellText(SemanticRows(u)[i], j)
    == if CoversRow(t, s, i) && CoversColumn(t, s, j) then "" else CellText(SemanticRows(t)[i], j)
  }

  lemma {:induction false} ClearedCell(t: Table, s: CellRange, u: Table, i: nat, j: nat)
    requires Shaped(t) && u == ClearSelection(t, s) && i < |SemanticRows(t)| && j < t.columnCount
    ensures |SemanticRows(u)| == |SemanticRows(t)| && ClearedTextAt(t, u, s, i, j)
  {
    ClearedRowIs(t, s, i);
    InBounds(t, s, i, j);
    assert SemanticRows(t)[i] == if i == 0 then Rows(t)[0] else Rows(t)[i + 1];
    ClearedText(SemanticRows(t)[i], i, t.columnCount, SelectionBounds(1 + |t.body|, t.columnCount, s), j);
  }

  /** Clearing a selection blanks exactly the cells between its corners. */
  lemma {:induction false} ClearedExactly(t: Table, s: CellRange)
    requires Shaped(t)
    ensures IsCleared(t, ClearSelection(t, s), s)
  {
    var u := ClearSelection(t, s);
    ClearedRowIs(t, s, 0);
    forall i, j | 0 <= i < |SemanticRows(t)| && 0 <= j < t.columnCount
      ensures |SemanticRows(u)| == |SemanticRows(t)| && ClearedTextAt(t, u, s, i, j)
    {
      ClearedCell(t, s, u, i, j);
    }
  }

  ghost predicate IsCoveredRows(chosen: seq<nat>, t: Table, s: CellRange) {
    Increasing(chosen) && forall i: nat :: i in chosen <==> i < 1 + |t.body| && CoversRow(t, s, i)
  }

  ghost predicate IsCoveredColumns(chosen: seq<nat>, t: Table, s: CellRange) {
    Increasing(chosen) && forall j: nat :: j in chosen <==> j < t.columnCount && CoversColumn(t, s, j)
  }

  lemma KindOf(t: Table, s: CellRange)
    requires t.columnCount > 0
    ensures var b := SelectionBounds(1 + |t.body|, t.columnCount, s);
            Classify(1 + |t.body|, t.columnCount, b)
            == if CoversAllRows(t, s) && CoversAllColumns(t, s) then WholeTable
               else if CoversAllColumns(t, s) then WholeRows
               else if CoversAllRows(t, s) then WholeColumns
               else SomeCells
  {
    var n, c := 1 + |t.body|, t.columnCount;
    forall i | 0 <= i < n ensures var b := SelectionBounds(n, c, s); b.minRow <= i <= b.maxRow <==> CoversRow(t, s, i) {
      InBounds(t, s, i, 0);
    }
    forall j | 0 <= j < c ensures var b := SelectionBounds(n, c, s); b.minColumn <= j <= b.maxColumn <==> CoversColumn(t, s, j) {
      InBounds(t, s, 0, j);
    }
    assert CoversRow(t, s, 0) && CoversRow(t, s, n - 1) ==> CoversAllRows(t, s);
    assert CoversColumn(t, s, 0) && CoversColumn(t, s, c - 1) ==> CoversAllColumns(t, s);
  }

  lemma BoundedIndices(t: Table, s: CellRange, chosen: seq<nat>)
    requires t.columnCount > 0
    ensures var b := SelectionBounds(1 + |t.body|, t.columnCount, s);
            && (IsCoveredRows(chosen, t, s) ==> IsChoice(chosen, Indices(b.minRow, b.maxRow), 1 + |t.body|))
            && (IsCoveredColumns(chosen, t, s) ==> IsChoice(chosen, Indices(b.minColumn, b.maxColumn), t.columnCount))
  {
    var b := SelectionBounds(1 + |t.body|, t.columnCount, s);
    forall i: nat | i < 1 + |t.body| ensures i in Indices(b.minRow, b.maxRow) <==> CoversRow(t, s, i) {
      InBounds(t, s, i, 0);
      IndexListed(b.minRow, b.maxRow, i);
    }
    forall j: nat | j < t.columnCount ensures j in Indices(b.minColumn, b.maxColumn) <==> CoversColumn(t, s, j) {
      InBounds(t, s, 0, j);
      IndexListed(b.minColumn, b.maxColumn, j);
    }
  }

  lemma IndexListed(low: int, high: int, k: int)
    ensures k in Indices(low, high) <==> low <= k <= high
  {
    if low <= k <= high {
      assert Indices(low, high)[k - low] == k;
    }
  }

  /** Deleting a selection: of everything, of whole rows, of whole columns, or of some cells. */
  lemma {:induction false} DeletedExactly(t: Table, s: CellRange, rows: seq<nat>, columns: seq<nat>)
    requires Shaped(t) && IsCoveredRows(rows, t, s) && IsCoveredColumns(columns, t, s)
    ensures DeleteSelection(t, s) == None <==> CoversAllRows(t, s) && CoversAllColumns(t, s)
    ensures DeleteSelection(t, s).Some? ==> var u := DeleteSelection(t, s).value;
              if CoversAllColumns(t, s) then RowsAreGone(t, u, rows)
              else if CoversAllRows(t, s) then ColumnsAreGone(t, u, columns)
              else IsCleared(t, u, s)
  {
    var b := SelectionBounds(1 + |t.body|, t.columnCount, s);
    KindOf(t, s);
    BoundedIndices(t, s, rows);
    BoundedIndices(t, s, columns);
    if CoversAllColumns(t, s) && !CoversAllRows(t, s) {
      RemovedRows(t, Indices(b.minRow, b.maxRow), rows);
      NotAllChosen(rows, 1 + |t.body|);
    } else if CoversAllRows(t, s) && !CoversAllColumns(t, s) {
      RemovedColumns(t, Indices(b.minColumn, b.maxColumn), columns);
      NotAllChosen(columns, t.columnCount);
    } else if !CoversAllRows(t, s) {
      ClearedExactly(t, s);
    }
  }

  lemma NotAllChosen(chosen: seq<nat>, n: nat)
    requires Increasing(chosen) && forall k: nat :: k in chosen ==> k < n
    ensures |chosen| <= n && (|chosen| == n ==> forall k: nat :: k < n ==> k in chosen)
  {
    assert forall i :: 0 <= i < |chosen| ==> chosen[i] in chosen;
    AllBelow(chosen, n);
  }

  lemma {:induction false} AllBelow(chosen: seq<nat>, n: nat)
    requires Increasing(chosen) && Below(chosen, n)
    ensures |chosen| <= n && (|chosen| == n ==> forall k: nat :: k < n ==> k in chosen)
  {
    if |chosen| > 0 {
      var last := |chosen| - 1;
      AllBelow(chosen[..last], chosen[last]);
      assert |chosen| == n ==> chosen[last] == n - 1;
      assert forall k :: k in chosen[..last] ==> k in chosen;
    }
  }
}
