/** What each editing action makes of a table, for all of them at once. */
module ActionResults {
  import opened Sequences
  import opened Text
  import opened MarkdownTable
  import opened TableEdits
  import opened TableSorting
  import opened EditPositions
  import opened RowFrames
  import opened Selections
  import opened ParsingRules

  // ---------------------------------------------------------------- rows and columns

  predicate RowsInsertedAt(t: Table, u: Table, wanted: int, reference: int, count: nat, k: nat, style: nat, blank: Row) {
    && IsGap(k, wanted, 1 + |t.body|) && IsGap(style, reference, |t.body|)
    && SameFrame(t, u) && IsBlankRow(blank, t, SemanticRows(t)[style])
    && HasInserted(SemanticRows(t), SemanticRows(u), k, count, blank)
  }

  ghost predicate RowsInserted(t: Table, u: Table, wanted: int, reference: int, count: int) {
    if count <= 0 then u == t
    else exists k, style, blank :: RowsInsertedAt(t, u, wanted, reference, count, k, style, blank)
  }

  ghost predicate RowsCopied(t: Table, u: Table, selected: seq<int>) {
    SameFrame(t, u) &&
    forall chosen :: IsChoice(chosen, selected, 1 + |t.body|) ==> HasCopies(SemanticRows(t), SemanticRows(u), chosen)
  }

  ghost predicate RowsMoved(t: Table, u: Table, selected: seq<int>, gap: int) {
    SameFrame(t, u) &&
    forall chosen, k :: IsChoice(chosen, selected, 1 + |t.body|) && IsGap(k, gap, 1 + |t.body|) ==>
      HasMoved(SemanticRows(t), SemanticRows(u), chosen, k)
  }

  ghost predicate RowsDeleted(t: Table, r: Option<Table>, selected: seq<int>) {
    forall chosen :: IsChoice(chosen, selected, 1 + |t.body|) ==>
      && (r == None <==> |chosen| == 1 + |t.body|)
      && (r.Some? ==> RowsAreGone(t, r.value, chosen))
  }

  ghost predicate ColumnsInserted(t: Table, u: Table, wanted: int, count: int) {
    if count <= 0 then u == t
    else
      && SameEnds(t, u) && |Grid(u)| == |Grid(t)|
      && forall k :: IsGap(k, wanted, t.columnCount) ==>
           && HasInserted(t.alignments, u.alignments, k, count, Unaligned)
           && forall i :: 0 <= i < |Grid(t)| ==> HasInserted(Grid(t)[i], Grid(u)[i], k, count, "")
  }

  ghost predicate ColumnsCopied(t: Table, u: Table, selected: seq<int>) {
    && SameEnds(t, u) && |Grid(u)| == |Grid(t)|
    && forall chosen :: IsChoice(chosen, selected, t.columnCount) ==>
         && HasCopies(t.alignments, u.alignments, chosen)
         && forall i :: 0 <= i < |Grid(t)| ==> HasCopies(Grid(t)[i], Grid(u)[i], chosen)
  }

  ghost predicate ColumnsMoved(t: Table, u: Table, selected: seq<int>, gap: int) {
    && SameEnds(t, u) && |Grid(u)| == |Grid(t)|
    && forall chosen, k :: IsChoice(chosen, selected, t.columnCount) && IsGap(k, gap, t.columnCount) ==>
         && HasMoved(t.alignments, u.alignments, chosen, k)
         && forall i :: 0 <= i < |Grid(t)| ==> HasMoved(Grid(t)[i], Grid(u)[i], chosen, k)
  }

  ghost predicate ColumnsDeleted(t: Table, r: Option<Table>, selected: seq<int>) {
    (r.Some? ==> |Grid(r.value)| == |Grid(t)|) &&
    forall chosen :: IsChoice(chosen, selected, t.columnCount) ==>
      && (r == None <==> |chosen| == t.columnCount)
      && (r.Some? ==> ColumnsAreGone(t, r.value, chosen))
  }

  // ---------------------------------------------------------------- texts, alignments and order

  predicate TextCleared(t: Table, u: Table, i: nat, j: nat, cleared: bool)
    requires i < |SemanticRows(t)| == |SemanticRows(u)|
  {
    CellText(SemanticRows(u)[i], j) == if cleared then "" else CellText(SemanticRows(t)[i], j)
  }

  predicate SameButCells(t: Table, u: Table) {
    SameEnds(t, u) && u.delimiter == t.delimiter && u.alignments == t.alignments
  }

  predicate RowsCleared(t: Table, u: Table, selected: seq<int>) {
    SameButCells(t, u) && |SemanticRows(u)| == |SemanticRows(t)| &&
    forall i, j :: 0 <= i < |SemanticRows(t)| && 0 <= j < t.columnCount ==> TextCleared(t, u, i, j, i in selected)
  }

  predicate ColumnsCleared(t: Table, u: Table, selected: seq<int>) {
    SameButCells(t, u) && |SemanticRows(u)| == |SemanticRows(t)| &&
    forall i, j :: 0 <= i < |SemanticRows(t)| && 0 <= j < t.columnCount ==> TextCleared(t, u, i, j, j in selected)
  }

  ghost predicate AlignedAt(t: Table, u: Table, selected: seq<int>, alignment: Alignment, j: nat)
    requires j < |t.alignments| == |u.alignments| && |t.alignments| <= |u.delimiter.cells|
  {
    if j in selected then
      u.alignments[j] == alignment && exists dashes :: SpellsMarker(u.delimiter.cells[j].markdown, alignment, dashes)
    else
      && u.alignments[j] == t.alignments[j]
      && (j < |t.delimiter.cells| ==> u.delimiter.cells[j] == t.delimiter.cells[j])
  }

  ghost predicate IsAligned(t: Table, u: Table, selected: seq<int>, alignment: Alignment) {
    && u == t.(alignments := u.alignments, delimiter := t.delimiter.(cells := u.delimiter.cells))
    && |u.alignments| == |t.alignments| <= |u.delimiter.cells|
    && forall j :: 0 <= j < |t.alignments| ==> AlignedAt(t, u, selected, alignment, j)
  }

  /** The body in the given order. */
  predicate OrderedBy(t: Table, u: Table, column: int, direction: Direction, c: Collator, order: seq<nat>) {
    && u == t.(body := u.body) && |u.body| == |t.body| == |order|
    && multiset(order) == multiset(Range(0, |t.body|)) && Below(order, |t.body|)
    && (forall p :: 0 <= p < |order| ==> u.body[p] == t.body[order[p]])
    && (forall p, q :: 0 <= p < q < |order| ==> StandsBefore(u.body[p], u.body[q], order[p], order[q], column, direction, c))
  }

  ghost predicate IsSorted(t: Table, u: Table, column: int, direction: Direction, c: Collator) {
    exists order :: OrderedBy(t, u, column, direction, c, order)
  }

  ghost predicate SelectionDeleted(t: Table, r: Option<Table>, s: CellRange) {
    && (r == None <==> CoversAllRows(t, s) && CoversAllColumns(t, s))
    && forall rows, columns :: IsCoveredRows(rows, t, s) && IsCoveredColumns(columns, t, s) && r.Some? ==>
         if CoversAllColumns(t, s) then RowsAreGone(t, r.value, rows)
         else if CoversAllRows(t, s) then ColumnsAreGone(t, r.value, columns)
         else IsCleared(t, r.value, s)
  }

  /** What an action makes of a table, or that it is refused. */
  ghost predicate IsResult(t: Table, a: Action, c: Collator, r: Option<Table>) {
    match a
    case InsertRowsAction(reference, placement, count) =>
      r.Some? && RowsInserted(t, r.value, Wanted(reference, placement), reference, count)
    case DuplicateRowsAction(selected) => r.Some? && RowsCopied(t, r.value, selected)
    case ClearRowsAction(selected) => r.Some? && RowsCleared(t, r.value, selected)
    case DeleteRowsAction(selected) => RowsDeleted(t, r, selected)
    case MoveRowsAction(selected, gap) => r.Some? && RowsMoved(t, r.value, selected, gap)
    case InsertColumnsAction(reference, placement, count) =>
      r.Some? && ColumnsInserted(t, r.value, Wanted(reference, placement), count)
    case DuplicateColumnsAction(selected) => r.Some? && ColumnsCopied(t, r.value, selected)
    case ClearColumnsAction(selected) => r.Some? && ColumnsCleared(t, r.value, selected)
    case DeleteColumnsAction(selected) => ColumnsDeleted(t, r, selected)
    case MoveColumnsAction(selected, gap) => r.Some? && ColumnsMoved(t, r.value, selected, gap)
    case SetAlignmentAction(selected, alignment) => r.Some? && IsAligned(t, r.value, selected, alignment)
    case SortAction(column, direction) => r.Some? && IsSorted(t, r.value, column, direction, c)
    case ClearSelectionAction(selection) => r.Some? && IsCleared(t, r.value, selection)
    case DeleteSelectionAction(selection) => SelectionDeleted(t, r, selection)
  }

  // ---------------------------------------------------------------- action by action

  lemma {:induction false} InsertsRows(t: Table, reference: int, placement: Placement, count: int)
    ensures RowsInserted(t, InsertRows(t, reference, placement, count), Wanted(reference, placement), reference, count)
  {
    if count > 0 {
      var wanted := Wanted(reference, placement);
      var k: nat := Clamp(wanted, 0, 1 + |t.body|);
      var style: nat := Clamp(reference, 0, |t.body|);
      var blank := InsertedRows(t, reference, placement, count, k, style);
      assert RowsInsertedAt(t, InsertRows(t, reference, placement, count), wanted, reference, count, k, style, blank);
    }
  }

  lemma {:induction false} CopiesRows(t: Table, selected: seq<int>)
    ensures RowsCopied(t, DuplicateRows(t, selected), selected)
  {
    DuplicatedRows(t, selected, Normalized(selected, 1 + |t.body|));
    forall chosen | IsChoice(chosen, selected, 1 + |t.body|)
      ensures HasCopies(SemanticRows(t), SemanticRows(DuplicateRows(t, selected)), chosen)
    {
      DuplicatedRows(t, selected, chosen);
    }
  }

  lemma {:induction false} MovesRows(t: Table, selected: seq<int>, gap: int)
    ensures RowsMoved(t, MoveRows(t, selected, gap), selected, gap)
  {
    var u := MoveRows(t, selected, gap);
    var here: nat := Clamp(gap, 0, 1 + |t.body|);
    MovedRows(t, selected, gap, Normalized(selected, 1 + |t.body|), here);
    forall chosen, k | IsChoice(chosen, selected, 1 + |t.body|) && IsGap(k, gap, 1 + |t.body|)
      ensures HasMoved(SemanticRows(t), SemanticRows(u), chosen, k)
    {
      MovedRows(t, selected, gap, chosen, k);
    }
  }

  lemma {:induction false} DeletesRows(t: Table, selected: seq<int>)
    ensures RowsDeleted(t, DeleteRows(t, selected), selected)
  {
    forall chosen | IsChoice(chosen, selected, 1 + |t.body|)
      ensures DeleteRows(t, selected) == None <==> |chosen| == 1 + |t.body|
      ensures DeleteRows(t, selected).Some? ==> RowsAreGone(t, DeleteRows(t, selected).value, chosen)
    {
      RemovedRows(t, selected, chosen);
    }
  }

  lemma GridSize(t: Table, u: Table)
    requires SameEnds(t, u)
    ensures |Grid(u)| == |Grid(t)|
  {
  }

  lemma {:induction false} InsertsColumns(t: Table, reference: int, placement: Placement, count: int)
    requires Shaped(t)
    ensures ColumnsInserted(t, InsertColumns(t, reference, placement, count), Wanted(reference, placement), count)
  {
    if count > 0 {
      var u, wanted := InsertColumns(t, reference, placement, count), Wanted(reference, placement);
      var here: nat := Clamp(wanted, 0, t.columnCount);
      InsertedColumns(t, reference, placement, count, here);
      GridSize(t, u);
      forall k | IsGap(k, wanted, t.columnCount)
        ensures HasInserted(t.alignments, u.alignments, k, count, Unaligned)
        ensures forall i :: 0 <= i < |Grid(t)| ==> HasInserted(Grid(t)[i], Grid(u)[i], k, count, "")
      {
        InsertedColumns(t, reference, placement, count, k);
      }
    }
  }

  lemma {:induction false} CopiesColumns(t: Table, selected: seq<int>)
    requires Shaped(t)
    ensures ColumnsCopied(t, DuplicateColumns(t, selected), selected)
  {
    var u := DuplicateColumns(t, selected);
    DuplicatedColumns(t, selected, Normalized(selected, t.columnCount));
    GridSize(t, u);
    forall chosen | IsChoice(chosen, selected, t.columnCount)
      ensures HasCopies(t.alignments, u.alignments, chosen)
      ensures forall i :: 0 <= i < |Grid(t)| ==> HasCopies(Grid(t)[i], Grid(u)[i], chosen)
    {
      DuplicatedColumns(t, selected, chosen);
    }
  }

  lemma {:induction false} MovesColumns(t: Table, selected: seq<int>, gap: int)
    requires Shaped(t)
    ensures ColumnsMoved(t, MoveColumns(t, selected, gap), selected, gap)
  {
    var u := MoveColumns(t, selected, gap);
    var here: nat := Clamp(gap, 0, t.columnCount);
    MovedColumns(t, selected, gap, Normalized(selected, t.columnCount), here);
    GridSize(t, u);
    forall chosen, k | IsChoice(chosen, selected, t.columnCount) && IsGap(k, gap, t.columnCount)
      ensures HasMoved(t.alignments, u.alignments, chosen, k)
      ensures forall i :: 0 <= i < |Grid(t)| ==> HasMoved(Grid(t)[i], Grid(u)[i], chosen, k)
    {
      MovedColumns(t, selected, gap, chosen, k);
    }
  }

  lemma {:induction false} DeletesColumns(t: Table, selected: seq<int>)
    requires Shaped(t)
    ensures ColumnsDeleted(t, DeleteColumns(t, selected), selected)
  {
    var r := DeleteColumns(t, selected);
    RemovedColumns(t, selected, Normalized(selected, t.columnCount));
    if r.Some? {
      GridSize(t, r.value);
    }
    forall chosen | IsChoice(chosen, selected, t.columnCount)
      ensures r == None <==> |chosen| == t.columnCount
      ensures r.Some? ==> ColumnsAreGone(t, r.value, chosen)
    {
      RemovedColumns(t, selected, chosen);
    }
  }

  lemma {:induction false} BlankTexts(row: Row, n: nat, j: nat)
    ensures CellText(ClearRow(row, n), j) == ""
  {
  }

  lemma {:induction false} ClearsRows(t: Table, selected: seq<int>)
    requires Shaped(t)
    ensures RowsCleared(t, ClearRows(t, selected), selected)
  {
    var u := ClearRows(t, selected);
    ClearedRowsKeep(t, selected);
    forall i, j | 0 <= i < |SemanticRows(t)| && 0 <= j < t.columnCount ensures TextCleared(t, u, i, j, i in selected) {
      BlankTexts(SemanticRows(t)[i], t.columnCount, j);
      assert SemanticRows(u)[i] == if i in selected then ClearRow(SemanticRows(t)[i], t.columnCount) else SemanticRows(t)[i];
    }
  }

  lemma {:induction false} ColumnTexts(row: Row, n: nat, columns: seq<nat>, j: nat)
    requires |row.cells| <= n && j < n
    ensures CellText(row.(cells := ClearedCells(row, n, columns)), j) == if j in columns then "" else CellText(row, j)
  {
  }

  lemma {:induction false} ClearsColumns(t: Table, selected: seq<int>)
    requires Shaped(t)
    ensures ColumnsCleared(t, ClearColumns(t, selected), selected)
  {
    var u, columns := ClearColumns(t, selected), Normalized(selected, t.columnCount);
    ClearedColumnsKeep(t, selected);
    forall i, j | 0 <= i < |SemanticRows(t)| && 0 <= j < t.columnCount ensures TextCleared(t, u, i, j, j in selected) {
      var row := SemanticRows(t)[i];
      assert row == if i == 0 then Rows(t)[0] else Rows(t)[i + 1];
      ColumnTexts(row, t.columnCount, columns, j);
      assert SemanticRows(u)[i] == row.(cells := ClearedCells(row, t.columnCount, columns));
    }
  }

  lemma {:induction false} MarkerSpelled(a: Alignment)
    ensures exists dashes :: SpellsMarker(DelimiterMarker(a, MinimumWidth(a)), a, dashes)
  {
    assert SpellsMarker(DelimiterMarker(a, MinimumWidth(a)), a, 3);
  }

  lemma {:induction false} Aligns(t: Table, selected: seq<int>, alignment: Alignment)
    requires Shaped(t)
    ensures IsAligned(t, SetAlignment(t, selected, alignment), selected, alignment)
  {
    var u := SetAlignment(t, selected, alignment);
    MarkerSpelled(alignment);
    AlignedKeeps(t, selected, alignment);
    forall j | 0 <= j < |t.alignments|
      ensures |u.alignments| == |t.alignments| <= |u.delimiter.cells| && AlignedAt(t, u, selected, alignment, j)
    {
    }
  }

  lemma {:induction false} Sorts(t: Table, column: int, direction: Direction, c: Collator)
    requires Consistent(c)
    ensures IsSorted(t, SortBody(t, column, direction, c), column, direction, c)
  {
    var order := SortBodySpec(t, column, direction, c);
    assert OrderedBy(t, SortBody(t, column, direction, c), column, direction, c, order);
  }

  lemma CoveredIndices(t: Table, s: CellRange) returns (rows: seq<nat>, columns: seq<nat>)
    requires t.columnCount > 0
    ensures IsCoveredRows(rows, t, s) && IsCoveredColumns(columns, t, s)
  {
    var b := SelectionBounds(1 + |t.body|, t.columnCount, s);
    rows := Normalized(Indices(b.minRow, b.maxRow), 1 + |t.body|);
    columns := Normalized(Indices(b.minColumn, b.maxColumn), t.columnCount);
    forall i: nat ensures i in rows <==> i < 1 + |t.body| && CoversRow(t, s, i) {
      if i < 1 + |t.body| {
        IndexListed(b.minRow, b.maxRow, i);
        InBounds(t, s, i, 0);
      }
    }
    forall j: nat ensures j in columns <==> j < t.columnCount && CoversColumn(t, s, j) {
      if j < t.columnCount {
        IndexListed(b.minColumn, b.maxColumn, j);
        InBounds(t, s, 0, j);
      }
    }
  }

  lemma {:induction false} DeletesSelection(t: Table, s: CellRange)
    requires Shaped(t)
    ensures SelectionDeleted(t, DeleteSelection(t, s), s)
  {
    var some, others := CoveredIndices(t, s);
    DeletedExactly(t, s, some, others);
    forall rows, columns | IsCoveredRows(rows, t, s) && IsCoveredColumns(columns, t, s) && DeleteSelection(t, s).Some?
      ensures var u := DeleteSelection(t, s).value;
              if CoversAllColumns(t, s) then RowsAreGone(t, u, rows)
              else if CoversAllRows(t, s) then ColumnsAreGone(t, u, columns)
              else IsCleared(t, u, s)
    {
      DeletedExactly(t, s, rows, columns);
    }
  }

  predicate OnColumns(a: Action) {
    || a.InsertColumnsAction? || a.DuplicateColumnsAction? || a.ClearColumnsAction? || a.DeleteColumnsAction?
    || a.MoveColumnsAction? || a.SetAlignmentAction?
  }

  lemma {:induction false} ColumnActionsDo(t: Table, a: Action, c: Collator)
    requires Shaped(t) && OnColumns(a)
    ensures IsResult(t, a, c, Perform(t, a, c))
  {
    match a
    case InsertColumnsAction(reference, placement, count) => InsertsColumns(t, reference, placement, count);
    case DuplicateColumnsAction(selected) => CopiesColumns(t, selected);
    case ClearColumnsAction(selected) => ClearsColumns(t, selected);
    case DeleteColumnsAction(selected) => DeletesColumns(t, selected);
    case MoveColumnsAction(selected, gap) => MovesColumns(t, selected, gap);
    case SetAlignmentAction(selected, alignment) => Aligns(t, selected, alignment);
  }

  /** Every action on every table, ragged ones included, does exactly that. */
  lemma {:induction false} ActionsDo(t: Table, a: Action, c: Collator)
    requires Shaped(t) && Consistent(c)
    ensures IsResult(t, a, c, Perform(t, a, c))
  {
    match a
    case InsertRowsAction(reference, placement, count) => InsertsRows(t, reference, placement, count);
    case DuplicateRowsAction(selected) => CopiesRows(t, selected);
    case ClearRowsAction(selected) => ClearsRows(t, selected);
    case DeleteRowsAction(selected) => DeletesRows(t, selected);
    case MoveRowsAction(selected, gap) => MovesRows(t, selected, gap);
    case SortAction(column, direction) => Sorts(t, column, direction, c);
    case ClearSelectionAction(selection) => ClearedExactly(t, selection);
    case DeleteSelectionAction(selection) => DeletesSelection(t, selection);
    case _ => ColumnActionsDo(t, a, c);
  }
}
