/** Where the cells of a table stand in the document, and which ranges are protected. */
module TableLayout {
  import opened Seqs
  import opened Text
  import opened MarkdownTable
  import opened TableEdits

  datatype Span = Span(from: int, to: int)

  /** `from..to` is what the caret may enter, `renderFrom..renderTo` what is drawn as the cell. */
  datatype CellLayout = CellLayout(rowIndex: int, columnIndex: nat, from: int, to: int,
                                   renderFrom: int, renderTo: int, cursor: int, isVirtual: bool)
  datatype RowLayout = RowLayout(semanticIndex: Option<nat>, from: int, to: int,
                                 cells: seq<CellLayout>, structural: seq<Span>)

  // ---------------------------------------------------------------- one cell

  function LeadingStructure(raw: string): (n: nat)
    ensures n <= |raw| && n <= 1
  {
    if |raw| > 1 && IsSpace(raw[0]) then 1 else 0
  }

  function TrailingStructure(raw: string): (n: nat)
    ensures n <= |raw| && n <= 1
  {
    if raw != "" && IsSpace(raw[|raw| - 1]) then 1 else 0
  }

  /** One white space at either end of a cell is structure, the rest is editable. An empty cell is
      drawn over one of its spaces if it has any. */
  function PlaceCell(raw: string, start: int, rowIndex: int, columnIndex: nat): CellLayout {
    var end := start + |raw|;
    var from, to := start + LeadingStructure(raw), end - TrailingStructure(raw);
    CellLayout(rowIndex, columnIndex, from, to, from, if from == to < end then from + 1 else to, from, false)
  }

  /** The offsets as buildRowLayout computes them. Its clamps never change a value, and it never moves
      the start of the drawn range. */
  method LayOutCell(rawCell: string, sourceFrom: int, rowIndex: int, columnIndex: nat) returns (cell: CellLayout)
    ensures cell == PlaceCell(rawCell, sourceFrom, rowIndex, columnIndex)
  {
    var cursor := sourceFrom + |rawCell|;
    var leadingStructuralSpace := if |rawCell| > 1 && IsSpace(rawCell[0]) then 1 else 0;
    var trailingStructuralSpace := if |rawCell| > 0 && IsSpace(rawCell[|rawCell| - 1]) then 1 else 0;
    var from := Min(cursor, sourceFrom + leadingStructuralSpace);
    var to := Max(from, cursor - trailingStructuralSpace);
    var renderFrom := if from == to && from == cursor && from > sourceFrom then from - 1 else from;
    var renderTo := if from == to && renderFrom < cursor then renderFrom + 1 else to;
    cell := CellLayout(rowIndex, columnIndex, from, to, renderFrom, renderTo, from, false);
  }

  /** Where cell `j` starts, if the first one starts at `base`; a pipe stands between cells. */
  function CellStart(cells: seq<Cell>, base: int, j: nat): int
    requires j <= |cells|
  {
    base + PartStart(Raws(cells), j)
  }

  function RowIndexOf(semanticIndex: Option<nat>): int {
    match semanticIndex
    case None => -1
    case Some(i) => i
  }

  /** The first `k` cells of a row, laid out. */
  function PlacedTo(cells: seq<Cell>, base: int, rowIndex: int, k: nat): (placed: seq<CellLayout>)
    requires k <= |cells|
    ensures |placed| == k
  {
    if k == 0 then []
    else PlacedTo(cells, base, rowIndex, k - 1) + [PlaceCell(Raw(cells[k - 1]), CellStart(cells, base, k - 1), rowIndex, k - 1)]
  }

  lemma {:induction false} PlacedAt(cells: seq<Cell>, base: int, rowIndex: int, k: nat, j: nat)
    requires j < k <= |cells|
    ensures PlacedTo(cells, base, rowIndex, k)[j] == PlaceCell(Raw(cells[j]), CellStart(cells, base, j), rowIndex, j)
  {
    if j < k - 1 {
      PlacedAt(cells, base, rowIndex, k - 1, j);
    }
  }

  function VirtualCell(rowIndex: int, columnIndex: nat, position: int): CellLayout {
    CellLayout(rowIndex, columnIndex, position, position, position, position, position, true)
  }

  /** Cells that a short row lacks stand at its end. */
  function VirtualCells(count: nat, first: nat, rowIndex: int, position: int): (r: seq<CellLayout>)
    ensures |r| == count
  {
    seq(count, k requires 0 <= k => VirtualCell(rowIndex, first + k, position))
  }

  function NonEmptySpan(from: int, to: int): seq<Span> {
    if from < to then [Span(from, to)] else []
  }

  /** The gaps after the drawn cells. */
  function GapsAfter(cells: seq<CellLayout>, lineTo: int): seq<Span> {
    if cells == [] then []
    else NonEmptySpan(cells[0].renderTo, if |cells| > 1 then cells[1].renderFrom else lineTo) + GapsAfter(cells[1..], lineTo)
  }

  function StructuralSpans(cells: seq<CellLayout>, lineFrom: int, lineTo: int): seq<Span> {
    if cells == [] then NonEmptySpan(lineFrom, lineTo)
    else NonEmptySpan(lineFrom, cells[0].renderFrom) + GapsAfter(cells, lineTo)
  }

  function RowBase(row: Row, contentFrom: int): int {
    contentFrom + |row.prefix| + if row.leadingPipe then 1 else 0
  }

  function RowEnd(row: Row, contentFrom: int): int {
    CellStart(row.cells, RowBase(row, contentFrom), |row.cells|) - if row.cells == [] then 0 else 1
  }

  function LaidOutCells(row: Row, lineTo: int, semanticIndex: Option<nat>, contentFrom: int, columnCount: nat): seq<CellLayout> {
    var rowIndex := RowIndexOf(semanticIndex);
    var missing := if semanticIndex.Some? && |row.cells| < columnCount then columnCount - |row.cells| else 0;
    PlacedTo(row.cells, RowBase(row, contentFrom), rowIndex, |row.cells|)
    + VirtualCells(missing, |row.cells|, rowIndex, Min(RowEnd(row, contentFrom), lineTo))
  }

  function LayoutRow(row: Row, lineFrom: int, lineTo: int, semanticIndex: Option<nat>, contentFrom: int, columnCount: nat): RowLayout {
    var cells := LaidOutCells(row, lineTo, semanticIndex, contentFrom, columnCount);
    RowLayout(semanticIndex, lineFrom, lineTo, cells, StructuralSpans(cells, lineFrom, lineTo))
  }

  /** `laid` is the layout of `row` on its line. */
  predicate IsLayout(laid: RowLayout, row: Row, semanticIndex: Option<nat>, contentFrom: int, columnCount: nat) {
    && laid.semanticIndex == semanticIndex
    && laid.cells == LaidOutCells(row, laid.to, semanticIndex, contentFrom, columnCount)
    && laid.structural == StructuralSpans(laid.cells, laid.from, laid.to)
  }

  lemma {:induction false} GapsSnoc(cells: seq<CellLayout>, k: nat, lineTo: int)
    requires k < |cells|
    ensures GapsAfter(cells[k..], lineTo)
         == NonEmptySpan(cells[k].renderTo, if k + 1 < |cells| then cells[k + 1].renderFrom else lineTo)
            + GapsAfter(cells[k + 1..], lineTo)
  {
    assert cells[k..][1..] == cells[k + 1..];
  }

  /** The first loop of buildRowLayout: a cursor runs over the cells of the row. */
  method PlaceCells(row: Row, contentFrom: int, rowIndex: int) returns (cells: seq<CellLayout>, cursor: int)
    ensures cells == PlacedTo(row.cells, RowBase(row, contentFrom), rowIndex, |row.cells|)
    ensures cursor == RowEnd(row, contentFrom)
  {
    cursor := contentFrom + |row.prefix|;
    if row.leadingPipe {
      cursor := cursor + 1;
    }
    ghost var base := RowBase(row, contentFrom);
    cells := [];
    for columnIndex := 0 to |row.cells|
      invariant cursor == CellStart(row.cells, base, columnIndex) - if 0 < columnIndex == |row.cells| then 1 else 0
      invariant cells == PlacedTo(row.cells, base, rowIndex, columnIndex)
    {
      var rawCell := Raw(row.cells[columnIndex]);
      var cell := LayOutCell(rawCell, cursor, rowIndex, columnIndex);
      cells := cells + [cell];
      cursor := cursor + |rawCell|;
      if columnIndex < |row.cells| - 1 {
        cursor := cursor + 1;
      }
    }
  }

  /** The second loop: cells that the row lacks are appended at its end. */
  method AppendVirtualCells(placed: seq<CellLayout>, columnCount: nat, rowIndex: int, position: int) returns (cells: seq<CellLayout>)
    ensures cells == placed + VirtualCells(if |placed| < columnCount then columnCount - |placed| else 0, |placed|, rowIndex, position)
  {
    cells := placed;
    while |cells| < columnCount
      invariant |placed| <= |cells|
      invariant |cells| <= if |placed| < columnCount then columnCount else |placed|
      invariant cells == placed + VirtualCells(|cells| - |placed|, |placed|, rowIndex, position)
    {
      cells := cells + [VirtualCell(rowIndex, |cells|, position)];
    }
  }

  /** The third loop: the gaps between drawn cells are collected. */
  method CollectStructure(cells: seq<CellLayout>, lineFrom: int, lineTo: int) returns (structural: seq<Span>)
    ensures structural == StructuralSpans(cells, lineFrom, lineTo)
  {
    if cells == [] {
      return NonEmptySpan(lineFrom, lineTo);
    }
    structural := NonEmptySpan(lineFrom, cells[0].renderFrom);
    for index := 0 to |cells|
      invariant structural + GapsAfter(cells[index..], lineTo) == StructuralSpans(cells, lineFrom, lineTo)
    {
      GapsSnoc(cells, index, lineTo);
      var gap := NonEmptySpan(cells[index].renderTo, if index + 1 < |cells| then cells[index + 1].renderFrom else lineTo);
      Assoc(structural, gap, GapsAfter(cells[index + 1..], lineTo));
      structural := structural + gap;
    }
    assert cells[|cells|..] == [];
  }

  method BuildRowLayout(row: Row, lineFrom: int, lineTo: int, semanticIndex: Option<nat>, contentFrom: int, columnCount: nat)
    returns (layout: RowLayout)
    ensures layout == LayoutRow(row, lineFrom, lineTo, semanticIndex, contentFrom, columnCount)
  {
    var cells, cursor := PlaceCells(row, contentFrom, RowIndexOf(semanticIndex));
    ghost var placed := cells;
    if semanticIndex.Some? {
      cells := AppendVirtualCells(cells, columnCount, RowIndexOf(semanticIndex), Min(cursor, lineTo));
    } else {
      assert cells == placed + VirtualCells(0, |placed|, RowIndexOf(semanticIndex), Min(cursor, lineTo));
    }
    assert cells == LaidOutCells(row, lineTo, semanticIndex, contentFrom, columnCount);
    var structural := CollectStructure(cells, lineFrom, lineTo);
    layout := RowLayout(semanticIndex, lineFrom, lineTo, cells, structural);
  }

  // ---------------------------------------------------------------- the drawn cells and the structure tile the line

  lemma PlacedInside(raw: string, start: int, rowIndex: int, j: nat)
    ensures var c := PlaceCell(raw, start, rowIndex, j);
            && start <= c.renderFrom <= c.renderTo <= start + |raw|
            && start <= c.from <= c.to <= start + |raw|
            && c.from == start + LeadingStructure(raw)
            && (c.from < c.to ==> c.renderFrom == c.from && c.renderTo == c.to)
            && (raw != "" ==> c.renderFrom < c.renderTo)
  {
  }

  predicate Within(p: int, from: int, to: int) {
    from <= p < to
  }

  /** A position is drawn as part of a cell. */
  predicate Drawn(cells: seq<CellLayout>, p: int) {
    exists k :: 0 <= k < |cells| && Within(p, cells[k].renderFrom, cells[k].renderTo)
  }

  predicate InSpans(spans: seq<Span>, p: int) {
    exists k :: 0 <= k < |spans| && Within(p, spans[k].from, spans[k].to)
  }

  /** The drawn ranges lie in the line, one after the other. */
  predicate Ordered(cells: seq<CellLayout>, low: int, high: int) {
    && (forall k :: 0 <= k < |cells| ==> low <= cells[k].renderFrom <= cells[k].renderTo <= high)
    && (forall j, k :: 0 <= j < k < |cells| ==> cells[j].renderTo <= cells[k].renderFrom)
  }

  lemma InSpansConcat(a: seq<Span>, b: seq<Span>, p: int)
    ensures InSpans(a + b, p) <==> InSpans(a, p) || InSpans(b, p)
  {
    if InSpans(a, p) {
      var k :| 0 <= k < |a| && Within(p, a[k].from, a[k].to);
      assert (a + b)[k] == a[k];
    }
    if InSpans(b, p) {
      var k :| 0 <= k < |b| && Within(p, b[k].from, b[k].to);
      assert (a + b)[|a| + k] == b[k];
    }
  }

  lemma InNonEmpty(from: int, to: int, p: int)
    ensures InSpans(NonEmptySpan(from, to), p) <==> Within(p, from, to)
  {
    if from < to {
      assert NonEmptySpan(from, to)[0] == Span(from, to);
    }
  }

  lemma {:induction false} GapsCover(cells: seq<CellLayout>, low: int, high: int, p: int)
    requires cells != [] && Ordered(cells, low, high) && cells[0].renderFrom <= p < high
    ensures InSpans(GapsAfter(cells, high), p) <==> !Drawn(cells, p)
  {
    var first := cells[0];
    var next := if |cells| > 1 then cells[1].renderFrom else high;
    InNonEmpty(first.renderTo, next, p);
    InSpansConcat(NonEmptySpan(first.renderTo, next), GapsAfter(cells[1..], high), p);
    var rest := cells[1..];
    assert forall k :: 0 <= k < |rest| ==> rest[k] == cells[k + 1];
    assert Drawn(cells, p) <==> Within(p, first.renderFrom, first.renderTo) || Drawn(rest, p) by {
      if Drawn(rest, p) {
        var k :| 0 <= k < |rest| && Within(p, rest[k].renderFrom, rest[k].renderTo);
        assert Within(p, cells[k + 1].renderFrom, cells[k + 1].renderTo);
      }
    }
    if |cells| > 1 {
      if p >= next {
        GapsCover(rest, low, high, p);
      } else {
        GapsStartLater(rest, low, high, p);
      }
    }
  }

  /** Nothing of the later cells or gaps lies before the first of them. */
  lemma {:induction false} GapsStartLater(cells: seq<CellLayout>, low: int, high: int, p: int)
    requires cells != [] && Ordered(cells, low, high) && p < cells[0].renderFrom
    ensures !InSpans(GapsAfter(cells, high), p) && !Drawn(cells, p)
  {
    var next := if |cells| > 1 then cells[1].renderFrom else high;
    InNonEmpty(cells[0].renderTo, next, p);
    InSpansConcat(NonEmptySpan(cells[0].renderTo, next), GapsAfter(cells[1..], high), p);
    if |cells| > 1 {
      assert forall k :: 0 <= k < |cells[1..]| ==> cells[1..][k] == cells[k + 1];
      assert cells[0].renderTo <= cells[1].renderFrom;
      GapsStartLater(cells[1..], low, high, p);
    }
  }

  /** Every position of a line is either drawn as part of a cell or structural, never both. */
  lemma StructureTiles(cells: seq<CellLayout>, lineFrom: int, lineTo: int, p: int)
    requires Ordered(cells, lineFrom, lineTo) && lineFrom <= p < lineTo
    ensures InSpans(StructuralSpans(cells, lineFrom, lineTo), p) <==> !Drawn(cells, p)
  {
    if cells == [] {
      InNonEmpty(lineFrom, lineTo, p);
    } else {
      InNonEmpty(lineFrom, cells[0].renderFrom, p);
      InSpansConcat(NonEmptySpan(lineFrom, cells[0].renderFrom), GapsAfter(cells, lineTo), p);
      if p < cells[0].renderFrom {
        GapsStartLater(cells, lineFrom, lineTo, p);
      } else {
        GapsCover(cells, lineFrom, lineTo, p);
      }
    }
  }

  // ---------------------------------------------------------------- rows that fit their line

  /** A printed row that ends at the end of its line. */
  predicate FitsLine(row: Row, lineFrom: int, lineTo: int, contentFrom: int) {
    row.cells != [] && lineFrom <= contentFrom && contentFrom + |SerializeRow(row)| == lineTo
  }

  lemma RowEndInside(row: Row, lineFrom: int, lineTo: int, contentFrom: int)
    requires FitsLine(row, lineFrom, lineTo, contentFrom)
    ensures RowEnd(row, contentFrom) + (if row.trailingPipe then 1 else 0) + |row.suffix| == lineTo
  {
    JoinLength(Raws(row.cells), "|");
  }

  lemma PlacedEnd(row: Row, contentFrom: int, k: nat)
    requires k < |row.cells|
    ensures var base := RowBase(row, contentFrom);
            base <= CellStart(row.cells, base, k) && CellStart(row.cells, base, k) + |Raw(row.cells[k])| <= RowEnd(row, contentFrom)
  {
    var base := RowBase(row, contentFrom);
    PartGap(Raws(row.cells), k, |row.cells|);
  }

  /** The stretch of the line that belongs to cell `k`; cells past the last one own nothing. */
  function Stretch(row: Row, contentFrom: int, k: nat): Span {
    if k < |row.cells|
    then var start := CellStart(row.cells, RowBase(row, contentFrom), k); Span(start, start + |Raw(row.cells[k])|)
    else Span(RowEnd(row, contentFrom), RowEnd(row, contentFrom))
  }

  predicate DrawnWithin(c: CellLayout, span: Span) {
    && span.from <= c.renderFrom <= c.renderTo <= span.to
    && (span.from < span.to ==> c.renderFrom < c.renderTo)
  }

  lemma LaidOutCell(row: Row, lineTo: int, semanticIndex: Option<nat>, contentFrom: int, n: nat, k: nat)
    requires RowEnd(row, contentFrom) <= lineTo && k < |LaidOutCells(row, lineTo, semanticIndex, contentFrom, n)|
    ensures var c := LaidOutCells(row, lineTo, semanticIndex, contentFrom, n)[k];
            c == if k < |row.cells|
                 then PlaceCell(Raw(row.cells[k]), Stretch(row, contentFrom, k).from, RowIndexOf(semanticIndex), k)
                 else VirtualCell(RowIndexOf(semanticIndex), k, RowEnd(row, contentFrom))
  {
    if k < |row.cells| {
      PlacedAt(row.cells, RowBase(row, contentFrom), RowIndexOf(semanticIndex), |row.cells|, k);
    }
  }

  lemma CellInStretch(row: Row, lineTo: int, semanticIndex: Option<nat>, contentFrom: int, n: nat, k: nat)
    requires RowEnd(row, contentFrom) <= lineTo && k < |LaidOutCells(row, lineTo, semanticIndex, contentFrom, n)|
    ensures DrawnWithin(LaidOutCells(row, lineTo, semanticIndex, contentFrom, n)[k], Stretch(row, contentFrom, k))
  {
    LaidOutCell(row, lineTo, semanticIndex, contentFrom, n, k);
    if k < |row.cells| {
      PlacedInside(Raw(row.cells[k]), Stretch(row, contentFrom, k).from, RowIndexOf(semanticIndex), k);
    }
  }

  lemma StretchInside(row: Row, contentFrom: int, k: nat)
    requires row.cells != []
    ensures var span := Stretch(row, contentFrom, k);
            RowBase(row, contentFrom) <= span.from <= span.to <= RowEnd(row, contentFrom)
  {
    PlacedEnd(row, contentFrom, if k < |row.cells| then k else 0);
  }

  /** A pipe stands between the stretches of two cells of the source. */
  lemma StretchesApart(row: Row, contentFrom: int, j: nat, k: nat)
    requires j < k && row.cells != []
    ensures Stretch(row, contentFrom, j).to + (if k < |row.cells| then 1 else 0) <= Stretch(row, contentFrom, k).from
  {
    if k < |row.cells| {
      PartGap(Raws(row.cells), j, k);
    } else {
      StretchInside(row, contentFrom, j);
    }
  }

  /** In a laid-out row the drawn cells are ordered inside the line. */
  lemma LaidOutOrdered(row: Row, lineFrom: int, lineTo: int, semanticIndex: Option<nat>, contentFrom: int, n: nat)
    requires FitsLine(row, lineFrom, lineTo, contentFrom)
    ensures RowEnd(row, contentFrom) <= lineTo
    ensures Ordered(LaidOutCells(row, lineTo, semanticIndex, contentFrom, n), lineFrom, lineTo)
  {
    var cells := LaidOutCells(row, lineTo, semanticIndex, contentFrom, n);
    RowEndInside(row, lineFrom, lineTo, contentFrom);
    forall k | 0 <= k < |cells| ensures lineFrom <= cells[k].renderFrom <= cells[k].renderTo <= lineTo {
      StretchInside(row, contentFrom, k);
      CellInStretch(row, lineTo, semanticIndex, contentFrom, n, k);
    }
    forall j, k | 0 <= j < k < |cells| ensures cells[j].renderTo <= cells[k].renderFrom {
      StretchesApart(row, contentFrom, j, k);
      CellInStretch(row, lineTo, semanticIndex, contentFrom, n, j);
      CellInStretch(row, lineTo, semanticIndex, contentFrom, n, k);
    }
  }

  /** The pipe before cell `j`. */
  function SeparatorAt(row: Row, contentFrom: int, j: nat): int {
    Stretch(row, contentFrom, j).from - 1
  }

  lemma CellMissesSeparator(row: Row, lineTo: int, semanticIndex: Option<nat>, contentFrom: int, n: nat, j: nat, k: nat)
    requires RowEnd(row, contentFrom) <= lineTo && 0 < j < |row.cells|
    requires k < |LaidOutCells(row, lineTo, semanticIndex, contentFrom, n)|
    ensures var c := LaidOutCells(row, lineTo, semanticIndex, contentFrom, n)[k];
            !Within(SeparatorAt(row, contentFrom, j), c.renderFrom, c.renderTo)
  {
    CellInStretch(row, lineTo, semanticIndex, contentFrom, n, k);
    if k < j {
      StretchesApart(row, contentFrom, k, j);
    } else if k > j {
      StretchesApart(row, contentFrom, j, k);
      StretchInside(row, contentFrom, j);
    }
  }

  lemma SeparatorNotDrawn(row: Row, lineFrom: int, lineTo: int, semanticIndex: Option<nat>, contentFrom: int, n: nat, j: nat)
    requires FitsLine(row, lineFrom, lineTo, contentFrom) && 0 < j < |row.cells|
    ensures var p := SeparatorAt(row, contentFrom, j);
            lineFrom <= p < lineTo && !Drawn(LaidOutCells(row, lineTo, semanticIndex, contentFrom, n), p)
  {
    var cells := LaidOutCells(row, lineTo, semanticIndex, contentFrom, n);
    RowEndInside(row, lineFrom, lineTo, contentFrom);
    StretchInside(row, contentFrom, j);
    StretchInside(row, contentFrom, j - 1);
    StretchesApart(row, contentFrom, j - 1, j);
    forall k | 0 <= k < |cells|
      ensures !Within(SeparatorAt(row, contentFrom, j), cells[k].renderFrom, cells[k].renderTo)
    {
      CellMissesSeparator(row, lineTo, semanticIndex, contentFrom, n, j, k);
    }
  }

  /** Structure and drawn cells split the line: each position is in one of them, never in both; and each
      separating pipe is structure. */
  predicate ExactStructure(layout: RowLayout, row: Row, contentFrom: int) {
    && (forall p :: layout.from <= p < layout.to ==> (InSpans(layout.structural, p) <==> !Drawn(layout.cells, p)))
    && (forall j :: 0 < j < |row.cells| ==>
          InSpans(layout.structural, SeparatorAt(row, contentFrom, j)))
  }

  /** Structure protection is exact in every laid-out row. */
  lemma RowStructureExact(laid: RowLayout, row: Row, semanticIndex: Option<nat>, contentFrom: int, n: nat)
    requires IsLayout(laid, row, semanticIndex, contentFrom, n) && FitsLine(row, laid.from, laid.to, contentFrom)
    ensures ExactStructure(laid, row, contentFrom)
  {
    LaidOutOrdered(row, laid.from, laid.to, semanticIndex, contentFrom, n);
    forall p | laid.from <= p < laid.to ensures InSpans(laid.structural, p) <==> !Drawn(laid.cells, p) {
      StructureTiles(laid.cells, laid.from, laid.to, p);
    }
    forall j | 0 < j < |row.cells|
      ensures InSpans(laid.structural, SeparatorAt(row, contentFrom, j))
    {
      SeparatorNotDrawn(row, laid.from, laid.to, semanticIndex, contentFrom, n, j);
    }
  }

  // ---------------------------------------------------------------- protected ranges

  predicate RangesOverlap(leftFrom: int, leftTo: int, rightFrom: int, rightTo: int) {
    leftFrom < rightTo && leftTo > rightFrom
  }

  /** The test for one row: the delimiter row, a structural range, or the line break after the row. */
  predicate TouchesRow(rows: seq<RowLayout>, index: nat, from: int, to: int)
    requires index < |rows|
  {
    var row := rows[index];
    || (row.semanticIndex == None && RangesOverlap(from, to, row.from, Max(row.from + 1, row.to)))
    || (exists k :: 0 <= k < |row.structural| && RangesOverlap(from, to, row.structural[k].from, row.structural[k].to))
    || (index + 1 < |rows| && RangesOverlap(from, to, row.to, rows[index + 1].from))
  }

  /** selectionTouchesHiddenStructure for one parsed table; `terminator` is the protected line break
      after a table that ends the document. */
  predicate SelectionTouches(layoutFrom: int, layoutTo: int, rows: seq<RowLayout>, terminator: Option<Span>, from: int, to: int) {
    from != to &&
    ((terminator.Some? && RangesOverlap(from, to, terminator.value.from, terminator.value.to))
     || (!(from >= layoutTo || to <= layoutFrom) && exists index :: 0 <= index < |rows| && TouchesRow(rows, index, from, to)))
  }

  /** Lines of a table in a document: each row fits its line, and a line feed separates the lines.
      Only the first line may start before the table. */
  predicate LaidOut(rows: seq<RowLayout>, source: seq<Row>, layoutFrom: int, columnCount: nat) {
    && |rows| == |source| >= 2
    && (forall i :: 0 <= i < |rows| ==> LaidOutRow(rows, source, layoutFrom, columnCount, i))
  }

  /** The delimiter row is line 1; the others are numbered without it. */
  function SemanticIndex(line: nat): Option<nat> {
    if line == 1 then None else if line == 0 then Some(0) else Some(line - 1)
  }

  function ContentFrom(rows: seq<RowLayout>, layoutFrom: int, i: nat): int
    requires i < |rows|
  {
    if i == 0 then layoutFrom else rows[i].from
  }

  predicate LaidOutRow(rows: seq<RowLayout>, source: seq<Row>, layoutFrom: int, columnCount: nat, i: nat)
    requires i < |rows| == |source|
  {
    && FitsLine(source[i], rows[i].from, rows[i].to, ContentFrom(rows, layoutFrom, i)) && rows[i].from < rows[i].to
    && IsLayout(rows[i], source[i], SemanticIndex(i), ContentFrom(rows, layoutFrom, i), columnCount)
    && (i + 1 < |rows| ==> rows[i + 1].from == rows[i].to + 1)
  }

  /** The row whose line, or the line break after it, holds the position. */
  predicate RowHolds(rows: seq<RowLayout>, k: int, p: int) {
    0 <= k < |rows| && (rows[k].from <= p < rows[k].to || (k + 1 < |rows| && p == rows[k].to))
  }

  lemma {:induction false} RowContaining(rows: seq<RowLayout>, source: seq<Row>, layoutFrom: int, n: nat, p: int, i: nat) returns (k: nat)
    requires LaidOut(rows, source, layoutFrom, n) && i < |rows| && rows[i].from <= p < rows[|rows| - 1].to
    ensures RowHolds(rows, k, p)
    decreases |rows| - i
  {
    assert LaidOutRow(rows, source, layoutFrom, n, i);
    if RowHolds(rows, i, p) {
      k := i;
    } else {
      k := RowContaining(rows, source, layoutFrom, n, p, i + 1);
    }
  }

  /** A range that starts in a structural range touches it. */
  lemma StructureTouched(rows: seq<RowLayout>, i: nat, p: int, from: int, to: int)
    requires i < |rows| && InSpans(rows[i].structural, p) && from <= p < to
    ensures TouchesRow(rows, i, from, to)
  {
    var spans := rows[i].structural;
    var s :| 0 <= s < |spans| && Within(p, spans[s].from, spans[s].to);
    assert RangesOverlap(from, to, spans[s].from, spans[s].to);
  }

  /** A nonempty range that touches no structure starts inside a drawn cell of a data row. */
  lemma StartsInCell(rows: seq<RowLayout>, source: seq<Row>, layoutFrom: int, n: nat, from: int, to: int) returns (i: nat, k: nat)
    requires LaidOut(rows, source, layoutFrom, n)
    requires rows[0].from <= from < to && from < rows[|rows| - 1].to
    requires forall index :: 0 <= index < |rows| ==> !TouchesRow(rows, index, from, to)
    ensures i < |rows| && rows[i].semanticIndex.Some? && k < |rows[i].cells|
    ensures Within(from, rows[i].cells[k].renderFrom, rows[i].cells[k].renderTo)
  {
    i := RowContaining(rows, source, layoutFrom, n, from, 0);
    var row := rows[i];
    assert !TouchesRow(rows, i, from, to);
    assert LaidOutRow(rows, source, layoutFrom, n, i);
    RowStructureExact(row, source[i], row.semanticIndex, ContentFrom(rows, layoutFrom, i), n);
    assert !InSpans(row.structural, from) by {
      if InSpans(row.structural, from) {
        StructureTouched(rows, i, from, from, to);
      }
    }
    assert Drawn(row.cells, from);
    k :| 0 <= k < |row.cells| && Within(from, row.cells[k].renderFrom, row.cells[k].renderTo);
  }

  /** The position right after a drawn cell is structural or a line break. */
  lemma EndIsProtected(rows: seq<RowLayout>, source: seq<Row>, layoutFrom: int, n: nat, i: nat, k: nat, from: int, to: int)
    requires LaidOut(rows, source, layoutFrom, n) && i < |rows| && k < |rows[i].cells|
    requires Within(from, rows[i].cells[k].renderFrom, rows[i].cells[k].renderTo) && rows[i].cells[k].renderTo < to
    requires to <= rows[|rows| - 1].to
    ensures TouchesRow(rows, i, from, to)
  {
    var row := rows[i];
    var p := row.cells[k].renderTo;
    var contentFrom := ContentFrom(rows, layoutFrom, i);
    assert LaidOutRow(rows, source, layoutFrom, n, i);
    LaidOutOrdered(source[i], row.from, row.to, row.semanticIndex, contentFrom, n);
    if p < row.to {
      AfterCellNotDrawn(source[i], row.from, row.to, row.semanticIndex, contentFrom, n, k);
      RowStructureExact(row, source[i], row.semanticIndex, contentFrom, n);
      StructureTouched(rows, i, p, from, to);
    } else {
      assert p == row.to;
      assert i + 1 < |rows|;
      assert RangesOverlap(from, to, row.to, rows[i + 1].from);
    }
  }

  /** Between two drawn cells of a row there is a pipe, so the end of one is not the start of the next. */
  lemma AfterCellNotDrawn(row: Row, lineFrom: int, lineTo: int, semanticIndex: Option<nat>, contentFrom: int, n: nat, k: nat)
    requires FitsLine(row, lineFrom, lineTo, contentFrom)
    requires k < |LaidOutCells(row, lineTo, semanticIndex, contentFrom, n)|
    ensures var cells := LaidOutCells(row, lineTo, semanticIndex, contentFrom, n);
            cells[k].renderFrom < cells[k].renderTo ==> !Drawn(cells, cells[k].renderTo)
  {
    var cells := LaidOutCells(row, lineTo, semanticIndex, contentFrom, n);
    RowEndInside(row, lineFrom, lineTo, contentFrom);
    CellInStretch(row, lineTo, semanticIndex, contentFrom, n, k);
    var p := cells[k].renderTo;
    if cells[k].renderFrom < p {
      forall j | 0 <= j < |cells| ensures !Within(p, cells[j].renderFrom, cells[j].renderTo) {
        CellInStretch(row, lineTo, semanticIndex, contentFrom, n, j);
        if k < j {
          StretchesApart(row, contentFrom, k, j);
        } else if j < k {
          StretchesApart(row, contentFrom, j, k);
        }
      }
    }
  }

  /** Any nonempty range up to the end of the last row that the protection lets through lies inside
      the drawn range of a single cell of a data row. */
  lemma LetThroughLiesInOneCell(rows: seq<RowLayout>, source: seq<Row>, layoutFrom: int, layoutTo: int, n: nat,
                                terminator: Option<Span>, from: int, to: int) returns (i: nat, k: nat)
    requires LaidOut(rows, source, layoutFrom, n) && rows[|rows| - 1].to <= layoutTo
    requires layoutFrom <= from < to <= rows[|rows| - 1].to
    requires !SelectionTouches(layoutFrom, layoutTo, rows, terminator, from, to)
    ensures i < |rows| && rows[i].semanticIndex.Some? && k < |rows[i].cells|
    ensures rows[i].cells[k].renderFrom <= from < to <= rows[i].cells[k].renderTo
  {
    assert LaidOutRow(rows, source, layoutFrom, n, 0);
    i, k := StartsInCell(rows, source, layoutFrom, n, from, to);
    if rows[i].cells[k].renderTo < to {
      EndIsProtected(rows, source, layoutFrom, n, i, k, from, to);
    }
  }

  // ---------------------------------------------------------------- and nothing else is protected

  lemma {:induction false} GapsInside(cells: seq<CellLayout>, low: int, high: int, p: int)
    requires Ordered(cells, low, high) && InSpans(GapsAfter(cells, high), p)
    ensures low <= p < high
  {
    if cells != [] {
      var next := if |cells| > 1 then cells[1].renderFrom else high;
      var rest := cells[1..];
      assert forall k :: 0 <= k < |rest| ==> rest[k] == cells[k + 1];
      InNonEmpty(cells[0].renderTo, next, p);
      InSpansConcat(NonEmptySpan(cells[0].renderTo, next), GapsAfter(rest, high), p);
      if !Within(p, cells[0].renderTo, next) {
        GapsInside(rest, low, high, p);
      }
    }
  }

  lemma StructureInside(cells: seq<CellLayout>, lineFrom: int, lineTo: int, p: int)
    requires Ordered(cells, lineFrom, lineTo) && InSpans(StructuralSpans(cells, lineFrom, lineTo), p)
    ensures lineFrom <= p < lineTo
  {
    if cells == [] {
      InNonEmpty(lineFrom, lineTo, p);
    } else {
      InNonEmpty(lineFrom, cells[0].renderFrom, p);
      InSpansConcat(NonEmptySpan(lineFrom, cells[0].renderFrom), GapsAfter(cells, lineTo), p);
      if !Within(p, lineFrom, cells[0].renderFrom) {
        GapsInside(cells, lineFrom, lineTo, p);
      }
    }
  }

  lemma {:induction false} GapsNonEmpty(cells: seq<CellLayout>, lineTo: int, s: nat)
    requires s < |GapsAfter(cells, lineTo)|
    ensures GapsAfter(cells, lineTo)[s].from < GapsAfter(cells, lineTo)[s].to
  {
    if cells != [] {
      var first := NonEmptySpan(cells[0].renderTo, if |cells| > 1 then cells[1].renderFrom else lineTo);
      if s >= |first| {
        GapsNonEmpty(cells[1..], lineTo, s - |first|);
      }
    }
  }

  lemma SpansNonEmpty(cells: seq<CellLayout>, lineFrom: int, lineTo: int, s: nat)
    requires s < |StructuralSpans(cells, lineFrom, lineTo)|
    ensures StructuralSpans(cells, lineFrom, lineTo)[s].from < StructuralSpans(cells, lineFrom, lineTo)[s].to
  {
    if cells != [] {
      var first := NonEmptySpan(lineFrom, cells[0].renderFrom);
      if s >= |first| {
        GapsNonEmpty(cells, lineTo, s - |first|);
      }
    }
  }

  lemma {:induction false} RowsApart(rows: seq<RowLayout>, source: seq<Row>, layoutFrom: int, n: nat, i: nat, j: nat)
    requires LaidOut(rows, source, layoutFrom, n) && i < j < |rows|
    ensures rows[i].to < rows[j].from <= rows[j].to
  {
    assert LaidOutRow(rows, source, layoutFrom, n, j);
    RowEndBounds(rows, source, layoutFrom, n, j);
    assert LaidOutRow(rows, source, layoutFrom, n, j - 1);
    if i < j - 1 {
      RowsApart(rows, source, layoutFrom, n, i, j - 1);
    }
  }

  lemma RowEndBounds(rows: seq<RowLayout>, source: seq<Row>, layoutFrom: int, n: nat, i: nat)
    requires LaidOut(rows, source, layoutFrom, n) && i < |rows|
    ensures rows[i].from <= ContentFrom(rows, layoutFrom, i) <= rows[i].to
  {
    assert LaidOutRow(rows, source, layoutFrom, n, i);
  }

  /** A range inside a drawn cell shares no position with any structural range of a row. */
  lemma CellMissesStructure(rows: seq<RowLayout>, source: seq<Row>, layoutFrom: int, n: nat, i: nat, k: nat, index: nat, p: int)
    requires LaidOut(rows, source, layoutFrom, n) && i < |rows| && k < |rows[i].cells| && index < |rows|
    requires Within(p, rows[i].cells[k].renderFrom, rows[i].cells[k].renderTo)
    ensures !InSpans(rows[index].structural, p) && rows[i].from <= p < rows[i].to
  {
    assert LaidOutRow(rows, source, layoutFrom, n, i) && LaidOutRow(rows, source, layoutFrom, n, index);
    var row, other := rows[i], rows[index];
    LaidOutOrdered(source[i], row.from, row.to, row.semanticIndex, ContentFrom(rows, layoutFrom, i), n);
    LaidOutOrdered(source[index], other.from, other.to, other.semanticIndex, ContentFrom(rows, layoutFrom, index), n);
    if InSpans(other.structural, p) {
      StructureInside(other.cells, other.from, other.to, p);
      if i < index {
        RowsApart(rows, source, layoutFrom, n, i, index);
      } else if index < i {
        RowsApart(rows, source, layoutFrom, n, index, i);
      } else {
        assert Drawn(row.cells, p);
        StructureTiles(row.cells, row.from, row.to, p);
      }
    }
  }

  lemma InsideCellMissesSpan(rows: seq<RowLayout>, source: seq<Row>, layoutFrom: int, n: nat,
                             i: nat, k: nat, from: int, to: int, index: nat, s: nat)
    requires LaidOut(rows, source, layoutFrom, n) && i < |rows| && k < |rows[i].cells| && index < |rows|
    requires rows[i].cells[k].renderFrom <= from < to <= rows[i].cells[k].renderTo && s < |rows[index].structural|
    ensures !RangesOverlap(from, to, rows[index].structural[s].from, rows[index].structural[s].to)
  {
    assert LaidOutRow(rows, source, layoutFrom, n, index);
    var span := rows[index].structural[s];
    SpansNonEmpty(rows[index].cells, rows[index].from, rows[index].to, s);
    if RangesOverlap(from, to, span.from, span.to) {
      var p := Max(from, span.from);
      assert Within(p, span.from, span.to);
      CellMissesStructure(rows, source, layoutFrom, n, i, k, index, p);
    }
  }

  /** No row protects a nonempty range that lies in the drawn range of a cell of a data row. */
  lemma InsideCellIsFree(rows: seq<RowLayout>, source: seq<Row>, layoutFrom: int, n: nat, i: nat, k: nat, from: int, to: int, index: nat)
    requires LaidOut(rows, source, layoutFrom, n) && i < |rows| && k < |rows[i].cells| && index < |rows|
    requires rows[i].semanticIndex.Some? && rows[i].cells[k].renderFrom <= from < to <= rows[i].cells[k].renderTo
    ensures !TouchesRow(rows, index, from, to)
  {
    CellMissesStructure(rows, source, layoutFrom, n, i, k, index, from);
    CellMissesStructure(rows, source, layoutFrom, n, i, k, index, to - 1);
    assert LaidOutRow(rows, source, layoutFrom, n, index) && LaidOutRow(rows, source, layoutFrom, n, i);
    if i < index {
      RowsApart(rows, source, layoutFrom, n, i, index);
    } else if index < i {
      RowsApart(rows, source, layoutFrom, n, index, i);
    }
    forall s | 0 <= s < |rows[index].structural|
      ensures !RangesOverlap(from, to, rows[index].structural[s].from, rows[index].structural[s].to)
    {
      InsideCellMissesSpan(rows, source, layoutFrom, n, i, k, from, to, index, s);
    }
  }

  /** The range lies inside the drawn range of a single cell of a data row. */
  ghost predicate InOneCell(rows: seq<RowLayout>, from: int, to: int) {
    exists i, k :: InCell(rows, i, k, from, to)
  }

  predicate InCell(rows: seq<RowLayout>, i: int, k: int, from: int, to: int) {
    && 0 <= i < |rows| && rows[i].semanticIndex.Some? && 0 <= k < |rows[i].cells|
    && rows[i].cells[k].renderFrom <= from && to <= rows[i].cells[k].renderTo
  }

  /** Protection inside a table is exact: a nonempty range between the start of the table and the end of
      its last row is let through if and only if it lies inside one drawn cell and misses the terminator. */
  lemma ProtectionExact(rows: seq<RowLayout>, source: seq<Row>, layoutFrom: int, layoutTo: int, n: nat,
                        terminator: Option<Span>, from: int, to: int)
    requires LaidOut(rows, source, layoutFrom, n) && rows[|rows| - 1].to <= layoutTo
    requires layoutFrom <= from < to <= rows[|rows| - 1].to
    ensures SelectionTouches(layoutFrom, layoutTo, rows, terminator, from, to)
       <==> !InOneCell(rows, from, to)
            || (terminator.Some? && RangesOverlap(from, to, terminator.value.from, terminator.value.to))
  {
    if !SelectionTouches(layoutFrom, layoutTo, rows, terminator, from, to) {
      var i, k := LetThroughLiesInOneCell(rows, source, layoutFrom, layoutTo, n, terminator, from, to);
      assert InCell(rows, i, k, from, to);
    }
    if InOneCell(rows, from, to) {
      var i, k :| InCell(rows, i, k, from, to);
      forall index | 0 <= index < |rows| ensures !TouchesRow(rows, index, from, to) {
        InsideCellIsFree(rows, source, layoutFrom, n, i, k, from, to, index);
      }
    }
  }

  /** The line feed that ends the table source is protected by no row. */
  lemma FinalLineFeedNotProtected(rows: seq<RowLayout>, source: seq<Row>, layoutFrom: int, n: nat, index: nat)
    requires LaidOut(rows, source, layoutFrom, n) && index < |rows|
    ensures var end := rows[|rows| - 1].to; !TouchesRow(rows, index, end, end + 1)
  {
    var end := rows[|rows| - 1].to;
    var row := rows[index];
    assert LaidOutRow(rows, source, layoutFrom, n, index);
    if index < |rows| - 1 {
      RowsApart(rows, source, layoutFrom, n, index, |rows| - 1);
      if index + 1 < |rows| - 1 {
        RowsApart(rows, source, layoutFrom, n, index + 1, |rows| - 1);
        RowEndBounds(rows, source, layoutFrom, n, index + 1);
      }
    }
    LaidOutOrdered(source[index], row.from, row.to, row.semanticIndex, ContentFrom(rows, layoutFrom, index), n);
    forall s | 0 <= s < |row.structural| ensures !RangesOverlap(end, end + 1, row.structural[s].from, row.structural[s].to) {
      if RangesOverlap(end, end + 1, row.structural[s].from, row.structural[s].to) {
        assert Within(end, row.structural[s].from, row.structural[s].to);
        StructureInside(row.cells, row.from, row.to, end);
      }
    }
  }

  /** Where a row ends, and where the next one starts. */
  lemma {:induction false} RowsBeforeEnd(rows: seq<RowLayout>, source: seq<Row>, layoutFrom: int, n: nat, index: nat)
    requires LaidOut(rows, source, layoutFrom, n) && index < |rows|
    ensures var end := rows[|rows| - 1].to;
            rows[index].from < rows[index].to <= end && (index + 1 < |rows| ==> rows[index + 1].from < end)
  {
    var last := |rows| - 1;
    assert LaidOutRow(rows, source, layoutFrom, n, index);
    if index < last {
      RowsApart(rows, source, layoutFrom, n, index, last);
      assert LaidOutRow(rows, source, layoutFrom, n, index + 1);
      if index + 1 < last {
        RowsApart(rows, source, layoutFrom, n, index + 1, last);
      }
    }
  }

  lemma {:induction false} SpanBeforeEnd(rows: seq<RowLayout>, source: seq<Row>, layoutFrom: int, n: nat, index: nat, s: nat)
    requires LaidOut(rows, source, layoutFrom, n) && index < |rows| && s < |rows[index].structural|
    ensures var span := rows[index].structural[s]; span.from < span.to <= rows[|rows| - 1].to
  {
    var row := rows[index];
    assert LaidOutRow(rows, source, layoutFrom, n, index);
    RowsBeforeEnd(rows, source, layoutFrom, n, index);
    LaidOutOrdered(source[index], row.from, row.to, row.semanticIndex, ContentFrom(rows, layoutFrom, index), n);
    SpansNonEmpty(row.cells, row.from, row.to, s);
    assert Within(row.structural[s].to - 1, row.structural[s].from, row.structural[s].to);
    StructureInside(row.cells, row.from, row.to, row.structural[s].to - 1);
  }

  /** The final line feed adds nothing that a row protects. */
  lemma {:induction false} FinalLineFeedIgnored(rows: seq<RowLayout>, source: seq<Row>, layoutFrom: int, n: nat,
                                                index: nat, from: int, end: int, to: int)
    requires LaidOut(rows, source, layoutFrom, n) && index < |rows|
    requires end == rows[|rows| - 1].to && from < end && to == end + 1
    ensures TouchesRow(rows, index, from, to) <==> TouchesRow(rows, index, from, end)
  {
    var row := rows[index];
    assert LaidOutRow(rows, source, layoutFrom, n, index);
    RowsBeforeEnd(rows, source, layoutFrom, n, index);
    if s :| 0 <= s < |row.structural| && RangesOverlap(from, to, row.structural[s].from, row.structural[s].to) {
      SpanBeforeEnd(rows, source, layoutFrom, n, index, s);
      assert RangesOverlap(from, end, row.structural[s].from, row.structural[s].to);
    }
    if s :| 0 <= s < |row.structural| && RangesOverlap(from, end, row.structural[s].from, row.structural[s].to) {
      assert RangesOverlap(from, to, row.structural[s].from, row.structural[s].to);
    }
  }

  /** Apart from the final line feed, the range lies inside the drawn range of a single cell of a data row. */
  ghost predicate InOneCellUpToEnd(rows: seq<RowLayout>, from: int, to: int)
    requires rows != []
  {
    var end := rows[|rows| - 1].to;
    from >= end || InOneCell(rows, from, Min(to, end))
  }

  /** Protection is exact up to the end of the table source, also for ranges that take its final line feed. */
  lemma {:induction false} ProtectionExactToEnd(rows: seq<RowLayout>, source: seq<Row>, layoutFrom: int, layoutTo: int, n: nat,
                                                terminator: Option<Span>, from: int, to: int)
    requires LaidOut(rows, source, layoutFrom, n) && rows[|rows| - 1].to <= layoutTo <= rows[|rows| - 1].to + 1
    requires layoutFrom <= from < to <= layoutTo
    ensures SelectionTouches(layoutFrom, layoutTo, rows, terminator, from, to)
       <==> !InOneCellUpToEnd(rows, from, to)
            || (terminator.Some? && RangesOverlap(from, to, terminator.value.from, terminator.value.to))
  {
    var end := rows[|rows| - 1].to;
    if to <= end {
      ProtectionExact(rows, source, layoutFrom, layoutTo, n, terminator, from, to);
    } else if from == end {
      forall index | 0 <= index < |rows| ensures !TouchesRow(rows, index, from, to) {
        FinalLineFeedNotProtected(rows, source, layoutFrom, n, index);
      }
    } else {
      ProtectionExact(rows, source, layoutFrom, layoutTo, n, None, from, end);
      forall index | 0 <= index < |rows| ensures TouchesRow(rows, index, from, to) <==> TouchesRow(rows, index, from, end) {
        FinalLineFeedIgnored(rows, source, layoutFrom, n, index, from, end, to);
      }
    }
  }
}
