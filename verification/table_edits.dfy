/** The structural edits of a table. */
module TableEdits {
  import opened Seqs
  import opened Sequences
  import opened Text
  import opened MarkdownTable

  datatype Placement = Before | After
  datatype Direction = Ascending | Descending
  datatype Position = Position(row: int, column: int)
  datatype CellRange = CellRange(anchor: Position, head: Position)
  datatype Bounds = Bounds(minRow: int, maxRow: int, minColumn: int, maxColumn: int)
  datatype SelectionKind = WholeTable | WholeRows | WholeColumns | SomeCells

  // ---------------------------------------------------------------- cells

  function CanonicalCell(markdown: string): Cell {
    Cell(markdown, " ", " ")
  }

  function Repeated(c: char, n: nat): (s: string)
    ensures |s| == n && forall i :: 0 <= i < n ==> s[i] == c
  {
    seq(n, i => c)
  }

  function MinimumWidth(a: Alignment): nat {
    match a
    case Center => 5
    case Unaligned => 3
    case _ => 4
  }

  function Max(a: int, b: int): int {
    if a > b then a else b
  }

  function Min(a: int, b: int): int {
    if a < b then a else b
  }

  function DelimiterMarker(a: Alignment, width: nat): string {
    var safe: nat := Max(width, MinimumWidth(a));
    match a
    case Left => ":" + Repeated('-', safe - 1)
    case Center => ":" + Repeated('-', safe - 2) + ":"
    case Right => Repeated('-', safe - 1) + ":"
    case Unaligned => Repeated('-', safe)
  }

  function DelimiterCell(a: Alignment): Cell {
    CanonicalCell(DelimiterMarker(a, MinimumWidth(a)))
  }

  /** A short row is completed by filler cells. */
  function Padded(cells: seq<Cell>, columnCount: nat, filler: Cell): (r: seq<Cell>)
    ensures |r| == if |cells| < columnCount then columnCount else |cells|
  {
    if |cells| < columnCount then cells + seq(columnCount - |cells|, i => filler) else cells
  }

  /** The loop of padCells. */
  method PadCells(cells: seq<Cell>, columnCount: nat, filler: Cell) returns (padded: seq<Cell>)
    ensures padded == Padded(cells, columnCount, filler)
  {
    padded := cells;
    while |padded| < columnCount
      invariant |cells| <= |padded|
      invariant |cells| < columnCount ==> |padded| <= columnCount
      invariant |cells| >= columnCount ==> padded == cells
      invariant padded == cells + seq(|padded| - |cells|, i => filler)
    {
      padded := padded + [filler];
    }
  }

  // ---------------------------------------------------------------- rows

  function SetRows(t: Table, rows: seq<Row>): Table
    requires rows != []
  {
    t.(header := rows[0], body := rows[1..])
  }

  /** A new row in a list item does not repeat the list marker of the header. */
  function ContinuationPrefix(candidate: string, headerPrefix: string, delimiterPrefix: string): string {
    if candidate == headerPrefix && headerPrefix != delimiterPrefix then delimiterPrefix else candidate
  }

  function BlankCells(n: nat): seq<Cell> {
    seq(n, i => CanonicalCell(""))
  }

  function BlankRow(t: Table, style: Row): Row {
    Row(ContinuationPrefix(style.prefix, t.header.prefix, t.delimiter.prefix),
        style.leadingPipe, style.trailingPipe, "", BlankCells(t.columnCount))
  }

  function ClearRow(row: Row, columnCount: nat): Row {
    row.(cells := BlankCells(columnCount))
  }

  function InsertRows(t: Table, reference: int, placement: Placement, count: int): Table {
    if count <= 0 then t
    else
      var rows := SemanticRows(t);
      var at := if placement == Before then reference else reference + 1;
      var template := rows[Clamp(reference, 0, |rows| - 1)];
      SetRows(t, EditSeq(Insert(at, count), rows, BlankRow(t, template)))
  }

  function DuplicateRows(t: Table, selected: seq<int>): Table {
    SetRows(t, EditSeq(Duplicate(selected), SemanticRows(t), t.header))
  }

  function ClearRows(t: Table, selected: seq<int>): Table {
    var indices := Normalized(selected, 1 + |t.body|);
    var header := if 0 in indices then ClearRow(t.header, t.columnCount) else t.header;
    var body := seq(|t.body|, i requires 0 <= i < |t.body| =>
      if i + 1 in indices then ClearRow(t.body[i], t.columnCount) else t.body[i]);
    t.(header := header, body := body)
  }

  /** Refused when nothing would remain; a lone header row gets a blank body row. */
  function DeleteRows(t: Table, selected: seq<int>): Option<Table> {
    var remaining := EditSeq(Remove(selected), SemanticRows(t), t.header);
    if |remaining| < 1 then None
    else if |remaining| == 1 then Some(SetRows(t, remaining + [BlankRow(t, remaining[0])]))
    else Some(SetRows(t, remaining))
  }

  function MoveRows(t: Table, selected: seq<int>, gap: int): Table {
    var rows := SemanticRows(t);
    if Normalized(selected, |rows|) == [] then t
    else SetRows(t, EditSeq(Move(selected, gap), rows, t.header))
  }

  // ---------------------------------------------------------------- columns

  function EditCells(row: Row, e: AxisEdit, columnCount: nat, filler: Cell): Row {
    row.(cells := EditSeq(e, Padded(row.cells, columnCount, filler), filler))
  }

  /** The same edit on the cells of every row, on the delimiter row and on the alignments. */
  function RebuildColumns(t: Table, e: AxisEdit): Table {
    var blank, none := CanonicalCell(""), DelimiterCell(Unaligned);
    var alignments := EditSeq(e, t.alignments, Unaligned);
    t.(header := EditCells(t.header, e, t.columnCount, blank),
       delimiter := EditCells(t.delimiter, e, t.columnCount, none),
       body := seq(|t.body|, i requires 0 <= i < |t.body| => EditCells(t.body[i], e, t.columnCount, blank)),
       alignments := alignments,
       columnCount := |alignments|)
  }

  function InsertColumns(t: Table, reference: int, placement: Placement, count: int): Table {
    if count <= 0 then t
    else RebuildColumns(t, Insert(if placement == Before then reference else reference + 1, count))
  }

  function DuplicateColumns(t: Table, selected: seq<int>): Table {
    if Normalized(selected, t.columnCount) == [] then t else RebuildColumns(t, Duplicate(selected))
  }

  /** Refused when no column would remain. */
  function DeleteColumns(t: Table, selected: seq<int>): Option<Table> {
    if t.columnCount - |Normalized(selected, t.columnCount)| < 1 then None
    else Some(RebuildColumns(t, Remove(selected)))
  }

  function MoveColumns(t: Table, selected: seq<int>, gap: int): Table {
    if Normalized(selected, t.columnCount) == [] then t else RebuildColumns(t, Move(selected, gap))
  }

  /** The cells of a data row with those of the given columns emptied. */
  function ClearedCells(row: Row, columnCount: nat, columns: seq<nat>): seq<Cell> {
    var cells := Padded(row.cells, columnCount, CanonicalCell(""));
    seq(|cells|, j requires 0 <= j < |cells| => if j in columns then CanonicalCell("") else cells[j])
  }

  function ClearColumns(t: Table, selected: seq<int>): Table {
    var columns := Normalized(selected, t.columnCount);
    t.(header := t.header.(cells := ClearedCells(t.header, t.columnCount, columns)),
       body := seq(|t.body|, i requires 0 <= i < |t.body| =>
         t.body[i].(cells := ClearedCells(t.body[i], t.columnCount, columns))))
  }

  function SetAlignment(t: Table, selected: seq<int>, alignment: Alignment): Table {
    var columns := Normalized(selected, t.columnCount);
    var alignments := seq(t.columnCount, j requires 0 <= j =>
      if j in columns then alignment else if j < |t.alignments| then t.alignments[j] else Unaligned);
    var cells := Padded(t.delimiter.cells, t.columnCount, DelimiterCell(Unaligned));
    var marker := DelimiterMarker(alignment, MinimumWidth(alignment));
    t.(alignments := alignments,
       delimiter := t.delimiter.(cells := seq(|cells|, j requires 0 <= j < |cells| =>
         if j in columns then cells[j].(markdown := marker) else cells[j])))
  }

  // ---------------------------------------------------------------- sorting

  /** Locale collation: any function whose sign compares two texts. */
  type Collator = (string, string) -> int

  /** The comparison of two rows by their keys: empty keys come last in either direction,
      and ties keep the original order. */
  predicate SortsBefore(keys: seq<string>, direction: Direction, collator: Collator, i: nat, j: nat)
    requires i < |keys| && j < |keys|
  {
    if keys[i] == "" || keys[j] == "" then
      if |keys[i]| == |keys[j]| then i < j else keys[j] == ""
    else
      var compared := collator(keys[i], keys[j]);
      if compared == 0 then i < j
      else if direction == Ascending then compared < 0 else compared > 0
  }

  function InsertSorted(keys: seq<string>, direction: Direction, collator: Collator, order: seq<nat>, i: nat): (r: seq<nat>)
    requires i < |keys| && Below(order, |keys|)
    ensures |r| == |order| + 1 && Below(r, |keys|) && multiset(r) == multiset(order) + multiset{i}
  {
    if order == [] || SortsBefore(keys, direction, collator, i, order[0]) then [i] + order
    else
      Uncons(order);
      var rest := InsertSorted(keys, direction, collator, order[1..], i);
      [order[0]] + rest
  }

  /** The order in which sort puts the rows with the given keys. */
  function SortedOrder(keys: seq<string>, direction: Direction, collator: Collator, count: nat): (r: seq<nat>)
    requires count <= |keys|
    ensures |r| == count && Below(r, |keys|) && multiset(r) == multiset(Range(0, count))
  {
    if count == 0 then []
    else InsertSorted(keys, direction, collator, SortedOrder(keys, direction, collator, count - 1), count - 1)
  }

  function SortKey(row: Row, column: int): string {
    if 0 <= column < |row.cells| then Trim(row.cells[column].markdown) else ""
  }

  function SortKeys(rows: seq<Row>, column: int): (keys: seq<string>)
    ensures |keys| == |rows|
  {
    seq(|rows|, i requires 0 <= i < |rows| => SortKey(rows[i], column))
  }

  function SortBody(t: Table, column: int, direction: Direction, collator: Collator): Table {
    t.(body := Pick(t.body, SortedOrder(SortKeys(t.body, column), direction, collator, |t.body|)))
  }

  // ---------------------------------------------------------------- selections

  function SelectionBounds(rowCount: nat, columnCount: nat, selection: CellRange): Bounds {
    var anchorRow := Clamp(selection.anchor.row, 0, rowCount - 1);
    var headRow := Clamp(selection.head.row, 0, rowCount - 1);
    var anchorColumn := Clamp(selection.anchor.column, 0, columnCount - 1);
    var headColumn := Clamp(selection.head.column, 0, columnCount - 1);
    Bounds(Min(anchorRow, headRow), Max(anchorRow, headRow), Min(anchorColumn, headColumn), Max(anchorColumn, headColumn))
  }

  function Classify(rowCount: nat, columnCount: nat, b: Bounds): SelectionKind {
    var allRows := b.minRow == 0 && b.maxRow == rowCount - 1;
    var allColumns := b.minColumn == 0 && b.maxColumn == columnCount - 1;
    if allRows && allColumns then WholeTable
    else if allColumns then WholeRows
    else if allRows then WholeColumns
    else SomeCells
  }

  function Indices(low: int, high: int): seq<int> {
    if high < low then [] else seq(high - low + 1, i => low + i)
  }

  function ClearSelectedCells(row: Row, i: nat, columnCount: nat, b: Bounds): Row {
    if i < b.minRow || i > b.maxRow then row
    else
      var cells := Padded(row.cells, columnCount, CanonicalCell(""));
      row.(cells := seq(|cells|, j requires 0 <= j < |cells| =>
        if b.minColumn <= j <= b.maxColumn then CanonicalCell("") else cells[j]))
  }

  function ClearSelection(t: Table, selection: CellRange): Table {
    var rows := SemanticRows(t);
    var b := SelectionBounds(|rows|, t.columnCount, selection);
    SetRows(t, seq(|rows|, i requires 0 <= i < |rows| => ClearSelectedCells(rows[i], i, t.columnCount, b)))
  }

  /** Whole rows or columns are removed, other selections are emptied; a selection of everything
      asks for the removal of the table itself. */
  function DeleteSelection(t: Table, selection: CellRange): Option<Table> {
    var b := SelectionBounds(1 + |t.body|, t.columnCount, selection);
    match Classify(1 + |t.body|, t.columnCount, b)
    case WholeTable => None
    case WholeRows => Some(DeleteRows(t, Indices(b.minRow, b.maxRow)).GetOr(t))
    case WholeColumns => Some(DeleteColumns(t, Indices(b.minColumn, b.maxColumn)).GetOr(t))
    case SomeCells => Some(ClearSelection(t, selection))
  }

  // ---------------------------------------------------------------- all of them

  datatype Action =
    | InsertRowsAction(reference: int, placement: Placement, count: int)
    | DuplicateRowsAction(selected: seq<int>)
    | ClearRowsAction(selected: seq<int>)
    | DeleteRowsAction(selected: seq<int>)
    | MoveRowsAction(selected: seq<int>, gap: int)
    | InsertColumnsAction(reference: int, placement: Placement, count: int)
    | DuplicateColumnsAction(selected: seq<int>)
    | ClearColumnsAction(selected: seq<int>)
    | DeleteColumnsAction(selected: seq<int>)
    | MoveColumnsAction(selected: seq<int>, gap: int)
    | SetAlignmentAction(selected: seq<int>, alignment: Alignment)
    | SortAction(column: int, direction: Direction)
    | ClearSelectionAction(selection: CellRange)
    | DeleteSelectionAction(selection: CellRange)

  /** The edited table; nothing if the edit is refused. */
  function Perform(t: Table, a: Action, collator: Collator): Option<Table> {
    match a
    case InsertRowsAction(reference, placement, count) => Some(InsertRows(t, reference, placement, count))
    case DuplicateRowsAction(selected) => Some(DuplicateRows(t, selected))
    case ClearRowsAction(selected) => Some(ClearRows(t, selected))
    case DeleteRowsAction(selected) => DeleteRows(t, selected)
    case MoveRowsAction(selected, gap) => Some(MoveRows(t, selected, gap))
    case InsertColumnsAction(reference, placement, count) => Some(InsertColumns(t, reference, placement, count))
    case DuplicateColumnsAction(selected) => Some(DuplicateColumns(t, selected))
    case ClearColumnsAction(selected) => Some(ClearColumns(t, selected))
    case DeleteColumnsAction(selected) => DeleteColumns(t, selected)
    case MoveColumnsAction(selected, gap) => Some(MoveColumns(t, selected, gap))
    case SetAlignmentAction(selected, alignment) => Some(SetAlignment(t, selected, alignment))
    case SortAction(column, direction) => Some(SortBody(t, column, direction, collator))
    case ClearSelectionAction(selection) => Some(ClearSelection(t, selection))
    case DeleteSelectionAction(selection) => DeleteSelection(t, selection)
  }
}
