/** The structural edits seen from outside: on tables inside the language each edit is a simple
    operation on the grid of cell texts and the alignments, and the text it prints parses again. */
module TableLanguage {
  import opened Seqs
  import opened Sequences
  import opened Text
  import opened Containers
  import opened MarkdownTable
  import opened TableText
  import opened TableEdits

  /** What a reader of the document sees. */
  datatype View = View(grid: seq<seq<string>>, alignments: seq<Alignment>)

  function ViewOf(t: Table): View {
    View(Grid(t), t.alignments)
  }

  // ---------------------------------------------------------------- the edits on views

  function Blank(n: nat): (row: seq<string>)
    ensures |row| == n
  {
    seq(n, i => "")
  }

  function MapRows(grid: seq<seq<string>>, f: (nat, seq<string>) -> seq<string>): (r: seq<seq<string>>)
    ensures |r| == |grid|
  {
    seq(|grid|, i requires 0 <= i < |grid| => f(i, grid[i]))
  }

  function ActOnColumns(v: View, e: AxisEdit): View {
    View(MapRows(v.grid, (i, row) => EditSeq(e, row, "")), EditSeq(e, v.alignments, Unaligned))
  }

  function EmptyCells(row: seq<string>, columns: seq<nat>): seq<string> {
    seq(|row|, j requires 0 <= j < |row| => if j in columns then "" else row[j])
  }

  function EmptyBetween(row: seq<string>, low: int, high: int): seq<string> {
    seq(|row|, j requires 0 <= j < |row| => if low <= j <= high then "" else row[j])
  }

  function ActDeleteRows(v: View, selected: seq<int>): Option<View> {
    var remaining := EditSeq(Remove(selected), v.grid, []);
    if |remaining| < 1 then None
    else if |remaining| == 1 then Some(v.(grid := remaining + [Blank(|v.alignments|)]))
    else Some(v.(grid := remaining))
  }

  function ActDeleteColumns(v: View, selected: seq<int>): Option<View> {
    if |v.alignments| - |Normalized(selected, |v.alignments|)| < 1 then None
    else Some(ActOnColumns(v, Remove(selected)))
  }

  function ActClearSelection(v: View, selection: CellRange): View {
    var b := SelectionBounds(|v.grid|, |v.alignments|, selection);
    v.(grid := MapRows(v.grid, (i, row) =>
      if i < b.minRow || i > b.maxRow then row else EmptyBetween(row, b.minColumn, b.maxColumn)))
  }

  function ActDeleteSelection(v: View, selection: CellRange): Option<View> {
    var b := SelectionBounds(|v.grid|, |v.alignments|, selection);
    match Classify(|v.grid|, |v.alignments|, b)
    case WholeTable => None
    case WholeRows => Some(ActDeleteRows(v, Indices(b.minRow, b.maxRow)).GetOr(v))
    case WholeColumns => Some(ActDeleteColumns(v, Indices(b.minColumn, b.maxColumn)).GetOr(v))
    case SomeCells => Some(ActClearSelection(v, selection))
  }

  function TextKeys(rows: seq<seq<string>>, column: int): (keys: seq<string>)
    ensures |keys| == |rows|
  {
    seq(|rows|, i requires 0 <= i < |rows| => if 0 <= column < |rows[i]| then Trim(rows[i][column]) else "")
  }

  function ActSort(v: View, column: int, direction: Direction, collator: Collator): View {
    if v.grid == [] then v
    else
      var body := v.grid[1..];
      v.(grid := v.grid[..1] + Pick(body, SortedOrder(TextKeys(body, column), direction, collator, |body|)))
  }

  function ActInsertRows(v: View, reference: int, placement: Placement, count: int): View {
    if count <= 0 then v
    else v.(grid := EditSeq(Insert(if placement == Before then reference else reference + 1, count), v.grid, Blank(|v.alignments|)))
  }

  function ActOnRows(v: View, e: AxisEdit): View {
    v.(grid := EditSeq(e, v.grid, []))
  }

  function ActClearRows(v: View, selected: seq<int>): View {
    v.(grid := MapRows(v.grid, (i, row) => if i in Normalized(selected, |v.grid|) then Blank(|v.alignments|) else row))
  }

  function ActInsertColumns(v: View, reference: int, placement: Placement, count: int): View {
    if count <= 0 then v
    else ActOnColumns(v, Insert(if placement == Before then reference else reference + 1, count))
  }

  function ActClearColumns(v: View, selected: seq<int>): View {
    v.(grid := MapRows(v.grid, (i, row) => EmptyCells(row, Normalized(selected, |v.alignments|))))
  }

  function ActSetAlignment(v: View, selected: seq<int>, alignment: Alignment): View {
    var n := |v.alignments|;
    v.(alignments := seq(n, j requires 0 <= j < n => if j in Normalized(selected, n) then alignment else v.alignments[j]))
  }

  /** An edit as an operation on what the reader sees. */
  function Act(v: View, a: Action, collator: Collator): Option<View> {
    match a
    case InsertRowsAction(reference, placement, count) => Some(ActInsertRows(v, reference, placement, count))
    case DuplicateRowsAction(selected) => Some(ActOnRows(v, Duplicate(selected)))
    case ClearRowsAction(selected) => Some(ActClearRows(v, selected))
    case DeleteRowsAction(selected) => ActDeleteRows(v, selected)
    case MoveRowsAction(selected, gap) => Some(ActOnRows(v, Move(selected, gap)))
    case InsertColumnsAction(reference, placement, count) => Some(ActInsertColumns(v, reference, placement, count))
    case DuplicateColumnsAction(selected) => Some(ActOnColumns(v, Duplicate(selected)))
    case ClearColumnsAction(selected) => Some(ActClearColumns(v, selected))
    case DeleteColumnsAction(selected) => ActDeleteColumns(v, selected)
    case MoveColumnsAction(selected, gap) => Some(ActOnColumns(v, Move(selected, gap)))
    case SetAlignmentAction(selected, alignment) => Some(ActSetAlignment(v, selected, alignment))
    case SortAction(column, direction) => Some(ActSort(v, column, direction, collator))
    case ClearSelectionAction(selection) => Some(ActClearSelection(v, selection))
    case DeleteSelectionAction(selection) => ActDeleteSelection(v, selection)
  }

  // ---------------------------------------------------------------- good cells

  lemma BlankCellGood()
    ensures GoodCell(CanonicalCell("")) && Trimmed("") && OneLine(Raw(CanonicalCell("")))
  {
    PlainCellGood(" ", "", " ");
  }

  lemma MarkerSpells(a: Alignment, width: nat)
    ensures ParseAlignment(DelimiterMarker(a, width)) == Some(a)
    ensures Trimmed(DelimiterMarker(a, width)) && Plain(DelimiterMarker(a, width))
  {
    TrimOfTrimmed(DelimiterMarker(a, width));
  }

  /** Text without any character that has a meaning in a line of a table. */
  predicate Plain(s: string) {
    forall i :: 0 <= i < |s| ==> s[i] == '-' || s[i] == ':'
  }

  lemma PlainCellGood(before: string, s: string, after: string)
    requires Plain(s) && AllSpace(before) && AllSpace(after) && '\n' !in before && '\n' !in after
    ensures GoodCell(Cell(s, before, after))
    ensures OneLine(before) && OneLine(after) ==> OneLine(Raw(Cell(s, before, after)))
  {
    var raw := Raw(Cell(s, before, after));
    forall i | 0 <= i < |raw| ensures raw[i] != '|' && raw[i] != '\\' && raw[i] != '\n' {
      assert raw[i] == if i < |before| then before[i] else if i < |before| + |s| then s[i - |before|] else after[i - |before| - |s|];
    }
    OneLineConcat(before + s, after);
    OneLineConcat(before, s);
  }

  /** Changing only the text of a good cell to a delimiter marker. */
  lemma MarkedCellGood(c: Cell, a: Alignment, width: nat)
    requires GoodCell(c)
    ensures GoodCell(c.(markdown := DelimiterMarker(a, width)))
    ensures OneLine(Raw(c)) ==> OneLine(Raw(c.(markdown := DelimiterMarker(a, width))))
  {
    MarkerSpells(a, width);
    SubNewline(c.before, c.markdown, c.after);
    OneLineConcat(c.before + c.markdown, c.after);
    OneLineConcat(c.before, c.markdown);
    PlainCellGood(c.before, DelimiterMarker(a, width), c.after);
  }

  lemma SubNewline(a: string, b: string, c: string)
    requires '\n' !in a + b + c
    ensures '\n' !in a && '\n' !in b && '\n' !in c
  {
  }

  /** Cells that may stand in a tidy row with the given prefix. */
  predicate FitCell(c: Cell, prefix: string, exact: bool) {
    GoodCell(c) && (exact ==> Trimmed(c.markdown)) && (AllSpace(prefix) || OneLine(Raw(c)))
  }

  predicate FitCells(cells: seq<Cell>, prefix: string, exact: bool) {
    forall i :: 0 <= i < |cells| ==> FitCell(cells[i], prefix, exact)
  }

  lemma TidyRowCells(row: Row, n: nat, exact: bool)
    requires TidyRow(row, n, exact)
    ensures FitCells(row.cells, row.prefix, exact)
  {
  }

  /** New cells in a tidy row. */
  lemma WithCells(row: Row, n: nat, exact: bool, cells: seq<Cell>)
    requires TidyRow(row, n, exact) && cells != [] && FitCells(cells, row.prefix, exact)
    ensures TidyRow(row.(cells := cells), |cells|, exact)
  {
  }

  lemma FitBlank(prefix: string, exact: bool)
    ensures FitCell(CanonicalCell(""), prefix, exact)
  {
    BlankCellGood();
  }

  lemma FitMarker(prefix: string)
    ensures FitCell(DelimiterCell(Unaligned), prefix, true)
    ensures ParseAlignment(DelimiterCell(Unaligned).markdown) == Some(Unaligned)
  {
    MarkerSpells(Unaligned, 3);
    PlainCellGood(" ", DelimiterMarker(Unaligned, 3), " ");
  }

  // ---------------------------------------------------------------- row edits

  /** The grid of edited rows is the edited grid. */
  lemma GridOfEdit(e: AxisEdit, rows: seq<Row>, filler: Row, n: nat, texts: seq<string>)
    requires e.Insert? ==> RowTexts(filler, n) == texts
    ensures GridOf(EditSeq(e, rows, filler), n) == EditSeq(e, GridOf(rows, n), texts)
  {
    EditIsPlan(e, rows, filler);
    EditIsPlan(e, GridOf(rows, n), texts);
    var plan := Plan(e, |rows|);
    if !e.Insert? {
      PlanFresh(e, |rows|);
    }
    forall i | 0 <= i < |plan|
      ensures RowTexts(FromSlot(plan[i], rows, filler), n) == FromSlot(plan[i], GridOf(rows, n), texts)
    {
    }
  }

  /** Only insertions use the filler. */
  lemma PlanFresh(e: AxisEdit, n: nat)
    requires !e.Insert?
    ensures forall i :: 0 <= i < |Plan(e, n)| ==> Plan(e, n)[i].Keep? && Plan(e, n)[i].index < n
  {
    PlanMembers(e, n);
  }

  lemma PlanMembers(e: AxisEdit, n: nat)
    requires !e.Insert?
    ensures forall i :: 0 <= i < |Plan(e, n)| ==> Plan(e, n)[i] in Slots(n)
  {
    match e
    case Duplicate(selected) =>
    case Remove(selected) => WithoutMembers(Slots(n), Normalized(selected, n));
    case Move(selected, gap) =>
      WithoutMembers(Slots(n), Normalized(selected, n));
      MoveKeepsItems(Slots(n), Normalized(selected, n), gap);
      BagMembers(Plan(e, n), Slots(n));
  }

  lemma BagMembers<T>(a: seq<T>, b: seq<T>)
    requires multiset(a) == multiset(b)
    ensures forall i :: 0 <= i < |a| ==> a[i] in b
  {
    forall i | 0 <= i < |a| ensures a[i] in b {
      assert a[i] in multiset(a);
    }
  }

  lemma {:induction false} WithoutMembers<T>(s: seq<T>, drop: seq<nat>)
    ensures forall i :: 0 <= i < |Without(s, drop)| ==> Without(s, drop)[i] in s
  {
    if s != [] {
      WithoutMembers(s[..|s| - 1], drop);
    }
  }

  lemma EditedRowsTidy(e: AxisEdit, rows: seq<Row>, filler: Row, n: nat, exact: bool)
    requires TidyRows(rows, n, exact) && (e.Insert? ==> TidyRow(filler, n, exact))
    ensures TidyRows(EditSeq(e, rows, filler), n, exact)
  {
    EditIsPlan(e, rows, filler);
    var plan := Plan(e, |rows|);
    if !e.Insert? {
      PlanFresh(e, |rows|);
    }
    forall i | 0 <= i < |plan| ensures TidyRow(FromSlot(plan[i], rows, filler), n, exact) {
    }
  }

  /** Replacing header and body by tidy rows. */
  lemma WithRows(t: Table, rows: seq<Row>, exact: bool)
    requires Tidy(t, exact) && rows != [] && TidyRows(rows, t.columnCount, exact)
    ensures Tidy(SetRows(t, rows), exact)
    ensures Grid(SetRows(t, rows)) == GridOf(rows, t.columnCount)
    ensures SetRows(t, rows).alignments == t.alignments && SetRows(t, rows).delimiter == t.delimiter
  {
    Uncons(rows);
    assert SemanticRows(SetRows(t, rows)) == rows;
  }

  lemma BlankCellsFit(n: nat, prefix: string, exact: bool)
    ensures FitCells(BlankCells(n), prefix, exact)
  {
    FitBlank(prefix, exact);
  }

  lemma BlankRowTidy(t: Table, style: Row, exact: bool)
    requires Tidy(t, exact) && TidyRow(style, t.columnCount, exact)
    ensures TidyRow(BlankRow(t, style), t.columnCount, exact)
    ensures RowTexts(BlankRow(t, style), t.columnCount) == Blank(t.columnCount)
  {
    var row := BlankRow(t, style);
    BlankCellsFit(t.columnCount, row.prefix, exact);
    assert TidyRow(t.delimiter, t.columnCount, true);
    var host := if row.prefix == style.prefix then style else t.delimiter;
    WithCells(host.(suffix := ""), t.columnCount, false, BlankCells(t.columnCount));
  }

  lemma ClearRowTidy(row: Row, n: nat, exact: bool)
    requires TidyRow(row, n, exact)
    ensures TidyRow(ClearRow(row, n), n, exact)
    ensures RowTexts(ClearRow(row, n), n) == Blank(n)
  {
    BlankCellsFit(n, row.prefix, exact);
    WithCells(row, n, exact, BlankCells(n));
  }

  /** The claim for one edit: it keeps the table inside the language and acts on the view as stated. */
  predicate Refines(t: Table, result: Option<Table>, view: Option<View>, exact: bool) {
    && (result.Some? <==> view.Some?)
    && (result.Some? ==> Tidy(result.value, exact) && ViewOf(result.value) == view.value)
  }

  lemma InsertRowsTidy(t: Table, reference: int, placement: Placement, count: int)
    requires Tidy(t, true)
    ensures Tidy(InsertRows(t, reference, placement, count), true)
  {
    if count > 0 {
      var rows := SemanticRows(t);
      var at := if placement == Before then reference else reference + 1;
      var blank := BlankRow(t, rows[Clamp(reference, 0, |rows| - 1)]);
      BlankRowTidy(t, rows[Clamp(reference, 0, |rows| - 1)], true);
      EditedRowsTidy(Insert(at, count), rows, blank, t.columnCount, true);
      WithRows(t, EditSeq(Insert(at, count), rows, blank), true);
    }
  }

  lemma InsertRowsRefines(t: Table, reference: int, placement: Placement, count: int)
    requires Tidy(t, true)
    ensures Refines(t, Some(InsertRows(t, reference, placement, count)),
                    Some(ActInsertRows(ViewOf(t), reference, placement, count)), true)
  {
    InsertRowsTidy(t, reference, placement, count);
    if count > 0 {
      var rows := SemanticRows(t);
      var at := if placement == Before then reference else reference + 1;
      var blank := BlankRow(t, rows[Clamp(reference, 0, |rows| - 1)]);
      BlankRowTidy(t, rows[Clamp(reference, 0, |rows| - 1)], true);
      GridOfEdit(Insert(at, count), rows, blank, t.columnCount, Blank(t.columnCount));
      EditedRowsTidy(Insert(at, count), rows, blank, t.columnCount, true);
      WithRows(t, EditSeq(Insert(at, count), rows, blank), true);
    }
  }

  /** Duplicating, removing or moving rows. */
  lemma KeepRowsRefines(t: Table, e: AxisEdit, exact: bool)
    requires Tidy(t, exact) && !e.Insert?
    ensures var rows := EditSeq(e, SemanticRows(t), t.header);
            && TidyRows(rows, t.columnCount, exact)
            && GridOf(rows, t.columnCount) == EditSeq(e, Grid(t), [])
            && (rows != [] ==> Tidy(SetRows(t, rows), exact) && Grid(SetRows(t, rows)) == EditSeq(e, Grid(t), []))
  {
    var rows := EditSeq(e, SemanticRows(t), t.header);
    GridOfEdit(e, SemanticRows(t), t.header, t.columnCount, []);
    EditedRowsTidy(e, SemanticRows(t), t.header, t.columnCount, exact);
    if rows != [] {
      WithRows(t, rows, exact);
    }
  }

  lemma DuplicateRowsRefines(t: Table, selected: seq<int>)
    requires Tidy(t, true)
    ensures Refines(t, Some(DuplicateRows(t, selected)), Some(ActOnRows(ViewOf(t), Duplicate(selected))), true)
  {
    KeepRowsRefines(t, Duplicate(selected), true);
  }

  lemma MoveRowsRefines(t: Table, selected: seq<int>, gap: int)
    requires Tidy(t, true)
    ensures Refines(t, Some(MoveRows(t, selected, gap)), Some(ActOnRows(ViewOf(t), Move(selected, gap))), true)
  {
    if Normalized(selected, |SemanticRows(t)|) == [] {
      MoveNothing(Grid(t), gap);
    } else {
      KeepRowsRefines(t, Move(selected, gap), true);
    }
  }

  lemma MoveNothing<T>(s: seq<T>, gap: int)
    ensures MoveItems(s, [], gap) == s
  {
    WithoutNothing(s);
  }

  lemma {:induction false} WithoutNothing<T>(s: seq<T>)
    ensures Without(s, []) == s
  {
    if s != [] {
      WithoutNothing(s[..|s| - 1]);
    }
  }

  lemma DeleteRowsRefines(t: Table, selected: seq<int>)
    requires Tidy(t, true)
    ensures Refines(t, DeleteRows(t, selected), ActDeleteRows(ViewOf(t), selected), true)
  {
    KeepRowsRefines(t, Remove(selected), true);
    var remaining := EditSeq(Remove(selected), SemanticRows(t), t.header);
    if |remaining| == 1 {
      BlankRowTidy(t, remaining[0], true);
      var rows := remaining + [BlankRow(t, remaining[0])];
      WithRows(t, rows, true);
      assert GridOf(rows, t.columnCount) == GridOf(remaining, t.columnCount) + [Blank(t.columnCount)];
    }
  }

  lemma ClearedRow(t: Table, indices: seq<nat>, i: nat)
    requires Tidy(t, true) && i < |SemanticRows(t)|
    ensures var row := if i in indices then ClearRow(SemanticRows(t)[i], t.columnCount) else SemanticRows(t)[i];
            && TidyRow(row, t.columnCount, true)
            && RowTexts(row, t.columnCount) == if i in indices then Blank(t.columnCount) else Grid(t)[i]
  {
    ClearRowTidy(SemanticRows(t)[i], t.columnCount, true);
  }

  /** The rows of a table with some rows emptied. */
  function ClearedRows(t: Table, indices: seq<nat>): (rows: seq<Row>)
    ensures |rows| == |SemanticRows(t)|
  {
    var rows := SemanticRows(t);
    seq(|rows|, i requires 0 <= i < |rows| => if i in indices then ClearRow(rows[i], t.columnCount) else rows[i])
  }

  lemma ClearedRowsFacts(t: Table, indices: seq<nat>)
    requires Tidy(t, true)
    ensures TidyRows(ClearedRows(t, indices), t.columnCount, true)
    ensures forall i :: 0 <= i < |SemanticRows(t)| ==>
      RowTexts(ClearedRows(t, indices)[i], t.columnCount) == if i in indices then Blank(t.columnCount) else Grid(t)[i]
  {
    forall i | 0 <= i < |SemanticRows(t)|
      ensures TidyRow(ClearedRows(t, indices)[i], t.columnCount, true)
      ensures RowTexts(ClearedRows(t, indices)[i], t.columnCount) == if i in indices then Blank(t.columnCount) else Grid(t)[i]
    {
      ClearedRow(t, indices, i);
    }
  }

  lemma ClearedGrid(t: Table, selected: seq<int>)
    requires Tidy(t, true)
    ensures GridOf(ClearedRows(t, Normalized(selected, |SemanticRows(t)|)), t.columnCount) == ActClearRows(ViewOf(t), selected).grid
  {
    ClearedRowsFacts(t, Normalized(selected, |SemanticRows(t)|));
  }

  lemma ClearRowsRefines(t: Table, selected: seq<int>)
    requires Tidy(t, true)
    ensures Refines(t, Some(ClearRows(t, selected)), Some(ActClearRows(ViewOf(t), selected)), true)
  {
    var cleared := ClearedRows(t, Normalized(selected, |SemanticRows(t)|));
    assert ClearRows(t, selected) == SetRows(t, cleared);
    ClearedRowsFacts(t, Normalized(selected, |SemanticRows(t)|));
    WithRows(t, cleared, true);
    ClearedGrid(t, selected);
  }

  // ---------------------------------------------------------------- column edits

  lemma EditedCellsFit(e: AxisEdit, cells: seq<Cell>, filler: Cell, prefix: string, exact: bool)
    requires FitCells(cells, prefix, exact) && FitCell(filler, prefix, exact)
    ensures FitCells(EditSeq(e, cells, filler), prefix, exact)
  {
    EditMembers(e, cells, filler);
  }

  lemma EditedTexts(e: AxisEdit, row: Row, n: nat, filler: Cell)
    requires |row.cells| == n && filler.markdown == ""
    ensures var edited := EditCells(row, e, n, filler);
            RowTexts(edited, |edited.cells|) == EditSeq(e, RowTexts(row, n), "")
  {
    var cells := EditSeq(e, row.cells, filler);
    var texts := RowTexts(row, n);
    EditIsPlan(e, row.cells, filler);
    EditIsPlan(e, texts, "");
    var plan := Plan(e, n);
    forall i | 0 <= i < |plan| ensures FromSlot(plan[i], row.cells, filler).markdown == FromSlot(plan[i], texts, "") {
    }
  }

  lemma EditedRowTidy(e: AxisEdit, row: Row, n: nat, filler: Cell, exact: bool, m: nat)
    requires TidyRow(row, n, exact) && FitCell(filler, row.prefix, exact)
    requires |EditSeq(e, row.cells, filler)| == m > 0
    ensures TidyRow(EditCells(row, e, n, filler), m, exact)
  {
    EditedCellsFit(e, row.cells, filler, row.prefix, exact);
    WithCells(row, n, exact, EditSeq(e, row.cells, filler));
  }

  /** The delimiter row and the alignments stay in step. */
  lemma EditedAlignments(e: AxisEdit, cells: seq<Cell>, alignments: seq<Alignment>, filler: Cell)
    requires SpellsAlignments(cells, alignments) && ParseAlignment(filler.markdown) == Some(Unaligned)
    ensures SpellsAlignments(EditSeq(e, cells, filler), EditSeq(e, alignments, Unaligned))
  {
    EditIsPlan(e, cells, filler);
    EditIsPlan(e, alignments, Unaligned);
    var plan := Plan(e, |cells|);
    forall i | 0 <= i < |plan|
      ensures ParseAlignment(FromSlot(plan[i], cells, filler).markdown) == Some(FromSlot(plan[i], alignments, Unaligned))
    {
    }
  }

  /** One row of a table whose columns were edited. */
  lemma EditedRow(row: Row, e: AxisEdit, n: nat, m: nat, texts: seq<string>, exact: bool)
    requires TidyRow(row, n, exact) && texts == RowTexts(row, n)
    requires m > 0 && |EditSeq(e, row.cells, CanonicalCell(""))| == m
    ensures var edited := EditCells(row, e, n, CanonicalCell(""));
            TidyRow(edited, m, exact) && RowTexts(edited, m) == EditSeq(e, texts, "")
  {
    FitBlank(row.prefix, exact);
    EditedRowTidy(e, row, n, CanonicalCell(""), exact, m);
    EditedTexts(e, row, n, CanonicalCell(""));
  }

  lemma RebuiltRowIs(t: Table, e: AxisEdit, i: nat)
    requires i < |SemanticRows(t)|
    ensures |SemanticRows(RebuildColumns(t, e))| == |SemanticRows(t)|
    ensures SemanticRows(RebuildColumns(t, e))[i] == EditCells(SemanticRows(t)[i], e, t.columnCount, CanonicalCell(""))
  {
  }

  lemma RebuiltRow(t: Table, e: AxisEdit, i: nat, exact: bool)
    requires Tidy(t, exact) && i < |SemanticRows(t)| && |EditSeq(e, t.alignments, Unaligned)| > 0
    ensures var m := |EditSeq(e, t.alignments, Unaligned)|;
            var row := SemanticRows(RebuildColumns(t, e))[i];
            && TidyRow(row, m, exact)
            && RowTexts(row, m) == EditSeq(e, Grid(t)[i], "")
  {
    var row := SemanticRows(t)[i];
    assert TidyRow(row, t.columnCount, exact);
    RebuiltRowIs(t, e, i);
    EditLength(e, row.cells, t.alignments, CanonicalCell(""), Unaligned);
    EditedRow(row, e, t.columnCount, |EditSeq(e, t.alignments, Unaligned)|, Grid(t)[i], exact);
  }

  lemma RebuiltDelimiter(t: Table, e: AxisEdit, exact: bool)
    requires Tidy(t, exact) && |EditSeq(e, t.alignments, Unaligned)| > 0
    ensures var r := RebuildColumns(t, e);
            TidyRow(r.delimiter, r.columnCount, true) && SpellsAlignments(r.delimiter.cells, r.alignments)
  {
    var none := DelimiterCell(Unaligned);
    FitMarker(t.delimiter.prefix);
    EditLength(e, t.delimiter.cells, t.alignments, none, Unaligned);
    EditedRowTidy(e, t.delimiter, t.columnCount, none, true, |EditSeq(e, t.alignments, Unaligned)|);
    EditedAlignments(e, t.delimiter.cells, t.alignments, none);
  }

  lemma RebuildRefines(t: Table, e: AxisEdit, exact: bool)
    requires Tidy(t, exact) && |EditSeq(e, t.alignments, Unaligned)| > 0
    ensures Refines(t, Some(RebuildColumns(t, e)), Some(ActOnColumns(ViewOf(t), e)), exact)
  {
    var r := RebuildColumns(t, e);
    forall i | 0 <= i < |SemanticRows(t)|
      ensures TidyRow(SemanticRows(r)[i], r.columnCount, exact)
      ensures Grid(r)[i] == EditSeq(e, Grid(t)[i], "")
    {
      RebuiltRow(t, e, i, exact);
    }
    RebuiltDelimiter(t, e, exact);
    assert Grid(r) == MapRows(Grid(t), (i, row) => EditSeq(e, row, ""));
  }

  lemma GrowingEdit(e: AxisEdit, s: seq<Alignment>)
    requires s != [] && !e.Remove?
    ensures |EditSeq(e, s, Unaligned)| > 0
  {
  }

  lemma InsertColumnsRefines(t: Table, reference: int, placement: Placement, count: int)
    requires Tidy(t, true)
    ensures Refines(t, Some(InsertColumns(t, reference, placement, count)),
                    Some(ActInsertColumns(ViewOf(t), reference, placement, count)), true)
  {
    if count > 0 {
      var e := Insert(if placement == Before then reference else reference + 1, count);
      GrowingEdit(e, t.alignments);
      RebuildRefines(t, e, true);
    }
  }

  /** An edit that changes no row changes nothing. */
  lemma NothingSelected(t: Table, e: AxisEdit)
    requires Tidy(t, true) && (e.Duplicate? || e.Move?) && Normalized(e.selected, t.columnCount) == []
    ensures ActOnColumns(ViewOf(t), e) == ViewOf(t)
  {
    forall i | 0 <= i < |Grid(t)| ensures EditSeq(e, Grid(t)[i], "") == Grid(t)[i] {
      if e.Move? {
        MoveNothing(Grid(t)[i], e.gap);
      }
    }
    if e.Move? {
      MoveNothing(t.alignments, e.gap);
    }
  }

  lemma SelectedColumnsRefine(t: Table, e: AxisEdit)
    requires Tidy(t, true) && (e.Duplicate? || e.Move?)
    ensures Refines(t, Some(if Normalized(e.selected, t.columnCount) == [] then t else RebuildColumns(t, e)),
                    Some(ActOnColumns(ViewOf(t), e)), true)
  {
    if Normalized(e.selected, t.columnCount) == [] {
      NothingSelected(t, e);
    } else {
      GrowingEdit(e, t.alignments);
      RebuildRefines(t, e, true);
    }
  }

  lemma DeleteColumnsRefines(t: Table, selected: seq<int>)
    requires Tidy(t, true)
    ensures Refines(t, DeleteColumns(t, selected), ActDeleteColumns(ViewOf(t), selected), true)
  {
    var indices := Normalized(selected, t.columnCount);
    if t.columnCount - |indices| >= 1 {
      WithoutLength(t.alignments, indices);
      RebuildRefines(t, Remove(selected), true);
    }
  }

  /** Emptying some cells of a tidy row. */
  lemma EmptiedRow(row: Row, n: nat, exact: bool, cells: seq<Cell>)
    requires TidyRow(row, n, exact) && |cells| == n
    requires forall j :: 0 <= j < n ==> cells[j] == row.cells[j] || cells[j] == CanonicalCell("")
    ensures TidyRow(row.(cells := cells), n, exact)
  {
    FitBlank(row.prefix, exact);
    TidyRowCells(row, n, exact);
    WithCells(row, n, exact, cells);
  }

  lemma {:induction false} ClearedColumns(t: Table, selected: seq<int>, i: nat)
    requires Tidy(t, true) && i < |SemanticRows(t)|
    ensures var r := ClearColumns(t, selected); var columns := Normalized(selected, t.columnCount);
            && |SemanticRows(r)| == |SemanticRows(t)| && r.columnCount == t.columnCount
            && TidyRow(SemanticRows(r)[i], t.columnCount, true)
            && RowTexts(SemanticRows(r)[i], t.columnCount) == EmptyCells(Grid(t)[i], columns)
  {
    var columns := Normalized(selected, t.columnCount);
    var row := SemanticRows(t)[i];
    assert TidyRow(row, t.columnCount, true);
    EmptiedRow(row, t.columnCount, true, ClearedCells(row, t.columnCount, columns));
  }

  lemma ClearColumnsRefines(t: Table, selected: seq<int>)
    requires Tidy(t, true)
    ensures Refines(t, Some(ClearColumns(t, selected)), Some(ActClearColumns(ViewOf(t), selected)), true)
  {
    var r := ClearColumns(t, selected);
    forall i | 0 <= i < |SemanticRows(t)|
      ensures TidyRow(SemanticRows(r)[i], t.columnCount, true)
      ensures Grid(r)[i] == ActClearColumns(ViewOf(t), selected).grid[i]
    {
      ClearedColumns(t, selected, i);
    }
    assert Grid(r) == ActClearColumns(ViewOf(t), selected).grid;
  }

  lemma SetAlignmentRefines(t: Table, selected: seq<int>, alignment: Alignment)
    requires Tidy(t, true)
    ensures Refines(t, Some(SetAlignment(t, selected, alignment)),
                    Some(ActSetAlignment(ViewOf(t), selected, alignment)), true)
  {
    var r := SetAlignment(t, selected, alignment);
    var cells := r.delimiter.cells;
    forall j | 0 <= j < |cells|
      ensures FitCell(cells[j], t.delimiter.prefix, true)
      ensures ParseAlignment(cells[j].markdown) == Some(r.alignments[j])
    {
      var c := t.delimiter.cells[j];
      assert FitCell(c, t.delimiter.prefix, true);
      MarkedCellGood(c, alignment, MinimumWidth(alignment));
      MarkerSpells(alignment, MinimumWidth(alignment));
    }
    WithCells(t.delimiter, t.columnCount, true, cells);
    assert SemanticRows(r) == SemanticRows(t);
  }

  // ---------------------------------------------------------------- sorting and selections

  lemma SortKeysAgree(rows: seq<Row>, n: nat, column: int)
    requires forall i :: 0 <= i < |rows| ==> |rows[i].cells| == n
    ensures SortKeys(rows, column) == TextKeys(GridOf(rows, n), column)
  {
  }

  lemma PickGrid(rows: seq<Row>, order: seq<nat>, n: nat)
    requires Below(order, |rows|)
    ensures GridOf(Pick(rows, order), n) == Pick(GridOf(rows, n), order)
  {
  }

  lemma PickTidy(rows: seq<Row>, order: seq<nat>, n: nat, exact: bool)
    requires Below(order, |rows|) && TidyRows(rows, n, exact)
    ensures TidyRows(Pick(rows, order), n, exact)
  {
  }

  /** Sorting rows and sorting what they show is the same. */
  lemma SortedView(t: Table, column: int, direction: Direction, collator: Collator)
    requires Tidy(t, true)
    ensures ViewOf(SortBody(t, column, direction, collator)) == ActSort(ViewOf(t), column, direction, collator)
  {
    var n := t.columnCount;
    assert forall i :: 0 <= i < |t.body| ==> t.body[i] == SemanticRows(t)[i + 1];
    SortKeysAgree(t.body, n, column);
    var order := SortedOrder(SortKeys(t.body, column), direction, collator, |t.body|);
    GridCons(t.header, t.body, n);
    CutConcat([RowTexts(t.header, n)], GridOf(t.body, n));
    PickGrid(t.body, order, n);
    GridCons(t.header, Pick(t.body, order), n);
  }

  lemma SortRefines(t: Table, column: int, direction: Direction, collator: Collator)
    requires Tidy(t, true)
    ensures Refines(t, Some(SortBody(t, column, direction, collator)),
                    Some(ActSort(ViewOf(t), column, direction, collator)), true)
  {
    var order := SortedOrder(SortKeys(t.body, column), direction, collator, |t.body|);
    assert forall i :: 0 <= i < |t.body| ==> t.body[i] == SemanticRows(t)[i + 1];
    PickTidy(t.body, order, t.columnCount, true);
    HeaderAndBodyTidy(t, Pick(t.body, order));
    SortedView(t, column, direction, collator);
  }

  lemma GridCons(header: Row, body: seq<Row>, n: nat)
    ensures GridOf([header] + body, n) == [RowTexts(header, n)] + GridOf(body, n)
  {
  }

  lemma HeaderAndBodyTidy(t: Table, body: seq<Row>)
    requires Tidy(t, true) && TidyRows(body, t.columnCount, true)
    ensures Tidy(t.(body := body), true)
  {
    assert SemanticRows(t)[0] == t.header;
  }

  lemma ClearSelectionRefines(t: Table, selection: CellRange)
    requires Tidy(t, true)
    ensures Refines(t, Some(ClearSelection(t, selection)), Some(ActClearSelection(ViewOf(t), selection)), true)
  {
    var rows := SemanticRows(t);
    var b := SelectionBounds(|rows|, t.columnCount, selection);
    var cleared := seq(|rows|, i requires 0 <= i < |rows| => ClearSelectedCells(rows[i], i, t.columnCount, b));
    forall i | 0 <= i < |rows|
      ensures TidyRow(cleared[i], t.columnCount, true)
      ensures RowTexts(cleared[i], t.columnCount)
           == if i < b.minRow || i > b.maxRow then Grid(t)[i] else EmptyBetween(Grid(t)[i], b.minColumn, b.maxColumn)
    {
      assert TidyRow(rows[i], t.columnCount, true);
      if !(i < b.minRow || i > b.maxRow) {
        EmptiedRow(rows[i], t.columnCount, true, cleared[i].cells);
      }
    }
    WithRows(t, cleared, true);
    assert ActClearSelection(ViewOf(t), selection).grid == GridOf(cleared, t.columnCount);
  }

  lemma DeleteSelectionRefines(t: Table, selection: CellRange)
    requires Tidy(t, true)
    ensures Refines(t, DeleteSelection(t, selection), ActDeleteSelection(ViewOf(t), selection), true)
  {
    var b := SelectionBounds(|Grid(t)|, t.columnCount, selection);
    match Classify(|Grid(t)|, t.columnCount, b)
    case WholeTable =>
    case WholeRows => DeleteRowsRefines(t, Indices(b.minRow, b.maxRow));
    case WholeColumns => DeleteColumnsRefines(t, Indices(b.minColumn, b.maxColumn));
    case SomeCells => ClearSelectionRefines(t, selection);
  }

  /** Every edit keeps a tidy table tidy and acts on cell texts and alignments as the simple
      operation on views says; it is refused exactly when the simple operation is. */
  lemma PerformRefinesAct(t: Table, a: Action, collator: Collator)
    requires Tidy(t, true)
    ensures Refines(t, Perform(t, a, collator), Act(ViewOf(t), a, collator), true)
  {
    match a
    case InsertRowsAction(reference, placement, count) => InsertRowsRefines(t, reference, placement, count);
    case DuplicateRowsAction(selected) => DuplicateRowsRefines(t, selected);
    case ClearRowsAction(selected) => ClearRowsRefines(t, selected);
    case DeleteRowsAction(selected) => DeleteRowsRefines(t, selected);
    case MoveRowsAction(selected, gap) => MoveRowsRefines(t, selected, gap);
    case InsertColumnsAction(reference, placement, count) => InsertColumnsRefines(t, reference, placement, count);
    case DuplicateColumnsAction(selected) => SelectedColumnsRefine(t, Duplicate(selected));
    case ClearColumnsAction(selected) => ClearColumnsRefines(t, selected);
    case DeleteColumnsAction(selected) => DeleteColumnsRefines(t, selected);
    case MoveColumnsAction(selected, gap) => SelectedColumnsRefine(t, Move(selected, gap));
    case SetAlignmentAction(selected, alignment) => SetAlignmentRefines(t, selected, alignment);
    case SortAction(column, direction) => SortRefines(t, column, direction, collator);
    case ClearSelectionAction(selection) => ClearSelectionRefines(t, selection);
    case DeleteSelectionAction(selection) => DeleteSelectionRefines(t, selection);
  }
}
