/** Tables outside of block quotes and list items: sessions need no condition at all. */
module PlainSessions {
  import opened Sequences
  import opened Text
  import opened MarkdownTable
  import opened TableText
  import opened TableEdits
  import opened TableLanguage
  import opened TableFormat
  import opened Paste
  import opened DocumentRuns

  predicate SpacedRows(rows: seq<Row>) {
    forall i :: 0 <= i < |rows| ==> AllSpace(rows[i].prefix)
  }

  /** Only white space stands before the rows. */
  predicate Spaced(t: Table) {
    AllSpace(t.delimiter.prefix) && SpacedRows(SemanticRows(t))
  }

  // ---------------------------------------------------------------- the edits take their prefixes from the table

  lemma WithSpacedRows(t: Table, rows: seq<Row>)
    requires Spaced(t) && rows != [] && SpacedRows(rows)
    ensures Spaced(SetRows(t, rows))
  {
    assert SemanticRows(SetRows(t, rows)) == rows;
  }

  lemma EditedSpaced(e: AxisEdit, rows: seq<Row>, filler: Row)
    requires SpacedRows(rows) && AllSpace(filler.prefix)
    ensures SpacedRows(EditSeq(e, rows, filler))
  {
    EditMembers(e, rows, filler);
  }

  lemma BlankRowSpaced(t: Table, style: Row)
    requires Spaced(t) && AllSpace(style.prefix)
    ensures AllSpace(BlankRow(t, style).prefix)
  {
  }

  lemma {:induction false} InsertRowsSpaced(t: Table, reference: int, placement: Placement, count: int)
    requires Spaced(t)
    ensures Spaced(InsertRows(t, reference, placement, count))
  {
    if count > 0 {
      var rows := SemanticRows(t);
      var style := rows[Clamp(reference, 0, |rows| - 1)];
      var e := Insert(if placement == Before then reference else reference + 1, count);
      BlankRowSpaced(t, style);
      EditedSpaced(e, rows, BlankRow(t, style));
      EditLength(Insert(0, 0), rows, rows, t.header, t.header);
      WithSpacedRows(t, EditSeq(e, rows, BlankRow(t, style)));
    }
  }

  lemma {:induction false} KeptRowsSpaced(t: Table, e: AxisEdit)
    requires Spaced(t) && EditSeq(e, SemanticRows(t), t.header) != []
    ensures Spaced(SetRows(t, EditSeq(e, SemanticRows(t), t.header)))
  {
    assert SemanticRows(t)[0] == t.header;
    EditedSpaced(e, SemanticRows(t), t.header);
    WithSpacedRows(t, EditSeq(e, SemanticRows(t), t.header));
  }

  lemma {:induction false} DeleteRowsSpaced(t: Table, selected: seq<int>)
    requires Spaced(t) && DeleteRows(t, selected).Some?
    ensures Spaced(DeleteRows(t, selected).value)
  {
    var remaining := EditSeq(Remove(selected), SemanticRows(t), t.header);
    assert |remaining| >= 1 && SemanticRows(t)[0] == t.header;
    KeptRowsSpaced(t, Remove(selected));
    if |remaining| == 1 {
      EditedSpaced(Remove(selected), SemanticRows(t), t.header);
      BlankRowSpaced(t, remaining[0]);
      WithSpacedRows(t, remaining + [BlankRow(t, remaining[0])]);
    }
  }

  /** Each row keeps its own prefix. */
  predicate SamePrefixes(t: Table, u: Table) {
    && u.delimiter.prefix == t.delimiter.prefix && |u.body| == |t.body|
    && forall i :: 0 <= i < |SemanticRows(t)| ==> SemanticRows(u)[i].prefix == SemanticRows(t)[i].prefix
  }

  lemma SamePrefixesSpaced(t: Table, u: Table)
    requires Spaced(t) && SamePrefixes(t, u)
    ensures Spaced(u)
  {
  }

  lemma {:induction false} ColumnsSpaced(t: Table, e: AxisEdit)
    requires Spaced(t)
    ensures Spaced(RebuildColumns(t, e))
  {
    var u := RebuildColumns(t, e);
    assert u.delimiter.prefix == t.delimiter.prefix;
    forall i | 0 <= i < |SemanticRows(t)| ensures SemanticRows(u)[i].prefix == SemanticRows(t)[i].prefix {
      RebuiltRowIs(t, e, i);
    }
    SamePrefixesSpaced(t, u);
  }

  lemma {:induction false} SortedSpaced(t: Table, column: int, direction: Direction, collator: Collator)
    requires Spaced(t)
    ensures Spaced(SortBody(t, column, direction, collator))
  {
    assert forall i :: 0 <= i < |t.body| ==> t.body[i] == SemanticRows(t)[i + 1];
    assert SemanticRows(t)[0] == t.header;
  }

  lemma {:induction false} RowActionSpaced(t: Table, a: Action, collator: Collator)
    requires Spaced(t) && Perform(t, a, collator).Some?
    requires a.InsertRowsAction? || a.DuplicateRowsAction? || a.ClearRowsAction? || a.DeleteRowsAction? || a.MoveRowsAction?
    ensures Spaced(Perform(t, a, collator).value)
  {
    match a
    case InsertRowsAction(reference, placement, count) => InsertRowsSpaced(t, reference, placement, count);
    case DuplicateRowsAction(selected) =>
      TidyLength(t, Duplicate(selected));
      KeptRowsSpaced(t, Duplicate(selected));
    case ClearRowsAction(selected) => SamePrefixesSpaced(t, ClearRows(t, selected));
    case DeleteRowsAction(selected) => DeleteRowsSpaced(t, selected);
    case MoveRowsAction(selected, gap) =>
      TidyLength(t, Move(selected, gap));
      KeptRowsSpaced(t, Move(selected, gap));
  }

  lemma TidyLength(t: Table, e: AxisEdit)
    requires !e.Remove?
    ensures EditSeq(e, SemanticRows(t), t.header) != []
  {
  }

  lemma {:induction false} SelectionSpaced(t: Table, selection: CellRange)
    requires Spaced(t)
    ensures Spaced(ClearSelection(t, selection))
    ensures DeleteSelection(t, selection).Some? ==> Spaced(DeleteSelection(t, selection).value)
  {
    var b := SelectionBounds(1 + |t.body|, t.columnCount, selection);
    SamePrefixesSpaced(t, ClearSelection(t, selection));
    var rows, columns := Indices(b.minRow, b.maxRow), Indices(b.minColumn, b.maxColumn);
    if DeleteRows(t, rows).Some? {
      DeleteRowsSpaced(t, rows);
    }
    ColumnsSpaced(t, Remove(columns));
  }

  lemma {:induction false} PerformSpaced(t: Table, a: Action, collator: Collator)
    requires Spaced(t) && Perform(t, a, collator).Some?
    ensures Spaced(Perform(t, a, collator).value)
  {
    match a
    case InsertColumnsAction(reference, placement, count) =>
      if count > 0 {
        ColumnsSpaced(t, Insert(if placement == Before then reference else reference + 1, count));
      }
    case DuplicateColumnsAction(selected) => ColumnsSpaced(t, Duplicate(selected));
    case ClearColumnsAction(selected) => SamePrefixesSpaced(t, ClearColumns(t, selected));
    case DeleteColumnsAction(selected) => ColumnsSpaced(t, Remove(selected));
    case MoveColumnsAction(selected, gap) => ColumnsSpaced(t, Move(selected, gap));
    case SetAlignmentAction(selected, alignment) =>
    case SortAction(column, direction) => SortedSpaced(t, column, direction, collator);
    case ClearSelectionAction(selection) => SelectionSpaced(t, selection);
    case DeleteSelectionAction(selection) => SelectionSpaced(t, selection);
    case _ => RowActionSpaced(t, a, collator);
  }

  // ---------------------------------------------------------------- formatting and pasting

  lemma {:induction false} WidenedSpaced(t: Table, required: nat)
    requires Spaced(t)
    ensures Spaced(Widened(t, required))
  {
    if required > t.columnCount {
      var e := Insert(t.columnCount, required - t.columnCount);
      assert Widened(t, required) == RebuildColumns(t, e);
      ColumnsSpaced(t, e);
    }
  }

  lemma {:induction false} HeightenedSpaced(t: Table, rowCount: nat)
    requires Spaced(t)
    ensures Spaced(Heightened(t, rowCount))
  {
    if rowCount - 1 > |t.body| {
      InsertRowsSpaced(t, |t.body|, After, rowCount - 1 - |t.body|);
    }
  }

  lemma {:induction false} EnlargedSpaced(t: Table, row: nat, column: nat, grid: TextGrid)
    requires Spaced(t)
    ensures Spaced(Enlarged(t, row, column, grid))
  {
    WidenedSpaced(t, column + GridWidth(grid));
    HeightenedSpaced(Widened(t, column + GridWidth(grid)), row + |grid|);
  }

  lemma {:induction false} PastedSpaced(t: Table, row: nat, column: nat, grid: TextGrid)
    requires Spaced(t) && Shaped(t)
    ensures Spaced(Pasted(t, row, column, grid))
  {
    if grid != [] && GridWidth(grid) > 0 {
      var large := Enlarged(t, row, column, grid);
      EnlargedSpaced(t, row, column, grid);
      EnlargedSpec(t, row, column, grid);
      var written := WrittenRows(SemanticRows(large), large.columnCount, row, column, grid, |grid|);
      forall i | 0 <= i < |written| ensures AllSpace(written[i].prefix) {
        WrittenAt(SemanticRows(large), large.columnCount, row, column, grid, i);
      }
      WithSpacedRows(large, written);
    }
  }

  lemma {:induction false} PasteTaken(t: Table, row: nat, column: nat, grid: TextGrid)
    requires Spaced(t)
    ensures GridTaken(t, row, column, grid)
  {
    EnlargedSpaced(t, row, column, grid);
  }

  // ---------------------------------------------------------------- sessions

  /** Reading a printed table back keeps the prefixes. */
  lemma {:induction false} PrintedSpaced(t: Table, exact: bool)
    requires Tidy(t, exact) && Spaced(t)
    ensures ParseTable(SerializeTable(t)).Some? && Spaced(ParseTable(SerializeTable(t)).value)
  {
    ParsePrintedTable(t, exact);
    ReadBackSpaced(t);
  }

  lemma {:induction false} ReadBackSpaced(t: Table)
    requires Spaced(t)
    ensures Spaced(ReadBackTable(t))
  {
    assert forall i :: 0 <= i < |t.body| ==> t.body[i] == SemanticRows(t)[i + 1];
    assert SemanticRows(t)[0] == t.header;
  }

  predicate SpacedText(text: string) {
    ParseTable(text).Some? && Spaced(ParseTable(text).value)
  }

  lemma {:induction false} StepSpaced(text: string, t: Table, step: Step, collator: Collator)
    requires Tidy(t, true) && Loose(t) && Shaped(t) && Spaced(t) && SpacedText(text)
    ensures StepTaken(t, step) && SpacedText(PrintStep(text, t, step, collator))
  {
    match step
    case Edit(action) =>
      PerformRefinesAct(t, action, collator);
      if Perform(t, action, collator).Some? {
        PerformSpaced(t, action, collator);
        PrintedSpaced(Perform(t, action, collator).value, true);
      }
    case Format =>
      FormattedTidy(t);
      FormatIsPrint(t);
      FormattedSpaced(t);
      PrintedSpaced(FormattedTable(t), true);
    case PasteGrid(row, column, grid) =>
      PasteTaken(t, row, column, grid);
      PastedTidy(t, row, column, grid);
      PastedSpaced(t, row, column, grid);
      PrintedSpaced(Pasted(t, row, column, grid), false);
  }

  lemma {:induction false} FormattedSpaced(t: Table)
    requires Spaced(t)
    ensures Spaced(FormattedTable(t))
  {
    assert forall i :: 0 <= i < |t.body| ==> t.body[i] == SemanticRows(t)[i + 1];
    assert SemanticRows(t)[0] == t.header;
  }

  lemma {:induction false} TextStepSpaced(text: string, step: Step, collator: Collator)
    requires InLanguage(text) && SpacedText(text)
    ensures StepTaken(ParseTable(text).value, step) && SpacedText(StepText(text, step, collator))
  {
    var t := ParseTable(text).value;
    ParsedTableTidy(text);
    ParsedTableLoose(text);
    TidyShaped(t, true);
    StepSpaced(text, t, step, collator);
  }

  /** Where only white space stands before the rows, every session is allowed, whatever is pasted. */
  lemma {:induction false} SpacedAllowed(text: string, steps: seq<Step>, collator: Collator)
    requires InLanguage(text) && SpacedText(text)
    ensures Allowed(text, steps, collator)
    decreases |steps|
  {
    if steps != [] {
      TextStepSpaced(text, steps[0], collator);
      StepRefines(text, steps[0], collator);
      SpacedAllowed(StepText(text, steps[0], collator), steps[1..], collator);
    }
  }

  /** So its effect is that of the session on views. */
  lemma {:induction false} PlainSessionsRefine(text: string, steps: seq<Step>, collator: Collator)
    requires InLanguage(text) && SpacedText(text)
    ensures InLanguage(RunText(text, steps, collator))
    ensures ViewOfText(RunText(text, steps, collator)) == RunView(ViewOfText(text), steps, collator)
  {
    SpacedAllowed(text, steps, collator);
    SessionsRefine(text, steps, collator);
  }
}
