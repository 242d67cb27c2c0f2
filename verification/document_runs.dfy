/** Whole editing sessions on the text of a table. Each step parses the text, changes the table and
    prints it. Any session stays inside the table language and has the same visible effect as the
    same session of simple operations on a grid of texts. */
module DocumentRuns {
  import opened Sequences
  import opened Text
  import opened Lines
  import opened Containers
  import opened MarkdownTable
  import opened TableText
  import opened TableEdits
  import opened TableLanguage
  import opened TableFormat
  import opened Clipboard
  import opened Paste

  datatype Step =
    | Edit(action: Action)
    | Format
    | PasteGrid(row: nat, column: nat, grid: TextGrid)

  /** The text after a step on its table; a refused edit leaves the text alone. */
  function PrintStep(text: string, t: Table, step: Step, collator: Collator): string {
    match step
    case Edit(action) =>
      var result := Perform(t, action, collator);
      if result == None then text else SerializeTable(result.value)
    case Format => FormatTable(t)
    case PasteGrid(row, column, grid) => if Shaped(t) then SerializeTable(Pasted(t, row, column, grid)) else text
  }

  function StepText(text: string, step: Step, collator: Collator): string {
    var parsed := ParseTable(text);
    if parsed == None then text else PrintStep(text, parsed.value, step, collator)
  }

  function RunText(text: string, steps: seq<Step>, collator: Collator): string
    decreases |steps|
  {
    if steps == [] then text else RunText(StepText(text, steps[0], collator), steps[1..], collator)
  }

  // ---------------------------------------------------------------- the same on views

  function ViewAt(v: View, i: nat, j: nat): string {
    if i < |v.grid| && j < |v.grid[i]| then v.grid[i][j] else ""
  }

  /** Pasting on views; a reader sees pasted texts without white space at their ends. */
  function PasteView(v: View, row: nat, column: nat, grid: TextGrid): View {
    if grid == [] || GridWidth(grid) == 0 then v
    else PasteSized(v, row, column, grid, Max(|v.grid|, row + |grid|), Max(|v.alignments|, column + GridWidth(grid)))
  }

  function PasteSized(v: View, row: nat, column: nat, grid: TextGrid, rows: nat, columns: nat): View {
    View(PasteRows(v, row, column, grid, rows, columns), PasteAlignments(v, columns))
  }

  function PasteRows(v: View, row: nat, column: nat, grid: TextGrid, rows: nat, columns: nat): (r: seq<seq<string>>)
    ensures |r| == rows
  {
    seq(rows, i requires 0 <= i => PasteRow(v, row, column, grid, i, columns))
  }

  function PasteAlignments(v: View, columns: nat): seq<Alignment> {
    seq(columns, j requires 0 <= j => if j < |v.alignments| then v.alignments[j] else Unaligned)
  }

  function PasteRow(v: View, row: nat, column: nat, grid: TextGrid, i: nat, columns: nat): (texts: seq<string>)
    ensures |texts| == columns
  {
    seq(columns, j requires 0 <= j => PasteText(v, row, column, grid, i, j))
  }

  function PasteText(v: View, row: nat, column: nat, grid: TextGrid, i: nat, j: nat): string {
    if InPasted(grid, row, column, i, j) then Trim(PastedText(grid[i - row][j - column])) else ViewAt(v, i, j)
  }

  function StepView(v: View, step: Step, collator: Collator): View {
    match step
    case Edit(action) => Act(v, action, collator).GetOr(v)
    case Format => v
    case PasteGrid(row, column, grid) => PasteView(v, row, column, grid)
  }

  function RunView(v: View, steps: seq<Step>, collator: Collator): View
    decreases |steps|
  {
    if steps == [] then v else RunView(StepView(v, steps[0], collator), steps[1..], collator)
  }

  // ---------------------------------------------------------------- one step

  /** A text that parses to a rectangular table with both outer pipes on every row. */
  predicate InLanguage(text: string) {
    ParseTable(text).Some? && Rectangular(ParseTable(text).value) && OuterPipes(ParseTable(text).value)
  }

  function ViewOfText(text: string): View
    requires ParseTable(text).Some?
  {
    ViewOf(ParseTable(text).value)
  }

  /** What is read back of a printed tidy table. */
  lemma PrintedView(t: Table, exact: bool)
    requires Tidy(t, exact)
    ensures InLanguage(SerializeTable(t))
    ensures ViewOfText(SerializeTable(t)) == View(TrimmedGrid(t), t.alignments)
    ensures exact ==> ViewOfText(SerializeTable(t)) == ViewOf(t)
  {
    ParsePrintedTable(t, exact);
    ReadBackGrid(t, exact);
  }

  /** The claim for one step: the new text is in the language and shows the expected view. */
  predicate Shows(text: string, v: View) {
    InLanguage(text) && ViewOfText(text) == v
  }

  lemma EditStep(text: string, t: Table, action: Action, collator: Collator)
    requires Tidy(t, true) && Shows(text, ViewOf(t))
    ensures Shows(PrintStep(text, t, Edit(action), collator), StepView(ViewOf(t), Edit(action), collator))
  {
    PerformRefinesAct(t, action, collator);
    if Perform(t, action, collator).Some? {
      PrintedView(Perform(t, action, collator).value, true);
    }
  }

  lemma FormatStep(text: string, t: Table, collator: Collator)
    requires Loose(t)
    ensures Shows(PrintStep(text, t, Format, collator), ViewOf(t))
  {
    FormatPreserves(t);
  }

  // ---------------------------------------------------------------- pasting inside the language

  /** Texts that may be pasted into a row: in a block quote or list item they hold no line terminator other
      than line feeds. Such a character would hide the container prefix from the parser. */
  predicate RowTakes(prefix: string, values: seq<string>) {
    AllSpace(prefix) || forall j :: 0 <= j < |values| ==> OneLine(PastedText(values[j]))
  }

  /** Every row of the enlarged table takes what is pasted into it. */
  predicate GridTaken(t: Table, row: nat, column: nat, grid: TextGrid) {
    var rows := SemanticRows(Enlarged(t, row, column, grid));
    forall i :: 0 <= i < |grid| && row + i < |rows| ==> RowTakes(rows[row + i].prefix, grid[i])
  }

  lemma PastedCellFits(value: string, prefix: string)
    requires AllSpace(prefix) || OneLine(PastedText(value))
    ensures FitCell(CanonicalCell(PastedText(value)), prefix, false)
  {
    var s := PastedText(value);
    PastedIsOneSegment(value);
    EscapeSeals(LineEndsToBreaks(value));
    SealedShift(" ", s, " ");
    TailRunOfSpace(" " + s, " ");
    OneLineConcat(" " + s, " ");
    OneLineConcat(" ", s);
  }

  lemma TidyForgetsExact(t: Table)
    requires Tidy(t, true)
    ensures Tidy(t, false)
  {
    forall i | 0 <= i < |SemanticRows(t)| ensures TidyRow(SemanticRows(t)[i], t.columnCount, false) {
      assert TidyRow(SemanticRows(t)[i], t.columnCount, true);
    }
  }

  lemma WidenedTidy(t: Table, required: nat)
    requires Tidy(t, true)
    ensures Tidy(Widened(t, required), true)
  {
    if required > t.columnCount {
      var e := Insert(t.columnCount, required - t.columnCount);
      assert Widened(t, required) == RebuildColumns(t, e);
      GrowingEdit(e, t.alignments);
      RebuildRefines(t, e, true);
    }
  }

  lemma HeightenedTidy(t: Table, rowCount: nat)
    requires Tidy(t, true)
    ensures Tidy(Heightened(t, rowCount), true)
  {
    if rowCount - 1 > |t.body| {
      InsertRowsTidy(t, |t.body|, After, rowCount - 1 - |t.body|);
    }
  }

  lemma WrittenRowTidy(row: Row, n: nat, start: nat, values: seq<string>)
    requires TidyRow(row, n, false) && start + |values| <= n
    requires RowTakes(row.prefix, values)
    ensures TidyRow(WrittenRow(row, n, start, values), n, false)
  {
    var cells := WrittenCells(row.cells, start, values);
    TidyRowCells(row, n, false);
    forall j | 0 <= j < n ensures FitCell(cells[j], row.prefix, false) {
      if start <= j < start + |values| {
        PastedCellFits(values[j - start], row.prefix);
      }
    }
    WithCells(row, n, false, cells);
  }

  lemma TidyShaped(t: Table, exact: bool)
    requires Tidy(t, exact)
    ensures Shaped(t)
  {
    assert forall i :: 0 <= i < |SemanticRows(t)| ==> TidyRow(SemanticRows(t)[i], t.columnCount, exact);
    ShapedFromRows(t);
  }

  lemma EnlargedTidy(t: Table, row: nat, column: nat, grid: TextGrid)
    requires Tidy(t, true) && Shaped(t) && grid != [] && GridWidth(grid) > 0
    ensures Tidy(Enlarged(t, row, column, grid), false)
  {
    WidenedTidy(t, column + GridWidth(grid));
    HeightenedTidy(Widened(t, column + GridWidth(grid)), row + |grid|);
    EnlargedSpec(t, row, column, grid);
    TidyForgetsExact(Enlarged(t, row, column, grid));
  }

  lemma {:induction false} WrittenAt(rows: seq<Row>, n: nat, row: nat, column: nat, grid: TextGrid, i: nat)
    requires column + GridWidth(grid) <= n && i < |rows|
    ensures WrittenRows(rows, n, row, column, grid, |grid|)[i]
         == if row <= i < row + |grid| then WrittenRow(rows[i], n, column, grid[i - row]) else rows[i]
  {
  }

  lemma WrittenTidy(large: Table, row: nat, column: nat, grid: TextGrid, i: nat)
    requires Tidy(large, false) && i < |SemanticRows(large)| && column + GridWidth(grid) <= large.columnCount
    requires row <= i < row + |grid| ==> RowTakes(SemanticRows(large)[i].prefix, grid[i - row])
    ensures var written := WrittenRows(SemanticRows(large), large.columnCount, row, column, grid, |grid|);
            TidyRow(written[i], large.columnCount, false)
  {
    assert TidyRow(SemanticRows(large)[i], large.columnCount, false);
    WrittenAt(SemanticRows(large), large.columnCount, row, column, grid, i);
    if row <= i < row + |grid| {
      WrittenRowTidy(SemanticRows(large)[i], large.columnCount, column, grid[i - row]);
    }
  }

  /** A pasted table is inside the language, up to white space at the ends of pasted texts. */
  lemma PastedTidy(t: Table, row: nat, column: nat, grid: TextGrid)
    requires Tidy(t, true) && Shaped(t) && GridTaken(t, row, column, grid)
    ensures Tidy(Pasted(t, row, column, grid), false)
  {
    if grid == [] || GridWidth(grid) == 0 {
      TidyForgetsExact(t);
    } else {
      var large := Enlarged(t, row, column, grid);
      EnlargedSpec(t, row, column, grid);
      EnlargedTidy(t, row, column, grid);
      var written := WrittenRows(SemanticRows(large), large.columnCount, row, column, grid, |grid|);
      forall i | 0 <= i < |written| ensures TidyRow(written[i], large.columnCount, false) {
        assert row <= i < row + |grid| ==> RowTakes(SemanticRows(large)[row + (i - row)].prefix, grid[i - row]);
        WrittenTidy(large, row, column, grid, i);
      }
      WithRows(large, written, false);
    }
  }

  lemma {:induction false} PastedView(t: Table, row: nat, column: nat, grid: TextGrid)
    requires Tidy(t, true) && Shaped(t)
    ensures var result := Pasted(t, row, column, grid);
            View(TrimmedGrid(result), result.alignments) == PasteView(ViewOf(t), row, column, grid)
  {
    ReadBackGrid(t, true);
    if grid != [] && GridWidth(grid) > 0 {
      PasteSpec(t, row, column, grid, row, column);
      PastedSizedView(t, Pasted(t, row, column, grid), row, column, grid);
    }
  }

  lemma {:induction false} PastedSizedView(t: Table, result: Table, row: nat, column: nat, grid: TextGrid)
    requires TrimmedGrid(t) == Grid(t) && Shaped(t) && grid != [] && GridWidth(grid) > 0
    requires result.columnCount == Max(t.columnCount, column + GridWidth(grid))
    requires |SemanticRows(result)| == Max(|SemanticRows(t)|, row + |grid|) && PastedAlignments(t, result)
    requires forall i :: 0 <= i < |SemanticRows(result)| ==> PastedRow(t, result, grid, row, column, i)
    ensures View(TrimmedGrid(result), result.alignments) == PasteView(ViewOf(t), row, column, grid)
  {
    var rows, columns := |SemanticRows(result)|, result.columnCount;
    PastedRowsView(t, result, row, column, grid);
    PastedAlignmentsView(t, result);
    SizedPaste(ViewOf(t), row, column, grid, rows, columns);
  }

  lemma {:induction false} SizedPaste(v: View, row: nat, column: nat, grid: TextGrid, rows: nat, columns: nat)
    requires grid != [] && GridWidth(grid) > 0
    requires rows == Max(|v.grid|, row + |grid|) && columns == Max(|v.alignments|, column + GridWidth(grid))
    ensures PasteView(v, row, column, grid) == View(PasteRows(v, row, column, grid, rows, columns), PasteAlignments(v, columns))
  {
  }

  lemma PastedAlignmentsView(t: Table, result: Table)
    requires PastedAlignments(t, result)
    ensures result.alignments == PasteAlignments(ViewOf(t), result.columnCount)
  {
  }

  lemma PastedRowsView(t: Table, result: Table, row: nat, column: nat, grid: TextGrid)
    requires TrimmedGrid(t) == Grid(t) && t.columnCount <= result.columnCount && Shaped(t)
    requires forall i :: 0 <= i < |SemanticRows(result)| ==> PastedRow(t, result, grid, row, column, i)
    ensures TrimmedGrid(result) == PasteRows(ViewOf(t), row, column, grid, |SemanticRows(result)|, result.columnCount)
  {
    forall i | 0 <= i < |SemanticRows(result)|
      ensures TrimmedGrid(result)[i] == PasteRow(ViewOf(t), row, column, grid, i, result.columnCount)
    {
      if i < |SemanticRows(t)| {
        ShapedRow(t, i);
      }
      PastedRowView(t, result, row, column, grid, i);
    }
  }

  lemma PastedRowView(t: Table, result: Table, row: nat, column: nat, grid: TextGrid, i: nat)
    requires i < |SemanticRows(result)| && TrimmedGrid(t) == Grid(t)
    requires PastedRow(t, result, grid, row, column, i) && t.columnCount <= result.columnCount
    requires i < |SemanticRows(t)| ==> |SemanticRows(t)[i].cells| <= t.columnCount
    ensures TrimmedGrid(result)[i] == PasteRow(ViewOf(t), row, column, grid, i, result.columnCount)
  {
    forall j | 0 <= j < result.columnCount
      ensures TrimmedGrid(result)[i][j] == PasteText(ViewOf(t), row, column, grid, i, j)
    {
      assert Grid(result)[i][j] == TextAfterPaste(t, grid, row, column, i, j);
      if !InPasted(grid, row, column, i, j) {
        if i < |SemanticRows(t)| && j < t.columnCount {
          assert Grid(t)[i][j] == TrimmedGrid(t)[i][j] == Trim(Grid(t)[i][j]);
        } else {
          TrimOfTrimmed("");
        }
      }
    }
  }

  lemma PastePrinted(t: Table, row: nat, column: nat, grid: TextGrid, collator: Collator)
    requires Tidy(t, true) && Shaped(t) && GridTaken(t, row, column, grid)
    ensures Shows(SerializeTable(Pasted(t, row, column, grid)), PasteView(ViewOf(t), row, column, grid))
  {
    PastedTidy(t, row, column, grid);
    PastedView(t, row, column, grid);
    PrintedView(Pasted(t, row, column, grid), false);
  }

  // ---------------------------------------------------------------- sessions

  /** What is pasted is taken by the rows that it is pasted into. */
  predicate StepTaken(t: Table, step: Step) {
    step.PasteGrid? ==> GridTaken(t, step.row, step.column, step.grid)
  }

  /** Every step is taken by the table that it finds. */
  predicate Allowed(text: string, steps: seq<Step>, collator: Collator)
    decreases |steps|
  {
    steps == [] ||
    ((ParseTable(text).Some? ==> StepTaken(ParseTable(text).value, steps[0]))
     && Allowed(StepText(text, steps[0], collator), steps[1..], collator))
  }

  lemma StepRefines(text: string, step: Step, collator: Collator)
    requires InLanguage(text) && StepTaken(ParseTable(text).value, step)
    ensures Shows(StepText(text, step, collator), StepView(ViewOfText(text), step, collator))
  {
    var t := ParseTable(text).value;
    ParsedTableTidy(text);
    ParsedTableLoose(text);
    TidyShaped(t, true);
    TableStep(text, t, step, collator);
  }

  lemma TableStep(text: string, t: Table, step: Step, collator: Collator)
    requires Tidy(t, true) && Loose(t) && Shaped(t) && Shows(text, ViewOf(t))
    requires StepTaken(t, step)
    ensures Shows(PrintStep(text, t, step, collator), StepView(ViewOf(t), step, collator))
  {
    match step
    case Edit(action) => EditStep(text, t, action, collator);
    case Format => FormatStep(text, t, collator);
    case PasteGrid(row, column, grid) => PastePrinted(t, row, column, grid, collator);
  }

  /** After any session of edits, formatting and pasting the text still is a table in the language,
      and its cell texts and alignments are those of the same session on views. */
  lemma {:induction false} SessionsRefine(text: string, steps: seq<Step>, collator: Collator)
    requires InLanguage(text) && Allowed(text, steps, collator)
    ensures InLanguage(RunText(text, steps, collator))
    ensures ViewOfText(RunText(text, steps, collator)) == RunView(ViewOfText(text), steps, collator)
    decreases |steps|
  {
    if steps != [] {
      StepRefines(text, steps[0], collator);
      SessionsRefine(StepText(text, steps[0], collator), steps[1..], collator);
    }
  }

  /** Pasted texts without line terminators other than line feeds are taken everywhere. */
  predicate OneLineGrid(grid: TextGrid) {
    forall i, j :: 0 <= i < |grid| && 0 <= j < |grid[i]| ==> OneLine(PastedText(grid[i][j]))
  }

  lemma {:induction false} OneLineAllowed(text: string, steps: seq<Step>, collator: Collator)
    requires forall k :: 0 <= k < |steps| && steps[k].PasteGrid? ==> OneLineGrid(steps[k].grid)
    ensures Allowed(text, steps, collator)
    decreases |steps|
  {
    if steps != [] {
      OneLineAllowed(StepText(text, steps[0], collator), steps[1..], collator);
    }
  }

  // ---------------------------------------------------------------- rows of different lengths

  /** Each row is tidy for its own number of cells. */
  predicate TidyRagged(t: Table) {
    && OuterPipes(t)
    && forall i :: 0 <= i < |Rows(t)| ==> TidyRow(Rows(t)[i], |Rows(t)[i].cells|, true)
  }

  lemma RaggedLineReads(t: Table, i: nat)
    requires i < |Rows(t)| && TidyRow(Rows(t)[i], |Rows(t)[i].cells|, true)
    ensures LineReads(Rows(t)[i], Chomps(t, i))
  {
    var row := Rows(t)[i];
    TidyRowText(row, |row.cells|, true);
    ReadTidyLine(row, |row.cells|, true, Chomps(t, i));
  }

  lemma RaggedLinesRead(t: Table)
    requires TidyRagged(t)
    ensures forall i :: 0 <= i < |Rows(t)| ==> LineReads(Rows(t)[i], Chomps(t, i))
    ensures forall i :: 0 <= i < |t.delimiter.cells| ==> GoodCell(t.delimiter.cells[i])
  {
    forall i | 0 <= i < |Rows(t)| ensures LineReads(Rows(t)[i], Chomps(t, i)) {
      RaggedLineReads(t, i);
    }
    assert TidyRow(Rows(t)[1], |t.delimiter.cells|, true);
  }

  /** A ragged table can be read back exactly when header and delimiter row are equally wide. */
  lemma RaggedParsesIff(t: Table)
    requires TidyRagged(t)
    requires forall i :: 0 <= i < |t.delimiter.cells| ==> ParseAlignment(t.delimiter.cells[i].markdown).Some?
    ensures ParseTable(SerializeTable(t)).Some? <==> |t.header.cells| == |t.delimiter.cells|
  {
    RaggedLinesRead(t);
    PrintedParsesIff(t);
  }

  lemma PrintedParsesIff(t: Table)
    requires forall i :: 0 <= i < |Rows(t)| ==> LineReads(Rows(t)[i], Chomps(t, i))
    requires forall i :: 0 <= i < |t.delimiter.cells| ==>
               GoodCell(t.delimiter.cells[i]) && ParseAlignment(t.delimiter.cells[i].markdown).Some?
    ensures ParseTable(SerializeTable(t)).Some? <==> |t.header.cells| == |t.delimiter.cells|
  {
    var text := SerializeTable(t);
    var rows := ReadBackRows(t);
    ReadBackRowsParsed(t);
    ParseFromRows(text, rows);
    assert Rows(t)[0] == t.header && Rows(t)[1] == t.delimiter;
    BuildsIff(HasCrlf(text), EndsWithLf(text), rows, t.delimiter.cells);
  }

  lemma BuildsIff(crlf: bool, trailing: bool, rows: seq<Row>, cells: seq<Cell>)
    requires |rows| >= 2 && rows[1].cells == ReadCells(cells)
    requires forall i :: 0 <= i < |cells| ==> GoodCell(cells[i]) && ParseAlignment(cells[i].markdown).Some?
    ensures BuildTable(crlf, trailing, rows).Some? <==> |rows[0].cells| == |cells|
  {
    forall i | 0 <= i < |cells| ensures ParseAlignment(rows[1].cells[i].markdown).Some? {
      ParseAlignmentTrimmed(cells[i]);
    }
  }

  /** Setting an alignment completes the delimiter row but not the header: the printed table can be
      read back exactly when the header row was complete. */
  lemma SetAlignmentParsesIff(source: string, selected: seq<int>, alignment: Alignment)
    requires ParseTable(source).Some? && OuterPipes(ParseTable(source).value)
    ensures var t := ParseTable(source).value;
            ParseTable(SerializeTable(SetAlignment(t, selected, alignment))).Some? <==> |t.header.cells| == t.columnCount
  {
    var t := ParseTable(source).value;
    ReadLinesClean(source);
    ParsedRowsFacts(ReadLines(source));
    assert Rows(t) == ParseRows(ReadLines(source));
    forall i | 0 <= i < |Rows(t)| ensures TidyRow(Rows(t)[i], |Rows(t)[i].cells|, true) {
      assert ParsedFacts(Rows(t)[i]);
    }
    assert Rows(t)[1] == t.delimiter;
    assert |t.delimiter.cells| <= t.columnCount;
    DelimiterParses(source);
    SetAlignmentRagged(t, selected, alignment);
    RaggedParsesIff(SetAlignment(t, selected, alignment));
  }

  lemma DelimiterParses(source: string)
    requires ParseTable(source).Some?
    ensures var cells := ParseTable(source).value.delimiter.cells;
            forall i :: 0 <= i < |cells| ==> ParseAlignment(cells[i].markdown).Some?
  {
  }

  /** The delimiter row after the change of alignments: padded to all columns, with new markers. */
  lemma MarkedDelimiter(t: Table, selected: seq<int>, alignment: Alignment)
    requires TidyRagged(t) && |t.delimiter.cells| <= t.columnCount
    requires forall i :: 0 <= i < |t.delimiter.cells| ==> ParseAlignment(t.delimiter.cells[i].markdown).Some?
    ensures var row := SetAlignment(t, selected, alignment).delimiter;
            && |row.cells| == t.columnCount && TidyRow(row, |row.cells|, true)
            && forall i :: 0 <= i < |row.cells| ==> ParseAlignment(row.cells[i].markdown).Some?
  {
    var padded := Padded(t.delimiter.cells, t.columnCount, DelimiterCell(Unaligned));
    var cells := SetAlignment(t, selected, alignment).delimiter.cells;
    assert t.delimiter == Rows(t)[1];
    TidyRowCells(t.delimiter, |t.delimiter.cells|, true);
    FitMarker(t.delimiter.prefix);
    forall j | 0 <= j < |cells|
      ensures FitCell(cells[j], t.delimiter.prefix, true) && ParseAlignment(cells[j].markdown).Some?
    {
      assert FitCell(padded[j], t.delimiter.prefix, true);
      MarkedCellGood(padded[j], alignment, MinimumWidth(alignment));
      MarkerSpells(alignment, MinimumWidth(alignment));
    }
    WithCells(t.delimiter, |t.delimiter.cells|, true, cells);
  }

  lemma OtherRowsKept(t: Table, r: Table)
    requires TidyRagged(t) && r.header == t.header && r.body == t.body && TidyRow(r.delimiter, |r.delimiter.cells|, true)
    ensures TidyRagged(r)
  {
    forall i | 0 <= i < |Rows(r)| ensures TidyRow(Rows(r)[i], |Rows(r)[i].cells|, true) && Rows(r)[i].leadingPipe && Rows(r)[i].trailingPipe {
      assert i != 1 ==> Rows(r)[i] == Rows(t)[i];
    }
  }

  lemma SetAlignmentRagged(t: Table, selected: seq<int>, alignment: Alignment)
    requires TidyRagged(t) && |t.delimiter.cells| <= t.columnCount
    requires forall i :: 0 <= i < |t.delimiter.cells| ==> ParseAlignment(t.delimiter.cells[i].markdown).Some?
    ensures var r := SetAlignment(t, selected, alignment);
            && TidyRagged(r) && r.header == t.header && |r.delimiter.cells| == t.columnCount
            && forall i :: 0 <= i < |r.delimiter.cells| ==> ParseAlignment(r.delimiter.cells[i].markdown).Some?
  {
    MarkedDelimiter(t, selected, alignment);
    OtherRowsKept(t, SetAlignment(t, selected, alignment));
  }
}
