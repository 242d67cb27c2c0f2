/** What the protection of the table structure is for: a change that it lets through changes one cell only. */
module ProtectedEdits {
  import opened Seqs
  import opened Text
  import opened Lines
  import opened Containers
  import opened MarkdownTable
  import opened TableText
  import opened TableLayout
  import opened DocumentLayout
  import opened CellEdit
  import Caret

  // ---------------------------------------------------------------- the test for a change

  /** The first row whose line holds the position or ends there. */
  function RowAt(rows: seq<RowLayout>, position: int): (i: nat)
    ensures i <= |rows| && (i < |rows| ==> rows[i].from <= position <= rows[i].to)
    ensures forall j :: 0 <= j < i ==> !(rows[j].from <= position <= rows[j].to)
  {
    if rows == [] || rows[0].from <= position <= rows[0].to then 0 else 1 + RowAt(rows[1..], position)
  }

  predicate IsEditable(cells: seq<CellLayout>, position: int) {
    exists k :: 0 <= k < |cells| && Caret.EditableContains(cells[k], position)
  }

  /** insertionTouchesHiddenStructure for one table. */
  predicate InsertionTouches(layout: Layout, position: int) {
    var i := RowAt(layout.rows, position);
    && layout.from <= position <= layout.to
    && (i == |layout.rows| || layout.rows[i].semanticIndex.None? || !IsEditable(layout.rows[i].cells, position))
  }

  /** transactionTouchesProtectedStructure for one change and one table. */
  predicate Blocked(layout: Layout, terminator: Option<Span>, from: int, to: int, insert: string) {
    || (to > from && SelectionTouches(layout.from, layout.to, layout.rows, terminator, from, to))
    || (from == to && insert != "" && InsertionTouches(layout, from))
  }

  // ---------------------------------------------------------------- insertions

  /** The caret may stand there in cell `k` of the data row `i`. */
  predicate TakesCaret(rows: seq<RowLayout>, position: int, i: nat, k: nat) {
    && i < |rows| && rows[i].semanticIndex.Some?
    && k < |rows[i].cells| && Caret.EditableContains(rows[i].cells[k], position)
  }

  lemma CaretInRow(rows: seq<RowLayout>, source: seq<Row>, from: int, n: nat, position: int, i: nat, k: nat)
    requires LaidOut(rows, source, from, n) && TakesCaret(rows, position, i, k)
    ensures rows[i].from <= position <= rows[i].to
  {
    var row, content := source[i], ContentFrom(rows, from, i);
    assert LaidOutRow(rows, source, from, n, i);
    RowEndInside(row, rows[i].from, rows[i].to, content);
    LaidOutCell(row, rows[i].to, SemanticIndex(i), content, n, k);
    StretchInside(row, content, k);
    if k < |row.cells| {
      PlacedInside(Raw(row.cells[k]), Stretch(row, content, k).from, RowIndexOf(SemanticIndex(i)), k);
    }
  }

  lemma CaretRowFound(rows: seq<RowLayout>, source: seq<Row>, from: int, n: nat, position: int, i: nat, k: nat)
    requires LaidOut(rows, source, from, n) && TakesCaret(rows, position, i, k)
    ensures RowAt(rows, position) == i
  {
    CaretInRow(rows, source, from, n, position, i, k);
    var found := RowAt(rows, position);
    if found < i {
      RowsApart(rows, source, from, n, found, i);
    }
  }

  /** In any faithful layout an insertion is blocked exactly where, within the table, the caret may not stand in a cell
      of a data row. */
  lemma InsertionExact(doc: string, layout: Layout, terminator: Option<Span>, position: int, insert: string)
    requires Faithful(doc, layout)
    ensures Blocked(layout, terminator, position, position, insert)
       <==> && insert != "" && layout.from <= position <= layout.to
            && !exists i, k :: TakesCaret(layout.rows, position, i, k)
  {
    if i, k :| layout.from <= position <= layout.to && TakesCaret(layout.rows, position, i, k) {
      CaretRowFound(layout.rows, Rows(layout.table), layout.from, layout.table.columnCount, position, i, k);
    }
    if layout.from <= position <= layout.to && !InsertionTouches(layout, position) {
      var i := RowAt(layout.rows, position);
      var k :| 0 <= k < |layout.rows[i].cells| && Caret.EditableContains(layout.rows[i].cells[k], position);
      assert TakesCaret(layout.rows, position, i, k);
    }
  }

  /** A deletion or replacement outside of the table is blocked only if it takes something of the terminator. */
  lemma OutsideIsFree(layout: Layout, terminator: Option<Span>, from: int, to: int, insert: string)
    requires from < to && (to <= layout.from || layout.to <= from)
    ensures Blocked(layout, terminator, from, to, insert)
       <==> terminator.Some? && from < terminator.value.to && terminator.value.from < to
  {
  }

  // ---------------------------------------------------------------- a change inside one cell

  /** A deletion or replacement may take what is drawn of a cell; an insertion stands where the caret may be. */
  predicate PermittedIn(cell: CellLayout, from: int, to: int) {
    if from < to then cell.renderFrom <= from && to <= cell.renderTo
    else from == to && Caret.EditableContains(cell, from)
  }

  lemma PermittedInside(raw: string, start: int, rowIndex: int, columnIndex: nat, from: int, to: int)
    requires PermittedIn(PlaceCell(raw, start, rowIndex, columnIndex), from, to)
    ensures start <= from <= to <= start + |raw|
  {
    PlacedInside(raw, start, rowIndex, columnIndex);
  }

  /** The text of a cell after `insert` replaced its characters `lo..hi - 1`. */
  function ChangedRaw(raw: string, lo: nat, hi: nat, insert: string): string
    requires lo <= hi <= |raw|
  {
    raw[..lo] + insert + raw[hi..]
  }

  lemma ChangedClean(raw: string, lo: nat, hi: nat, insert: string)
    requires lo <= hi <= |raw| && '\n' !in raw && '\n' !in insert
    ensures '\n' !in ChangedRaw(raw, lo, hi, insert)
    ensures OneLine(raw) && OneLine(insert) ==> OneLine(ChangedRaw(raw, lo, hi, insert))
  {
    OneLineConcat(raw[..lo] + insert, raw[hi..]);
    OneLineConcat(raw[..lo], insert);
    OneLineConcat(raw[..lo], raw[lo..]);
    OneLineConcat(raw[..hi], raw[hi..]);
    TakeDrop(raw, lo);
    TakeDrop(raw, hi);
  }

  /** `line` is read as `row` with `raw` as the text of cell `j`. */
  predicate ReadWith(row: Row, j: nat, raw: string, line: string)
    requires j < |row.cells|
  {
    KeepsFrame(row, ParseRow(line), j, Trim(raw))
  }

  function StartOf(row: Row, j: nat): int
    requires j <= |row.cells|
  {
    CellStart(row.cells, RowBase(row, 0), j)
  }

  /** The text of cell `j` after `insert` replaced the characters `from..to - 1` of the line of its row. */
  function RawAfter(row: Row, j: nat, from: int, to: int, insert: string): string
    requires j < |row.cells| && StartOf(row, j) <= from <= to <= StartOf(row, j) + |Raw(row.cells[j])|
  {
    ChangedRaw(Raw(row.cells[j]), from - StartOf(row, j), to - StartOf(row, j), insert)
  }

  /** Any change inside the text of one cell is read as a change of that cell alone exactly when the
      cell stays closed. */
  lemma {:induction false} ChangeInCellExact(line: string, row: Row, j: nat, from: int, to: int, insert: string)
    requires line == SerializeRow(row) && ParseRow(line) == row && '\n' !in line && '\n' !in insert
    requires row.leadingPipe && row.trailingPipe && (AllSpace(row.prefix) || OneLine(insert))
    requires j < |row.cells| && StartOf(row, j) <= from <= to <= StartOf(row, j) + |Raw(row.cells[j])|
    ensures 0 <= from <= to <= |line|
    ensures var raw := RawAfter(row, j, from, to, insert);
            ReadWith(row, j, raw, line[..from] + insert + line[to..]) <==> Closed(raw)
  {
    ParsedRow(line);
    SpliceInLine(line, row, j, from, to, insert);
    TidyChangeExact(row, |row.cells|, j, from, to, insert, line[..from] + insert + line[to..]);
  }

  lemma {:induction false} SpliceInLine(line: string, row: Row, j: nat, from: int, to: int, insert: string)
    requires line == SerializeRow(row) && row.leadingPipe && row.trailingPipe
    requires j < |row.cells| && StartOf(row, j) <= from <= to <= StartOf(row, j) + |Raw(row.cells[j])|
    ensures 0 <= from <= to <= |line|
    ensures line[..from] + insert + line[to..] == SerializeRow(WithRaw(row, j, RawAfter(row, j, from, to, insert)))
  {
    var lo, hi := from - StartOf(row, j), to - StartOf(row, j);
    SpliceAt(line, row, j, lo, hi, from, to, insert, RawAfter(row, j, from, to, insert));
  }

  lemma {:induction false} SpliceAt(line: string, row: Row, j: nat, lo: nat, hi: nat, from: int, to: int, insert: string, raw: string)
    requires line == SerializeRow(row) && row.leadingPipe && row.trailingPipe && j < |row.cells|
    requires lo <= hi <= |Raw(row.cells[j])| && from == StartOf(row, j) + lo && to == StartOf(row, j) + hi
    requires raw == ChangedRaw(Raw(row.cells[j]), lo, hi, insert)
    ensures 0 <= from <= to <= |line|
    ensures line[..from] + insert + line[to..] == SerializeRow(WithRaw(row, j, raw))
  {
    SpliceInCell(row, j, lo, hi, from, to, insert);
  }

  lemma {:induction false} TidyChangeExact(row: Row, n: nat, j: nat, from: int, to: int, insert: string, changed: string)
    requires TidyRow(row, n, true) && j < n && '\n' !in insert && (AllSpace(row.prefix) || OneLine(insert))
    requires StartOf(row, j) <= from <= to <= StartOf(row, j) + |Raw(row.cells[j])|
    requires changed == SerializeRow(WithRaw(row, j, RawAfter(row, j, from, to, insert)))
    ensures ReadWith(row, j, RawAfter(row, j, from, to, insert), changed) <==> Closed(RawAfter(row, j, from, to, insert))
  {
    var raw := RawAfter(row, j, from, to, insert);
    ChangedClean(Raw(row.cells[j]), from - StartOf(row, j), to - StartOf(row, j), insert);
    RowEditExact(row, n, j, raw, raw);
  }

  /** The row is what parsing its own line gives. */
  predicate ReadsBack(row: Row) {
    ParseRow(SerializeRow(row)) == row && '\n' !in SerializeRow(row)
  }

  /** The range lies in the text of a cell. */
  predicate InCellText(row: Row, k: nat, from: int, to: int) {
    k < |row.cells| && StartOf(row, k) <= from <= to <= StartOf(row, k) + |Raw(row.cells[k])|
  }

  // ---------------------------------------------------------------- the rows in the document

  lemma {:induction false} ContentIsPartStart(rows: seq<RowLayout>, source: seq<Row>, from: nat, n: nat, i: nat)
    requires LaidOut(rows, source, from, n) && i < |rows|
    ensures ContentFrom(rows, from, i) == from + PartStart(SerializeRows(source), i)
  {
    if i > 0 {
      ContentIsPartStart(rows, source, from, n, i - 1);
      assert LaidOutRow(rows, source, from, n, i - 1);
    }
  }

  /** Row `i` of the layout stands in the document, and is what parsing its text gives. */
  predicate RowReads(doc: string, layout: Layout, i: nat)
    requires i < |layout.rows|
  {
    var content := ContentFrom(layout.rows, layout.from, i);
    && i < |Rows(layout.table)|
    && 0 <= content <= layout.rows[i].to <= |doc|
    && doc[content..layout.rows[i].to] == SerializeRow(Rows(layout.table)[i])
    && ReadsBack(Rows(layout.table)[i])
  }

  lemma {:induction false} PartStands(doc: string, from: nat, to: nat, lines: seq<string>, i: nat, ending: string)
    requires from <= to <= |doc| && i < |lines| && doc[from..to] == Join(lines, "\n") + ending
    ensures var start := from + PartStart(lines, i); start + |lines[i]| <= to && doc[start..start + |lines[i]|] == lines[i]
  {
    var before, after := TextBefore(lines, i, "\n"), TextAfter(lines, i, "\n");
    JoinAround(lines, i, "\n", lines[i]);
    Assoc(before + lines[i], after, ending);
    MiddleStands(doc, from, to, before, lines[i], after + ending, from + |before|);
  }

  lemma {:induction false} MiddleStands(doc: string, from: nat, to: nat, before: string, part: string, after: string, start: nat)
    requires from <= to <= |doc| && doc[from..to] == before + part + after && start == from + |before|
    ensures start + |part| <= to && doc[start..start + |part|] == part
  {
    SliceOfSlice(doc, from, to, before, part, after);
  }

  lemma {:induction false} RowTextStands(doc: string, layout: Layout, i: nat)
    requires Faithful(doc, layout) && !layout.table.crlf && i < |layout.rows|
    ensures var content := ContentFrom(layout.rows, layout.from, i);
            && 0 <= content <= layout.rows[i].to <= |doc|
            && doc[content..layout.rows[i].to] == SerializeRow(Rows(layout.table)[i])
  {
    var t := layout.table;
    var lines := SerializeRows(Rows(t));
    ContentIsPartStart(layout.rows, Rows(t), layout.from, t.columnCount, i);
    RowEnds(layout.rows, Rows(t), layout.from, t.columnCount, i);
    assert lines[i] == SerializeRow(Rows(t)[i]);
    PartStands(doc, layout.from, layout.to, lines, i, if t.trailingNewline then "\n" else "");
  }

  lemma RowEnds(rows: seq<RowLayout>, source: seq<Row>, from: nat, n: nat, i: nat)
    requires LaidOut(rows, source, from, n) && i < |rows|
    ensures rows[i].to == ContentFrom(rows, from, i) + |SerializeRow(source[i])|
  {
    assert LaidOutRow(rows, source, from, n, i);
  }

  lemma {:induction false} ExplicitRowsParsed(source: string, i: nat)
    requires '\r' !in source && ParseTable(source).Some?
    requires i < |Rows(ExplicitPart(ParseTable(source).value))|
    ensures var t := ExplicitPart(ParseTable(source).value);
            !t.crlf && ReadsBack(Rows(t)[i])
  {
    var t := ParseTable(source).value;
    ExplicitRows(t);
    ParsedParts(source);
    SourceReadsLines(source);
    ReadLinesClean(source);
    PrintParsedRow(ReadLines(source)[i]);
  }

  lemma {:induction false} RowsRead(doc: string, from: nat, to: nat, i: nat)
    requires EndsWithLine(doc, from, to) && '\r' !in doc && LayoutOf(doc, from, to).Some?
    requires i < |LayoutOf(doc, from, to).value.rows|
    ensures RowReads(doc, LayoutOf(doc, from, to).value, i)
  {
    LayoutFaithful(doc, from, to);
    ExplicitRowsParsed(doc[from..to], i);
    RowTextStands(doc, LayoutOf(doc, from, to).value, i);
  }

  // ---------------------------------------------------------------- what is let through

  /** The change stays inside cell `k` of the data row `i`. */
  predicate PermittedAt(layout: Layout, i: nat, k: nat, from: int, to: int) {
    && i < |layout.rows| && layout.rows[i].semanticIndex.Some?
    && k < |layout.rows[i].cells| && PermittedIn(layout.rows[i].cells[k], from, to)
  }

  /** A change that is not blocked stays inside one cell of one data row. */
  lemma {:induction false} LetThroughIsPermitted(doc: string, layout: Layout, terminator: Option<Span>, from: int, to: int, insert: string)
    returns (i: nat, k: nat)
    requires Faithful(doc, layout) && layout.from <= from <= to && (from == to ==> insert != "")
    requires to <= layout.to - if layout.table.trailingNewline then 1 else 0
    requires !Blocked(layout, terminator, from, to, insert)
    ensures PermittedAt(layout, i, k, from, to)
  {
    if from < to {
      i, k := LetThroughLiesInOneCell(layout.rows, Rows(layout.table), layout.from, layout.to, layout.table.columnCount,
                                      terminator, from, to);
    } else {
      i := RowAt(layout.rows, from);
      var c :| 0 <= c < |layout.rows[i].cells| && Caret.EditableContains(layout.rows[i].cells[c], from);
      k := c;
    }
  }

  /** A permitted change lies in the text of its cell. */
  lemma {:induction false} PermittedOffsets(doc: string, layout: Layout, i: nat, k: nat, from: int, to: int)
    requires Faithful(doc, layout) && PermittedAt(layout, i, k, from, to)
    ensures var row := Rows(layout.table)[i]; var content := ContentFrom(layout.rows, layout.from, i);
            InCellText(row, k, from - content, to - content)
  {
    var row := Rows(layout.table)[i];
    var n := layout.table.columnCount;
    var content := ContentFrom(layout.rows, layout.from, i);
    assert LaidOutRow(layout.rows, Rows(layout.table), layout.from, n, i);
    RowEndInside(row, layout.rows[i].from, layout.rows[i].to, content);
    LaidOutCell(row, layout.rows[i].to, SemanticIndex(i), content, n, k);
    if k < |row.cells| {
      PermittedInside(Raw(row.cells[k]), Stretch(row, content, k).from, RowIndexOf(SemanticIndex(i)), k, from, to);
    }
  }

  /** The line of `row` with the characters `from..to - 1` replaced is read as `row` with nothing but the
      text of cell `k` changed, and it is changed to what the replacement makes of it. */
  predicate ChangesOneCell(line: string, row: Row, k: nat, from: int, to: int, insert: string) {
    && InCellText(row, k, from, to) && 0 <= from <= to <= |line|
    && ReadWith(row, k, RawAfter(row, k, from, to, insert), line[..from] + insert + line[to..])
  }

  /** The text of the cell stays closed. */
  predicate StaysClosed(row: Row, k: nat, from: int, to: int, insert: string) {
    InCellText(row, k, from, to) && Closed(RawAfter(row, k, from, to, insert))
  }

  /** The change is a change of one cell exactly when that cell stays closed. */
  predicate ExactlyClosed(row: Row, k: nat, from: int, to: int, insert: string) {
    ChangesOneCell(SerializeRow(row), row, k, from, to, insert) <==> StaysClosed(row, k, from, to, insert)
  }

  lemma {:induction false} ChangeIsExact(row: Row, k: nat, from: int, to: int, insert: string)
    requires ReadsBack(row) && InCellText(row, k, from, to) && '\n' !in insert
    requires row.leadingPipe && row.trailingPipe && (AllSpace(row.prefix) || OneLine(insert))
    ensures ExactlyClosed(row, k, from, to, insert)
  {
    ChangeInCellExact(SerializeRow(row), row, k, from, to, insert);
  }

  /** A change at the same place of the document, counted from the start of its row. */
  predicate AtOffset(layout: Layout, i: nat, position: int, offset: int) {
    i < |layout.rows| && offset == position - ContentFrom(layout.rows, layout.from, i)
  }

  /** Where a change that is not blocked stands: inside the text of one cell of one data row. */
  lemma {:induction false} LetThroughLocated(doc: string, nodeFrom: nat, nodeTo: nat, terminator: Option<Span>,
                                             from: int, to: int, insert: string)
    returns (i: nat, k: nat, start: int, end: int)
    requires EndsWithLine(doc, nodeFrom, nodeTo) && '\r' !in doc && LayoutOf(doc, nodeFrom, nodeTo).Some?
    requires var layout := LayoutOf(doc, nodeFrom, nodeTo).value;
             && nodeFrom <= from <= to <= layout.to - (if layout.table.trailingNewline then 1 else 0)
             && (from == to ==> insert != "")
             && !Blocked(layout, terminator, from, to, insert)
    ensures var layout := LayoutOf(doc, nodeFrom, nodeTo).value;
            && PermittedAt(layout, i, k, from, to) && RowReads(doc, layout, i)
            && AtOffset(layout, i, from, start) && AtOffset(layout, i, to, end)
            && InCellText(Rows(layout.table)[i], k, start, end)
  {
    var layout := LayoutOf(doc, nodeFrom, nodeTo).value;
    LayoutFaithful(doc, nodeFrom, nodeTo);
    i, k := LetThroughIsPermitted(doc, layout, terminator, from, to, insert);
    RowsRead(doc, nodeFrom, nodeTo, i);
    PermittedOffsets(doc, layout, i, k, from, to);
    start, end := from - ContentFrom(layout.rows, layout.from, i), to - ContentFrom(layout.rows, layout.from, i);
  }

  /** In a block quote or list item the text must not hold a line terminator. */
  predicate TextFits(row: Row, insert: string) {
    AllSpace(row.prefix) || OneLine(insert)
  }

  predicate TextFitsAll(t: Table, insert: string) {
    forall i :: 0 <= i < |Rows(t)| ==> TextFits(Rows(t)[i], insert)
  }

  /** In any document, a change of a table that the protection does not block stays inside one cell of one
      data row, and its line is read with a change of that cell alone exactly when the text of the cell stays closed. */
  lemma {:induction false} LetThroughChangesOneCell(doc: string, nodeFrom: nat, nodeTo: nat, terminator: Option<Span>,
                                                    from: int, to: int, insert: string)
    returns (i: nat, k: nat, start: int, end: int)
    requires EndsWithLine(doc, nodeFrom, nodeTo) && '\r' !in doc && LayoutOf(doc, nodeFrom, nodeTo).Some?
    requires var layout := LayoutOf(doc, nodeFrom, nodeTo).value;
             && OuterPipes(layout.table) && '\n' !in insert && TextFitsAll(layout.table, insert)
             && nodeFrom <= from <= to <= layout.to - (if layout.table.trailingNewline then 1 else 0)
             && (from == to ==> insert != "")
             && !Blocked(layout, terminator, from, to, insert)
    ensures var layout := LayoutOf(doc, nodeFrom, nodeTo).value;
            && PermittedAt(layout, i, k, from, to) && RowReads(doc, layout, i)
            && AtOffset(layout, i, from, start) && AtOffset(layout, i, to, end)
            && ExactlyClosed(Rows(layout.table)[i], k, start, end, insert)
  {
    i, k, start, end := LetThroughLocated(doc, nodeFrom, nodeTo, terminator, from, to, insert);
    RowChangeExact(LayoutOf(doc, nodeFrom, nodeTo).value.table, i, k, start, end, insert);
  }

  lemma {:induction false} RowChangeExact(t: Table, i: nat, k: nat, start: int, end: int, insert: string)
    requires OuterPipes(t) && TextFitsAll(t, insert) && '\n' !in insert
    requires i < |Rows(t)| && ReadsBack(Rows(t)[i]) && InCellText(Rows(t)[i], k, start, end)
    ensures ExactlyClosed(Rows(t)[i], k, start, end, insert)
  {
    assert TextFits(Rows(t)[i], insert);
    ChangeIsExact(Rows(t)[i], k, start, end, insert);
  }
}
