/** The layout of a table node in a document. The editor keeps line feeds only, so the document
    has no carriage return. */
module DocumentLayout {
  import opened Seqs
  import opened Text
  import opened Lines
  import opened MarkdownTable
  import opened TableText
  import opened TableEdits
  import opened TableLayout

  // ---------------------------------------------------------------- the layout

  datatype Layout = Layout(from: nat, to: nat, table: Table, rows: seq<RowLayout>)

  predicate IsExplicitBodyRow(row: Row) {
    row.leadingPipe || row.trailingPipe || |row.cells| > 1
  }

  /** Index of the first line of prose, or the number of rows. */
  function FirstProseRow(body: seq<Row>): (k: nat)
    ensures k <= |body| && forall i :: 0 <= i < k ==> IsExplicitBodyRow(body[i])
    ensures k < |body| ==> !IsExplicitBodyRow(body[k])
  {
    if body == [] || !IsExplicitBodyRow(body[0]) then 0
    else
      var k := 1 + FirstProseRow(body[1..]);
      assert forall i :: 1 <= i < k ==> body[i] == body[1..][i - 1];
      k
  }

  /** Lines of prose that the syntax tree counts as rows are cut off. */
  function ExplicitPart(t: Table): Table {
    var k := FirstProseRow(t.body);
    if k == |t.body| then t else t.(body := t.body[..k], trailingNewline := false)
  }

  /** Where row `k` is looked up: after the end of the line before it. */
  function RowPosition(doc: string, nodeFrom: nat, k: nat): (p: nat)
    requires nodeFrom <= |doc|
    ensures p <= |doc|
  {
    if k == 0 then nodeFrom else Min(LineTo(doc, RowPosition(doc, nodeFrom, k - 1)) + 1, |doc|)
  }

  function RowInDocument(doc: string, nodeFrom: nat, row: Row, k: nat, columnCount: nat): RowLayout
    requires nodeFrom <= |doc|
  {
    var p := RowPosition(doc, nodeFrom, k);
    var from := LineFrom(doc, p);
    LayoutRow(row, from, LineTo(doc, p), SemanticIndex(k), if k == 0 then nodeFrom else from, columnCount)
  }

  function RowsInDocument(doc: string, nodeFrom: nat, rows: seq<Row>, columnCount: nat): (r: seq<RowLayout>)
    requires nodeFrom <= |doc|
    ensures |r| == |rows|
  {
    seq(|rows|, k requires 0 <= k < |rows| => RowInDocument(doc, nodeFrom, rows[k], k, columnCount))
  }

  lemma RowsInDocumentSnoc(doc: string, nodeFrom: nat, rows: seq<Row>, columnCount: nat, k: nat)
    requires nodeFrom <= |doc| && k < |rows|
    ensures RowsInDocument(doc, nodeFrom, rows[..k + 1], columnCount)
         == RowsInDocument(doc, nodeFrom, rows[..k], columnCount) + [RowInDocument(doc, nodeFrom, rows[k], k, columnCount)]
  {
    var longer, shorter := rows[..k + 1], rows[..k];
    var all, most := RowsInDocument(doc, nodeFrom, longer, columnCount), RowsInDocument(doc, nodeFrom, shorter, columnCount);
    forall i | 0 <= i < k ensures all[i] == most[i] {
      assert longer[i] == shorter[i];
    }
    assert all[..k] == most && all[k] == RowInDocument(doc, nodeFrom, rows[k], k, columnCount);
  }

  function LayoutOfTable(doc: string, from: nat, t: Table): Layout
    requires from <= |doc|
  {
    Layout(from, from + |SerializeTable(t)|, t, RowsInDocument(doc, from, Rows(t), t.columnCount))
  }

  function LayoutOf(doc: string, from: nat, to: nat): Option<Layout>
    requires from <= to <= |doc|
  {
    match ParseTable(doc[from..to])
    case None => None
    case Some(parsed) => Some(LayoutOfTable(doc, from, ExplicitPart(parsed)))
  }

  /** The loop of tableLayout: each row is looked up on the line after the previous one. */
  method PlaceRows(doc: string, from: nat, sourceRows: seq<Row>, columnCount: nat) returns (rows: seq<RowLayout>)
    requires from <= |doc|
    ensures rows == RowsInDocument(doc, from, sourceRows, columnCount)
  {
    rows := [];
    var lineFrom := from;
    for physicalIndex := 0 to |sourceRows|
      invariant Min(lineFrom, |doc|) == RowPosition(doc, from, physicalIndex)
      invariant rows == RowsInDocument(doc, from, sourceRows[..physicalIndex], columnCount)
    {
      var position := Min(lineFrom, |doc|);
      var start, end := LineFrom(doc, position), LineTo(doc, position);
      var row := BuildRowLayout(sourceRows[physicalIndex], start, end, SemanticIndex(physicalIndex),
                                if physicalIndex == 0 then from else start, columnCount);
      RowsInDocumentSnoc(doc, from, sourceRows, columnCount, physicalIndex);
      rows := rows + [row];
      lineFrom := end + 1;
    }
    assert sourceRows[..|sourceRows|] == sourceRows;
  }

  method LayOutTable(doc: string, from: nat, table: Table) returns (layout: Layout)
    requires from <= |doc|
    ensures layout == LayoutOfTable(doc, from, table)
  {
    var rows := PlaceRows(doc, from, Rows(table), table.columnCount);
    layout := Layout(from, from + |SerializeTable(table)|, table, rows);
  }

  method TableLayoutInDocument(doc: string, from: nat, to: nat) returns (layout: Option<Layout>)
    requires from <= to <= |doc|
    ensures layout == LayoutOf(doc, from, to)
  {
    match ParseTable(doc[from..to])
    case None => layout := None;
    case Some(parsed) =>
      var found := LayOutTable(doc, from, ExplicitPart(parsed));
      layout := Some(found);
  }

  // ---------------------------------------------------------------- the lines of a node

  /** A node that ends at the end of a line, or after the line feed. */
  predicate EndsWithLine(doc: string, from: nat, to: nat) {
    from <= to <= |doc| && (to == |doc| || doc[to] == '\n' || (to > from && doc[to - 1] == '\n'))
  }

  /** `lines` stand in the document from `from` on, one per line. */
  predicate StandAt(doc: string, from: nat, lines: seq<string>, to: nat) {
    && from <= to <= |doc| && lines != []
    && doc[from..to] == Join(lines, "\n") && (to == |doc| || doc[to] == '\n')
    && forall i :: 0 <= i < |lines| ==> '\n' !in lines[i]
  }

  /** Line `k` of the node is a line of the document. */
  predicate LineStands(doc: string, from: nat, lines: seq<string>, k: nat)
    requires k < |lines|
  {
    var start := from + PartStart(lines, k);
    var end := start + |lines[k]|;
    && end <= |doc|
    && (k > 0 ==> LineFrom(doc, start) == start)
    && LineTo(doc, start) == end
    && (k + 1 < |lines| ==> end < |doc|)
  }

  lemma SliceOfSlice(doc: string, from: nat, to: nat, before: string, part: string, after: string)
    requires from <= to <= |doc| && doc[from..to] == before + part + after
    ensures var start := from + |before|; var end := start + |part|;
            && end + |after| == to && doc[start..end] == part
            && (after != "" ==> doc[end] == after[0])
            && (before != "" ==> doc[start - 1] == before[|before| - 1])
  {
    var start := from + |before|;
    var end := start + |part|;
    assert |doc[from..to]| == |before| + |part| + |after|;
    forall i | 0 <= i < |part| ensures doc[start..end][i] == part[i] {
      assert doc[from..to][|before| + i] == part[i];
    }
    if after != "" {
      assert doc[from..to][|before| + |part|] == after[0];
    }
    if before != "" {
      assert doc[from..to][|before| - 1] == before[|before| - 1];
    }
  }

  lemma {:induction false} LinesStand(doc: string, from: nat, lines: seq<string>, to: nat, k: nat)
    requires StandAt(doc, from, lines, to) && k < |lines|
    ensures LineStands(doc, from, lines, k)
  {
    var before, after := TextBefore(lines, k, "\n"), TextAfter(lines, k, "\n");
    JoinAround(lines, k, "\n", lines[k]);
    SliceOfSlice(doc, from, to, before, lines[k], after);
    var start := from + PartStart(lines, k);
    LineToIs(doc, start, start + |lines[k]|);
  }

  lemma {:induction false} RowPositionIs(doc: string, from: nat, lines: seq<string>, to: nat, k: nat)
    requires StandAt(doc, from, lines, to) && k < |lines|
    ensures RowPosition(doc, from, k) == from + PartStart(lines, k)
    decreases k
  {
    if k > 0 {
      RowPositionIs(doc, from, lines, to, k - 1);
      LinesStand(doc, from, lines, to, k - 1);
    }
  }

  /** The layout puts row `k` on line `k` of the node. */
  predicate RowOnLine(doc: string, from: nat, lines: seq<string>, row: RowLayout, k: nat)
    requires k < |lines|
  {
    && row.to == from + PartStart(lines, k) + |lines[k]|
    && (if k == 0 then row.from <= from else row.from == from + PartStart(lines, k))
  }

  lemma {:induction false} RowStands(doc: string, from: nat, lines: seq<string>, to: nat, rows: seq<Row>, n: nat, k: nat)
    requires StandAt(doc, from, lines, to) && k < |rows| <= |lines|
    ensures var row := RowsInDocument(doc, from, rows, n)[k];
            && RowOnLine(doc, from, lines, row, k)
            && IsLayout(row, rows[k], SemanticIndex(k), from + PartStart(lines, k), n)
  {
    RowPositionIs(doc, from, lines, to, k);
    LinesStand(doc, from, lines, to, k);
  }

  lemma FitsItsLine(doc: string, from: nat, lines: seq<string>, row: Row, laid: RowLayout, k: nat)
    requires k < |lines| && RowOnLine(doc, from, lines, laid, k) && SerializeRow(row) == lines[k] && row.cells != []
    ensures FitsLine(row, laid.from, laid.to, from + PartStart(lines, k))
  {
  }

  /** The rows of the table are the first lines of the node. */
  predicate RowsAreLines(rows: seq<Row>, lines: seq<string>) {
    && |rows| <= |lines|
    && forall i :: 0 <= i < |rows| ==> SerializeRow(rows[i]) == lines[i] && rows[i].cells != [] && lines[i] != ""
  }

  /** The layout of a row whose text stands at `contentFrom` in its line. */
  predicate LaidOutAt(laid: RowLayout, row: Row, k: nat, contentFrom: int, n: nat) {
    && FitsLine(row, laid.from, laid.to, contentFrom)
    && IsLayout(laid, row, SemanticIndex(k), contentFrom, n)
  }

  /** Row `k` is laid out where line `k` starts. */
  predicate LaidOutOnLines(laid: seq<RowLayout>, rows: seq<Row>, from: nat, lines: seq<string>, n: nat) {
    && |laid| == |rows| <= |lines|
    && forall k :: 0 <= k < |laid| ==> LaidOutAt(laid[k], rows[k], k, from + PartStart(lines, k), n)
  }

  lemma RowStandsAt(doc: string, from: nat, lines: seq<string>, to: nat, rows: seq<Row>, n: nat, k: nat)
    requires StandAt(doc, from, lines, to) && RowsAreLines(rows, lines) && k < |rows|
    ensures LaidOutAt(RowsInDocument(doc, from, rows, n)[k], rows[k], k, from + PartStart(lines, k), n)
  {
    RowStands(doc, from, lines, to, rows, n, k);
    FitsItsLine(doc, from, lines, rows[k], RowsInDocument(doc, from, rows, n)[k], k);
  }

  lemma RowsStand(doc: string, from: nat, lines: seq<string>, to: nat, rows: seq<Row>, n: nat)
    requires StandAt(doc, from, lines, to) && RowsAreLines(rows, lines)
    ensures LaidOutOnLines(RowsInDocument(doc, from, rows, n), rows, from, lines, n)
  {
    forall k | 0 <= k < |rows|
      ensures LaidOutAt(RowsInDocument(doc, from, rows, n)[k], rows[k], k, from + PartStart(lines, k), n)
    {
      RowStandsAt(doc, from, lines, to, rows, n, k);
    }
  }

  lemma RowLaidOut(doc: string, from: nat, lines: seq<string>, to: nat, rows: seq<Row>, n: nat, i: nat)
    requires StandAt(doc, from, lines, to) && RowsAreLines(rows, lines) && i < |rows|
    ensures LaidOutRow(RowsInDocument(doc, from, rows, n), rows, from, n, i)
  {
    RowStands(doc, from, lines, to, rows, n, i);
    FitsItsLine(doc, from, lines, rows[i], RowsInDocument(doc, from, rows, n)[i], i);
    if i + 1 < |rows| {
      RowStands(doc, from, lines, to, rows, n, i + 1);
    }
  }

  lemma LastRowEnd(doc: string, from: nat, lines: seq<string>, to: nat, rows: seq<Row>, n: nat)
    requires StandAt(doc, from, lines, to) && RowsAreLines(rows, lines) && rows != []
    ensures RowsInDocument(doc, from, rows, n)[|rows| - 1].to == from + PartStart(lines, |rows|) - 1
  {
    RowStands(doc, from, lines, to, rows, n, |rows| - 1);
  }

  lemma {:induction false} RowsLaidOut(doc: string, from: nat, lines: seq<string>, to: nat, rows: seq<Row>, n: nat)
    requires StandAt(doc, from, lines, to) && RowsAreLines(rows, lines) && |rows| >= 2
    ensures LaidOut(RowsInDocument(doc, from, rows, n), rows, from, n)
    ensures RowsInDocument(doc, from, rows, n)[|rows| - 1].to == from + PartStart(lines, |rows|) - 1
  {
    var laid := RowsInDocument(doc, from, rows, n);
    LastRowEnd(doc, from, lines, to, rows, n);
    forall i | 0 <= i < |laid| ensures LaidOutRow(laid, rows, from, n, i) {
      RowLaidOut(doc, from, lines, to, rows, n, i);
    }
  }

  // ---------------------------------------------------------------- from the parser to the layout

  lemma NoReturnEndings(source: string)
    requires '\r' !in source
    ensures !HasCrlf(source) && UniformEndings(source)
  {
  }

  /** A table that was read, line by line, from a source with line feeds only. */
  predicate ReadFrom(t: Table, lines: seq<string>, source: string) {
    && RowsAreLines(Rows(t), lines) && |Rows(t)| == |lines|
    && (forall i :: 0 <= i < |lines| ==> '\n' !in lines[i])
    && !t.crlf && SerializeTable(t) == source && (t.trailingNewline <==> EndsWithLf(source))
  }

  lemma ParsedLine(line: string)
    ensures ParseRow(line).cells != [] && SerializeRow(ParseRow(line)) == line
  {
    PrintParsedRow(line);
  }

  lemma SourceReadsLines(source: string)
    requires '\r' !in source && ParseTable(source).Some?
    ensures ReadFrom(ParseTable(source).value, ReadLines(source), source)
  {
    var lines := ReadLines(source);
    NoReturnEndings(source);
    ParsedParts(source);
    PrintParsedTable(source);
    ReadLinesClean(source);
    assert forall i :: 0 <= i < |lines| ==> lines[i] != "";
    forall i | 0 <= i < |lines| ensures SerializeRow(ParseRows(lines)[i]) == lines[i] && ParseRows(lines)[i].cells != [] {
      ParsedLine(lines[i]);
    }
  }

  lemma ReadLinesStand(doc: string, from: nat, to: nat, t: Table, lines: seq<string>) returns (end: nat)
    requires EndsWithLine(doc, from, to) && ReadFrom(t, lines, doc[from..to])
    ensures StandAt(doc, from, lines, end) && to == end + if t.trailingNewline then 1 else 0
  {
    end := if t.trailingNewline then to - 1 else to;
    assert SerializeRows(Rows(t)) == lines;
    TrailingStands(doc, from, to, Join(lines, "\n"), t.trailingNewline);
  }

  lemma TrailingStands(doc: string, from: nat, to: nat, text: string, trailing: bool)
    requires EndsWithLine(doc, from, to) && (trailing <==> EndsWithLf(doc[from..to]))
    requires text + (if trailing then "\n" else "") == doc[from..to]
    ensures var end := if trailing then to - 1 else to;
            from <= end && doc[from..end] == text && (end == |doc| || doc[end] == '\n')
  {
    CutTrailing(text, doc[from..to], trailing);
    var end := if trailing then to - 1 else to;
    assert doc[from..end] == doc[from..to][..end - from];
  }

  lemma CutTrailing(text: string, source: string, trailing: bool)
    requires text + (if trailing then "\n" else "") == source && (trailing <==> EndsWithLf(source))
    ensures text == if trailing then source[..|source| - 1] else source
  {
  }

  /** The text of the first rows is where the whole text starts. */
  lemma FirstLinesText(lines: seq<string>, k: nat)
    requires 0 < k < |lines|
    ensures Join(lines[..k], "\n") + "\n" + Join(lines[k..], "\n") == Join(lines, "\n")
    ensures |Join(lines[..k], "\n")| == PartStart(lines, k) - 1
  {
    TakeDrop(lines, k);
    JoinAppend(lines[..k], lines[k..], "\n");
    JoinLength(lines[..k], "\n");
    PartStartPrefix(lines, k, k);
  }

  lemma FirstRowsText(rows: seq<Row>, lines: seq<string>, k: nat)
    requires RowsAreLines(rows, lines) && |rows| == |lines| && k <= |rows|
    ensures SerializeRows(rows[..k]) == lines[..k] && RowsAreLines(rows[..k], lines)
  {
  }

  lemma ExplicitRows(t: Table)
    ensures var k := 2 + FirstProseRow(t.body);
            && k <= |Rows(t)| && Rows(ExplicitPart(t)) == Rows(t)[..k]
            && (k == |Rows(t)| ==> ExplicitPart(t) == t)
            && (k < |Rows(t)| ==> !ExplicitPart(t).trailingNewline)
            && ExplicitPart(t).crlf == t.crlf
  {
  }

  lemma SliceOfText(doc: string, from: nat, to: nat, text: string, rest: string)
    requires from <= to <= |doc| && doc[from..to] == text + "\n" + rest
    ensures doc[from..from + |text|] == text
  {
    assert text + "\n" + rest == "" + text + ("\n" + rest);
    SliceOfSlice(doc, from, to, "", text, "\n" + rest);
  }

  /** `text` stands in the document from `from` on. */
  predicate TextAt(doc: string, from: nat, text: string) {
    from + |text| <= |doc| && doc[from..from + |text|] == text
  }

  lemma CutText(doc: string, from: nat, end: nat, lines: seq<string>, k: nat)
    requires StandAt(doc, from, lines, end) && 0 < k < |lines|
    ensures TextAt(doc, from, Join(lines[..k], "\n")) && |Join(lines[..k], "\n")| == PartStart(lines, k) - 1
  {
    FirstLinesText(lines, k);
    SliceOfText(doc, from, end, Join(lines[..k], "\n"), Join(lines[k..], "\n"));
  }

  lemma WholeText(doc: string, from: nat, end: nat, lines: seq<string>, trailing: bool)
    requires StandAt(doc, from, lines, end) && (trailing ==> end < |doc|)
    ensures var text := Terminate(lines, "\n", trailing);
            TextAt(doc, from, text) && |text| == PartStart(lines, |lines|) - if trailing then 0 else 1
  {
    JoinLength(lines, "\n");
    if trailing {
      assert doc[from..end + 1] == doc[from..end] + [doc[end]];
    }
  }

  /** The printed table stands at the start of the node. */
  lemma ExplicitText(doc: string, from: nat, end: nat, t: Table, lines: seq<string>)
    requires ReadFrom(t, lines, SerializeTable(t)) && StandAt(doc, from, lines, end)
    requires t.trailingNewline ==> end < |doc|
    ensures var part := ExplicitPart(t);
            && TextAt(doc, from, SerializeTable(part))
            && |SerializeTable(part)| == PartStart(lines, |Rows(part)|) - (if part.trailingNewline then 0 else 1)
            && RowsAreLines(Rows(part), lines)
  {
    var k := |Rows(ExplicitPart(t))|;
    ExplicitRows(t);
    FirstRowsText(Rows(t), lines, k);
    if k < |lines| {
      CutText(doc, from, end, lines, k);
      assert SerializeTable(ExplicitPart(t)) == Join(lines[..k], "\n");
    } else {
      assert lines[..k] == lines;
      WholeText(doc, from, end, lines, t.trailingNewline);
    }
  }

  predicate Faithful(doc: string, layout: Layout) {
    var n := |layout.rows|;
    && LaidOut(layout.rows, Rows(layout.table), layout.from, layout.table.columnCount)
    && layout.from <= layout.to <= |doc| && doc[layout.from..layout.to] == SerializeTable(layout.table)
    && layout.to == layout.rows[n - 1].to + if layout.table.trailingNewline then 1 else 0
  }

  lemma AssembleFaithful(doc: string, from: nat, t: Table, rows: seq<RowLayout>, to: nat)
    requires LaidOut(rows, Rows(t), from, t.columnCount)
    requires from <= to <= |doc| && doc[from..to] == SerializeTable(t)
    requires to == rows[|rows| - 1].to + if t.trailingNewline then 1 else 0
    ensures Faithful(doc, Layout(from, to, t, rows))
  {
  }

  lemma LayoutOfRowsFaithful(doc: string, from: nat, end: nat, t: Table, lines: seq<string>, layout: Layout)
    requires StandAt(doc, from, lines, end) && RowsAreLines(Rows(t), lines)
    requires from <= layout.to <= |doc| && doc[from..layout.to] == SerializeTable(t)
    requires layout.to - from == PartStart(lines, |Rows(t)|) - if t.trailingNewline then 0 else 1
    requires layout == Layout(from, layout.to, t, RowsInDocument(doc, from, Rows(t), t.columnCount))
    ensures Faithful(doc, layout)
  {
    RowsLaidOut(doc, from, lines, end, Rows(t), t.columnCount);
    AssembleFaithful(doc, from, t, layout.rows, layout.to);
  }

  lemma {:induction false} PrintedTableFaithful(doc: string, from: nat, end: nat, t: Table, lines: seq<string>)
    requires StandAt(doc, from, lines, end) && RowsAreLines(Rows(t), lines) && TextAt(doc, from, SerializeTable(t))
    requires |SerializeTable(t)| == PartStart(lines, |Rows(t)|) - if t.trailingNewline then 0 else 1
    ensures Faithful(doc, LayoutOfTable(doc, from, t))
  {
    LayoutOfRowsFaithful(doc, from, end, t, lines, LayoutOfTable(doc, from, t));
  }

  lemma LayoutOfTableFaithful(doc: string, from: nat, end: nat, t: Table, lines: seq<string>)
    requires ReadFrom(t, lines, SerializeTable(t)) && StandAt(doc, from, lines, end)
    requires t.trailingNewline ==> end < |doc|
    ensures Faithful(doc, LayoutOfTable(doc, from, ExplicitPart(t)))
  {
    ExplicitText(doc, from, end, t, lines);
    PrintedTableFaithful(doc, from, end, ExplicitPart(t), lines);
  }

  /** The layout of any table node is faithful: its rows are laid out on the lines of the document that
      hold their text, and its range holds exactly the printed table. */
  lemma LayoutFaithful(doc: string, from: nat, to: nat)
    requires EndsWithLine(doc, from, to) && '\r' !in doc && LayoutOf(doc, from, to).Some?
    ensures Faithful(doc, LayoutOf(doc, from, to).value) && LayoutOf(doc, from, to).value.from == from
  {
    var source := doc[from..to];
    SourceReadsLines(source);
    var t, lines := ParseTable(source).value, ReadLines(source);
    var end := ReadLinesStand(doc, from, to, t, lines);
    LayoutOfTableFaithful(doc, from, end, t, lines);
  }

  /** In any document the protection of a table lets a nonempty range of its source through exactly when the
      range, apart from the final line feed, lies inside one drawn cell, and it misses the terminator. */
  lemma {:induction false} DocumentProtectionExact(doc: string, nodeFrom: nat, nodeTo: nat, terminator: Option<Span>, from: int, to: int)
    requires EndsWithLine(doc, nodeFrom, nodeTo) && '\r' !in doc && LayoutOf(doc, nodeFrom, nodeTo).Some?
    requires nodeFrom <= from < to <= LayoutOf(doc, nodeFrom, nodeTo).value.to
    ensures var layout := LayoutOf(doc, nodeFrom, nodeTo).value;
            && layout.rows != []
            && (SelectionTouches(layout.from, layout.to, layout.rows, terminator, from, to)
                <==> !InOneCellUpToEnd(layout.rows, from, to)
                     || (terminator.Some? && RangesOverlap(from, to, terminator.value.from, terminator.value.to)))
  {
    LayoutFaithful(doc, nodeFrom, nodeTo);
    FaithfulProtection(doc, LayoutOf(doc, nodeFrom, nodeTo).value, terminator, from, to);
  }

  lemma {:induction false} FaithfulProtection(doc: string, layout: Layout, terminator: Option<Span>, from: int, to: int)
    requires Faithful(doc, layout) && layout.from <= from < to <= layout.to
    ensures layout.rows != []
    ensures SelectionTouches(layout.from, layout.to, layout.rows, terminator, from, to)
       <==> !InOneCellUpToEnd(layout.rows, from, to)
            || (terminator.Some? && RangesOverlap(from, to, terminator.value.from, terminator.value.to))
  {
    ProtectionExactToEnd(layout.rows, Rows(layout.table), layout.from, layout.to, layout.table.columnCount, terminator, from, to);
  }
}
