/** The pipe table of the editor: its data, its parser and its printer. */
module MarkdownTable {
  import opened Text
  import opened Lines
  import opened Containers

  datatype Alignment = Unaligned | Left | Center | Right
  datatype Cell = Cell(markdown: string, before: string, after: string)
  datatype Row = Row(prefix: string, leadingPipe: bool, trailingPipe: bool, suffix: string, cells: seq<Cell>)
  datatype Table = Table(crlf: bool, trailingNewline: bool, header: Row, delimiter: Row, body: seq<Row>,
                         alignments: seq<Alignment>, columnCount: nat)

  // ---------------------------------------------------------------- parsing

  function ParseCell(source: string): Cell {
    var lead, end := LeadingSpace(source), TrimEnd(source);
    Cell(source[lead..end], source[..lead], source[end..])
  }

  function ParseCells(segments: seq<string>): (cells: seq<Cell>)
    ensures |cells| == |segments|
  {
    seq(|segments|, i requires 0 <= i < |segments| => ParseCell(segments[i]))
  }

  predicate IsBarePipe(s: string, i: int) {
    0 <= i < |s| && s[i] == '|' && !OddTail(s[..i])
  }

  datatype Leading = Leading(prefix: string, present: bool, inner: string)
  datatype Trailing = Trailing(cells: string, present: bool, suffix: string)

  /** The leading pipe, if the first visible character is one; white space before it joins the prefix. */
  function CutLeadingPipe(split: Prefixed): Leading {
    var content := split.content;
    var first := LeadingSpace(content);
    if IsBarePipe(content, first)
    then Leading(split.prefix + content[..first], true, content[first + 1..])
    else Leading(split.prefix, false, content)
  }

  /** The trailing pipe, if the last visible character is one; what follows is the suffix. */
  function CutTrailingPipe(inner: string): Trailing {
    var last := |inner| - TrailingSpace(inner) - 1;
    if IsBarePipe(inner, last)
    then Trailing(inner[..last], true, inner[last + 1..])
    else Trailing(inner, false, "")
  }

  function ParseRow(line: string): Row {
    var head := CutLeadingPipe(SplitPrefix(line));
    var tail := CutTrailingPipe(head.inner);
    Row(head.prefix, head.present, tail.present, tail.suffix, ParseCells(Split(tail.cells)))
  }

  function ParseRows(lines: seq<string>): (rows: seq<Row>)
    ensures |rows| == |lines|
  {
    seq(|lines|, i requires 0 <= i < |lines| => ParseRow(lines[i]))
  }

  function ParseAlignment(markdown: string): Option<Alignment> {
    AlignmentOf(Trim(markdown))
  }

  /** The delimiter cell pattern `^(:)?(-{3,})(:)?$`. */
  function AlignmentOf(t: string): Option<Alignment> {
    var left := t != "" && t[0] == ':';
    var from := if left then 1 else 0;
    var right := |t| > from && t[|t| - 1] == ':';
    var to := if right then |t| - 1 else |t|;
    if to - from < 3 || exists i :: from <= i < to && t[i] != '-' then None
    else Some(if left && right then Center else if left then Left else if right then Right else Unaligned)
  }

  function MaxCells(rows: seq<Row>): (n: nat)
    ensures forall i :: 0 <= i < |rows| ==> |rows[i].cells| <= n
  {
    if rows == [] then 0
    else
      var n := MaxCells(rows[1..]);
      assert forall i :: 1 <= i < |rows| ==> rows[i] == rows[1..][i - 1];
      if |rows[0].cells| > n then |rows[0].cells| else n
  }

  function ParsedAlignments(cells: seq<Cell>, columnCount: nat): seq<Alignment> {
    seq(columnCount, i requires 0 <= i < columnCount =>
      if i < |cells| then ParseAlignment(cells[i].markdown).GetOr(Unaligned) else Unaligned)
  }

  function BuildTable(crlf: bool, trailingNewline: bool, rows: seq<Row>): Option<Table> {
    if |rows| < 2 || |rows[1].cells| != |rows[0].cells|
       || (exists i :: 0 <= i < |rows[1].cells| && ParseAlignment(rows[1].cells[i].markdown) == None)
    then None
    else
      var columnCount := MaxCells(rows);
      Some(Table(crlf, trailingNewline, rows[0], rows[1], rows[2..],
                 ParsedAlignments(rows[1].cells, columnCount), columnCount))
  }

  function ParseTable(source: string): Option<Table> {
    var lines := ReadLines(source);
    if |lines| < 2 || (exists i :: 0 <= i < |lines| && lines[i] == "") then None
    else BuildTable(HasCrlf(source), EndsWithLf(source), ParseRows(lines))
  }

  // ---------------------------------------------------------------- printing

  function Raw(cell: Cell): string {
    cell.before + cell.markdown + cell.after
  }

  function Raws(cells: seq<Cell>): (r: seq<string>)
    ensures |r| == |cells|
  {
    seq(|cells|, i requires 0 <= i < |cells| => Raw(cells[i]))
  }

  function Pipe(present: bool): string {
    if present then "|" else ""
  }

  function SerializeRow(row: Row): string {
    row.prefix + Pipe(row.leadingPipe) + Join(Raws(row.cells), "|") + Pipe(row.trailingPipe) + row.suffix
  }

  /** All rows in the order of their lines. */
  function Rows(t: Table): seq<Row> {
    [t.header, t.delimiter] + t.body
  }

  function SerializeRows(rows: seq<Row>): (lines: seq<string>)
    ensures |lines| == |rows|
  {
    seq(|rows|, i requires 0 <= i < |rows| => SerializeRow(rows[i]))
  }

  function Ending(crlf: bool): string {
    if crlf then "\r\n" else "\n"
  }

  function SerializeTable(t: Table): string {
    Terminate(SerializeRows(Rows(t)), Ending(t.crlf), t.trailingNewline)
  }

  // ---------------------------------------------------------------- the meaning of a table

  /** Header and body rows, without the delimiter row. */
  function SemanticRows(t: Table): (rows: seq<Row>)
    ensures |rows| == 1 + |t.body|
  {
    [t.header] + t.body
  }

  /** The text of a cell; a cell that a short row lacks reads as empty. */
  function CellText(row: Row, column: nat): string {
    if column < |row.cells| then row.cells[column].markdown else ""
  }

  function RowTexts(row: Row, columnCount: nat): (texts: seq<string>)
    ensures |texts| == columnCount
  {
    seq(columnCount, j requires 0 <= j < columnCount => CellText(row, j))
  }

  function GridOf(rows: seq<Row>, columnCount: nat): (grid: seq<seq<string>>)
    ensures |grid| == |rows|
    ensures forall i :: 0 <= i < |grid| ==> |grid[i]| == columnCount
  {
    seq(|rows|, i requires 0 <= i < |rows| => RowTexts(rows[i], columnCount))
  }

  /** The grid of cell texts. */
  function Grid(t: Table): (grid: seq<seq<string>>)
    ensures |grid| == 1 + |t.body|
    ensures forall i :: 0 <= i < |grid| ==> |grid[i]| == t.columnCount
  {
    GridOf(SemanticRows(t), t.columnCount)
  }

  /** Two tables that a reader of the document cannot tell apart. */
  predicate SameMeaning(a: Table, b: Table) {
    Grid(a) == Grid(b) && a.alignments == b.alignments && a.columnCount == b.columnCount
  }

  /** Every row has at most `columnCount` cells. */
  predicate Shaped(t: Table) {
    && t.columnCount > 0 && |t.alignments| == t.columnCount
    && forall i :: 0 <= i < |Rows(t)| ==> |Rows(t)[i].cells| <= t.columnCount
  }

  /** Every row has one cell per column. */
  predicate Rectangular(t: Table) {
    forall i :: 0 <= i < |Rows(t)| ==> |Rows(t)[i].cells| == t.columnCount
  }

  /** Every row starts and ends with a pipe. */
  predicate OuterPipes(t: Table) {
    forall i :: 0 <= i < |Rows(t)| ==> Rows(t)[i].leadingPipe && Rows(t)[i].trailingPipe
  }
}
