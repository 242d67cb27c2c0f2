/** Which sources the parser accepts, and what alignment a delimiter cell gives its column. */
module ParsingRules {
  import opened Text
  import opened Lines
  import opened MarkdownTable
  import opened TableEdits
  import opened TableText

  /** At least three dashes, with a colon on the sides that the alignment asks for. */
  predicate SpellsMarker(text: string, a: Alignment, dashes: nat) {
    && dashes >= 3
    && text == (if a == Left || a == Center then ":" else "") + Repeated('-', dashes) + (if a == Right || a == Center then ":" else "")
  }

  lemma MarkerAccepted(text: string, a: Alignment, dashes: nat)
    requires SpellsMarker(text, a, dashes)
    ensures AlignmentOf(text) == Some(a)
  {
    var left := if a == Left || a == Center then ":" else "";
    assert forall i :: |left| <= i < |left| + dashes ==> text[i] == '-';
  }

  lemma MarkerIs(text: string) returns (dashes: nat)
    requires AlignmentOf(text).Some?
    ensures SpellsMarker(text, AlignmentOf(text).value, dashes)
  {
    var from := if text[0] == ':' then 1 else 0;
    var to := if text[|text| - 1] == ':' then |text| - 1 else |text|;
    dashes := to - from;
    assert text == text[..from] + text[from..to] + text[to..];
    assert text[from..to] == Repeated('-', dashes);
  }

  /** A delimiter cell is accepted exactly if its trimmed text is at least three dashes with optional colons around;
      one or two dashes are refused. */
  lemma AlignmentExact(markdown: string, a: Alignment)
    ensures ParseAlignment(markdown) == Some(a) <==> exists dashes :: SpellsMarker(Trim(markdown), a, dashes)
  {
    if ParseAlignment(markdown) == Some(a) {
      var dashes := MarkerIs(Trim(markdown));
      assert SpellsMarker(Trim(markdown), a, dashes);
    }
    if dashes :| SpellsMarker(Trim(markdown), a, dashes) {
      MarkerAccepted(Trim(markdown), a, dashes);
    }
  }

  ghost predicate IsDelimiterCell(cell: Cell) {
    exists a, dashes :: SpellsMarker(Trim(cell.markdown), a, dashes)
  }

  lemma DelimiterCellExact(cell: Cell)
    ensures IsDelimiterCell(cell) <==> ParseAlignment(cell.markdown).Some?
  {
    if ParseAlignment(cell.markdown).Some? {
      AlignmentExact(cell.markdown, ParseAlignment(cell.markdown).value);
    }
    if a, dashes :| SpellsMarker(Trim(cell.markdown), a, dashes) {
      AlignmentExact(cell.markdown, a);
    }
  }

  /** Two lines at least, none of them empty, and a second line of delimiter cells, as many as the header has cells. */
  ghost predicate LooksLikeTable(lines: seq<string>) {
    && |lines| >= 2 && (forall i :: 0 <= i < |lines| ==> lines[i] != "")
    && |ParseRow(lines[1]).cells| == |ParseRow(lines[0]).cells|
    && forall j :: 0 <= j < |ParseRow(lines[1]).cells| ==> IsDelimiterCell(ParseRow(lines[1]).cells[j])
  }

  /** The parser accepts exactly these sources. */
  lemma {:induction false} AcceptedExactly(source: string)
    ensures ParseTable(source).Some? <==> LooksLikeTable(ReadLines(source))
  {
    var lines := ReadLines(source);
    if |lines| >= 2 {
      var cells := ParseRow(lines[1]).cells;
      assert ParseRows(lines)[1].cells == cells;
      forall j | 0 <= j < |cells| ensures IsDelimiterCell(cells[j]) <==> ParseAlignment(cells[j].markdown).Some? {
        DelimiterCellExact(cells[j]);
      }
    }
  }

  /** The column count is that of the longest row. */
  predicate IsLongest(rows: seq<Row>, n: nat) {
    && (forall i :: 0 <= i < |rows| ==> |rows[i].cells| <= n)
    && (rows != [] ==> exists i :: 0 <= i < |rows| && |rows[i].cells| == n)
  }

  lemma {:induction false} MaxIsLongest(rows: seq<Row>)
    ensures IsLongest(rows, MaxCells(rows))
  {
    if rows != [] {
      MaxIsLongest(rows[1..]);
      assert rows == [rows[0]] + rows[1..];
      if |rows| > 1 && |rows[0].cells| <= MaxCells(rows[1..]) {
        var i :| 0 <= i < |rows[1..]| && |rows[1..][i].cells| == MaxCells(rows[1..]);
        assert |rows[i + 1].cells| == MaxCells(rows);
      } else {
        assert |rows[0].cells| == MaxCells(rows);
      }
    }
  }

  lemma {:induction false} BuiltAlignment(crlf: bool, trailing: bool, rows: seq<Row>, j: nat)
    requires BuildTable(crlf, trailing, rows).Some?
    ensures var t := BuildTable(crlf, trailing, rows).value;
            && t.columnCount == MaxCells(rows) == |t.alignments| && t.delimiter == rows[1] && |rows[1].cells| <= t.columnCount
            && (j < |rows[1].cells| ==> ParseAlignment(rows[1].cells[j].markdown) == Some(t.alignments[j]))
            && (|rows[1].cells| <= j < t.columnCount ==> t.alignments[j] == Unaligned)
  {
  }

  /** Every column has the alignment that its delimiter cell spells, and none if the delimiter row has no cell for it. */
  lemma {:induction false} ParsedAlignment(source: string, j: nat)
    requires ParseTable(source).Some?
    ensures var t := ParseTable(source).value;
            && IsLongest(Rows(t), t.columnCount) && |t.alignments| == t.columnCount && |t.delimiter.cells| <= t.columnCount
            && (j < |t.delimiter.cells| ==> exists dashes :: SpellsMarker(Trim(t.delimiter.cells[j].markdown), t.alignments[j], dashes))
            && (|t.delimiter.cells| <= j < t.columnCount ==> t.alignments[j] == Unaligned)
  {
    var t := ParseTable(source).value;
    ParsedParts(source);
    MaxIsLongest(Rows(t));
    BuiltAlignment(HasCrlf(source), EndsWithLf(source), ParseRows(ReadLines(source)), j);
    if j < |t.delimiter.cells| {
      AlignmentExact(t.delimiter.cells[j].markdown, t.alignments[j]);
    }
  }
}
