/** Typing inside one cell: the edit stays in that cell exactly when the new text is closed. */
module CellEdit {
  import opened Seqs
  import opened Text
  import opened Containers
  import opened MarkdownTable
  import opened TableText
  import opened TableLayout

  // ---------------------------------------------------------------- the segment that an edited cell becomes

  lemma {:induction false} TrimBeforePipe(a: string, rest: string)
    ensures var s := a + "|" + rest;
            LeadingSpace(s) == LeadingSpace(a) && TrimEnd(s) > |a|
  {
    var s := a + "|" + rest;
    assert s[|a|] == '|';
    assert forall i :: 0 <= i < |a| ==> s[i] == a[i];
    LeadingUnique(s, LeadingSpace(a));
  }

  /** A pipe is not white space, so the text that goes on with one is longer. */
  lemma TrimLonger(a: string, rest: string)
    ensures |Trim(a + "|" + rest)| > |Trim(a)|
  {
    TrimBeforePipe(a, rest);
  }

  /** What follows an edited cell: the next pipe, or nothing if the trailing pipe was recognised. */
  predicate Follows(raw: string, rest: string) {
    if rest == "" then !OddTail(raw) else rest[0] == '|'
  }

  /** The text of the first segment is the text of the cell exactly when the cell is closed. */
  lemma FirstSegment(raw: string, rest: string)
    requires Follows(raw, rest)
    ensures Trim(Split(raw + rest)[0]) == Trim(raw) <==> Closed(raw)
  {
    var parts := Split(raw + rest);
    SplitParts(raw + rest);
    JoinTail(parts, "|");
    var first, after := parts[0], TextAfter(parts, 0, "|");
    if Closed(raw) {
      ClosedFirst(raw, rest);
    } else if |first| < |raw| {
      PrefixOf(first, after, raw, rest);
      TrimLonger(first, raw[|first| + 1..]);
    } else if |first| > |raw| {
      PrefixOf(raw, rest, first, after);
      TrimLonger(raw, first[|raw| + 1..]);
    } else {
      SameHead(first, after, raw, rest);
    }
  }

  lemma SameHead<T>(a: seq<T>, afterA: seq<T>, b: seq<T>, afterB: seq<T>)
    requires a + afterA == b + afterB && |a| == |b|
    ensures a == b && afterA == afterB
  {
    CutConcat(a, afterA);
    CutConcat(b, afterB);
  }

  lemma {:induction false} ClosedFirst(raw: string, rest: string)
    requires Closed(raw) && Follows(raw, rest)
    ensures Split(raw + rest)[0] == raw
  {
    SplitSealed(raw);
    if rest == "" {
      assert raw + rest == raw;
    } else {
      SplitCut(raw, rest[1..]);
      assert raw + "|" + rest[1..] == raw + rest;
    }
  }

  /** Two ways to cut a text at a pipe: the shorter head is followed by that pipe in the longer one. */
  lemma PrefixOf(short: string, afterShort: string, long: string, afterLong: string)
    requires short + afterShort == long + afterLong && |short| < |long|
    requires afterShort == "" || afterShort[0] == '|'
    ensures long == short + "|" + long[|short| + 1..]
  {
    var s := short + afterShort;
    assert s[|short|] == afterShort[0];
    assert s[|short|] == long[|short|];
    assert s[..|short|] == short && s[..|long|] == long;
    assert long[..|short|] == short;
  }

  // ---------------------------------------------------------------- the row around the cell

  function WithRaw(row: Row, j: nat, raw: string): Row
    requires j < |row.cells|
  {
    row.(cells := row.cells[j := ParseCell(raw)])
  }

  lemma WithRawRaws(row: Row, j: nat, raw: string)
    requires j < |row.cells|
    ensures Raws(WithRaw(row, j, raw).cells) == Raws(row.cells)[j := raw]
  {
    RawOfParsedCell(raw);
  }

  /** What the cells of a row with outer pipes are split from: without the trailing pipe if it is not escaped. */
  function CellSource(body: string, suffix: string): string {
    if OddTail(body) then body + "|" + suffix else body
  }

  lemma BodyRead(body: string, suffix: string)
    requires AllSpace(suffix)
    ensures CutTrailingPipe(body + "|" + suffix).cells == CellSource(body, suffix)
    ensures CutTrailingPipe(body + "|" + suffix).present <==> !OddTail(body)
  {
    var rest := body + "|" + suffix;
    if OddTail(body) {
      forall i | |body| < i < |rest| ensures IsSpace(rest[i]) {
        assert rest[i] == suffix[i - |body| - 1];
      }
      TrailingUnique(rest, |suffix|);
      assert rest[..|body|] == body;
    } else {
      BodyEnd(body, suffix);
    }
  }

  lemma ReadCellSource(row: Row, body: string)
    requires row.leadingPipe && row.trailingPipe && AllSpace(row.suffix)
    requires PrefixFits(row.prefix, body + "|" + row.suffix)
    ensures ParseRow(row.prefix + "|" + (body + "|" + row.suffix)).cells == ParseCells(Split(CellSource(body, row.suffix)))
  {
    var rest := body + "|" + row.suffix;
    var line := row.prefix + "|" + rest;
    StablePrefixRead(row.prefix, rest);
    BodyRead(body, row.suffix);
    HeadOfRead(row.prefix, rest, SplitPrefix(line));
  }

  lemma HeadOfRead(prefix: string, rest: string, split: Prefixed)
    requires ReadAs(prefix, rest, split)
    ensures CutLeadingPipe(split) == Leading(prefix, true, rest)
  {
    var e :| 0 <= e <= |prefix| && AllSpace(prefix[e..]) && split == Prefixed(prefix[..e], prefix[e..] + ("|" + rest));
    LeadingPipeRead(prefix[..e], prefix[e..], rest);
    TakeDrop(prefix, e);
  }

  /** The cells before the edited one keep their segments. */
  lemma SegmentsBefore(raws: seq<string>, j: nat, tail: string)
    requires j < |raws| && forall i :: 0 <= i < j ==> Closed(raws[i])
    ensures Split(TextBefore(raws, j, "|") + tail) == raws[..j] + Split(tail)
  {
    if j > 0 {
      var left := raws[..j];
      SplitOfJoin(left);
      SplitParts(Join(left, "|"));
      SplitCut(Join(left, "|"), tail);
    } else {
      assert "" + tail == tail;
    }
  }

  lemma LastPartTail(raws: seq<string>, j: nat)
    requires j < |raws| && TextAfter(raws, j, "|") == ""
    ensures TailRun(Join(raws, "|")) == TailRun(raws[j])
  {
    JoinCut(raws, j, "|");
    if j > 0 {
      TailRunCut(Join(raws[..j], "|"), '|', raws[j]);
      assert Join(raws, "|") == Join(raws[..j], "|") + "|" + raws[j];
    } else {
      assert Join(raws, "|") == raws[j];
    }
  }

  /** What follows the text of cell `j` in the source of the cells. */
  function RestAfter(raws: seq<string>, j: nat, suffix: string): string
    requires j < |raws|
  {
    TextAfter(raws, j, "|") + if OddTail(Join(raws, "|")) then "|" + suffix else ""
  }

  lemma Regroup4<T>(a: seq<T>, b: seq<T>, c: seq<T>, d: seq<T>)
    ensures a + b + c + d == a + (b + (c + d))
  {
  }

  lemma EditedFollows(raws: seq<string>, j: nat, suffix: string)
    requires j < |raws|
    ensures CellSource(Join(raws, "|"), suffix) == TextBefore(raws, j, "|") + (raws[j] + RestAfter(raws, j, suffix))
    ensures Follows(raws[j], RestAfter(raws, j, suffix))
  {
    var body := Join(raws, "|");
    var end := if OddTail(body) then "|" + suffix else "";
    JoinCut(raws, j, "|");
    Regroup4(TextBefore(raws, j, "|"), raws[j], TextAfter(raws, j, "|"), end);
    Assoc(body, "|", suffix);
    assert body + "" == body;
    if TextAfter(raws, j, "|") == "" {
      LastPartTail(raws, j);
    }
  }

  lemma EditedSplit(row: Row, n: nat, j: nat, raw: string)
    requires TidyRow(row, n, true) && j < n
    ensures var raws := Raws(row.cells)[j := raw]; var rest := RestAfter(raws, j, row.suffix);
            && Follows(raw, rest)
            && Split(CellSource(Join(raws, "|"), row.suffix)) == Raws(row.cells)[..j] + Split(raw + rest)
  {
    var raws := Raws(row.cells)[j := raw];
    EditedFollows(raws, j, row.suffix);
    forall i | 0 <= i < j ensures Closed(raws[i]) {
      assert raws[i] == Raw(row.cells[i]);
    }
    SegmentsBefore(raws, j, raw + RestAfter(raws, j, row.suffix));
    assert raws[..j] == Raws(row.cells)[..j];
  }

  /** How the cells of a row are read after the text of cell `j` was replaced by `raw`. */
  lemma EditedSegments(row: Row, n: nat, j: nat, raw: string) returns (rest: string)
    requires TidyRow(row, n, true) && j < n
    requires AllSpace(row.prefix) || OneLine(raw)
    ensures Follows(raw, rest)
    ensures ParseRow(SerializeRow(WithRaw(row, j, raw))).cells == ParseCells(Raws(row.cells)[..j] + Split(raw + rest))
  {
    var raws := Raws(row.cells)[j := raw];
    rest := RestAfter(raws, j, row.suffix);
    WithRawRaws(row, j, raw);
    EditedFits(row, n, j, raw);
    EditedSplit(row, n, j, raw);
    PrintedRow(WithRaw(row, j, raw));
    ReadCellSource(row, Join(raws, "|"));
  }

  lemma PrintedRow(row: Row)
    requires row.leadingPipe && row.trailingPipe
    ensures SerializeRow(row) == row.prefix + "|" + (Join(Raws(row.cells), "|") + "|" + row.suffix)
  {
  }

  lemma EditedFits(row: Row, n: nat, j: nat, raw: string)
    requires TidyRow(row, n, true) && j < n
    requires AllSpace(row.prefix) || OneLine(raw)
    ensures PrefixFits(row.prefix, Join(Raws(row.cells)[j := raw], "|") + "|" + row.suffix)
  {
    var raws := Raws(row.cells)[j := raw];
    if !AllSpace(row.prefix) {
      forall i | 0 <= i < |raws| ensures OneLine(raws[i]) {
        assert i == j || raws[i] == Raw(row.cells[i]);
      }
      PartsOfJoin(raws);
      OneLineConcat(Join(raws, "|"), "|");
      OneLineConcat(Join(raws, "|") + "|", row.suffix);
    }
  }

  /** The row after the edit: only the text of cell `j` changed. */
  predicate KeepsFrame(row: Row, edited: Row, j: nat, text: string)
    requires j < |row.cells|
  {
    && |edited.cells| == |row.cells|
    && edited.cells[j].markdown == text
    && forall k :: 0 <= k < |row.cells| && k != j ==> edited.cells[k].markdown == row.cells[k].markdown
  }

  lemma ClosedEditTidy(row: Row, n: nat, j: nat, raw: string)
    requires TidyRow(row, n, true) && j < n && Closed(raw) && '\n' !in raw
    requires AllSpace(row.prefix) || OneLine(raw)
    ensures TidyRow(WithRaw(row, j, raw), n, true)
  {
    RawOfParsedCell(raw);
    TrimParts(raw);
  }

  /** A closed text stays in its cell: the whole row is read back with that one cell changed. */
  lemma ClosedEditKeepsFrame(row: Row, n: nat, j: nat, raw: string)
    requires TidyRow(row, n, true) && j < n && Closed(raw) && '\n' !in raw
    requires AllSpace(row.prefix) || OneLine(raw)
    ensures var edited := ParseRow(SerializeRow(WithRaw(row, j, raw)));
            KeepsFrame(row, edited, j, Trim(raw)) && edited.(cells := row.cells) == row
  {
    var changed := WithRaw(row, j, raw);
    ClosedEditTidy(row, n, j, raw);
    ReadTidyRow(changed, n, true);
    forall k | 0 <= k < |row.cells|
      ensures ReadCells(changed.cells)[k].markdown == if k == j then Trim(raw) else row.cells[k].markdown
    {
      ReadCellText(changed.cells[k]);
      TrimOfTrimmed(changed.cells[k].markdown);
    }
  }

  /** A text that is not closed leaks out of its cell: the cell is read with another text. */
  lemma OpenEditLeaks(row: Row, n: nat, j: nat, raw: string)
    requires TidyRow(row, n, true) && j < n && !Closed(raw)
    requires AllSpace(row.prefix) || OneLine(raw)
    ensures var edited := ParseRow(SerializeRow(WithRaw(row, j, raw)));
            j < |edited.cells| && edited.cells[j].markdown != Trim(raw)
  {
    var rest := EditedSegments(row, n, j, raw);
    var segments := Raws(row.cells)[..j] + Split(raw + rest);
    assert segments[j] == Split(raw + rest)[0];
    FirstSegment(raw, rest);
  }

  // ---------------------------------------------------------------- the edit at the offsets of the layout

  /** The text of a cell after `text` replaced what the layout lets the caret enter. */
  function Typed(raw: string, text: string): string {
    var c := PlaceCell(raw, 0, 0, 0);
    raw[..c.from] + text + raw[c.to..]
  }

  lemma TypedText(raw: string, text: string)
    ensures Trim(Typed(raw, text)) == Trim(text)
  {
    var c := PlaceCell(raw, 0, 0, 0);
    assert AllSpace(raw[..c.from]) && AllSpace(raw[c.to..]);
    TrimAbsorbsSpace(raw[..c.from], text, raw[c.to..]);
  }

  lemma TypedClean(raw: string, text: string)
    requires '\n' !in raw && '\n' !in text
    ensures '\n' !in Typed(raw, text)
    ensures OneLine(raw) && OneLine(text) ==> OneLine(Typed(raw, text))
  {
    var c := PlaceCell(raw, 0, 0, 0);
    OneLineConcat(raw[..c.from] + text, raw[c.to..]);
    OneLineConcat(raw[..c.from], text);
    OneLineConcat(raw[..c.from], raw[c.from..]);
    OneLineConcat(raw[..c.to], raw[c.to..]);
    TakeDrop(raw, c.from);
    TakeDrop(raw, c.to);
  }

  lemma SpliceInside<T>(p: seq<T>, before: seq<T>, raw: seq<T>, after: seq<T>, q: seq<T>, lo: nat, hi: nat, text: seq<T>)
    requires lo <= hi <= |raw|
    ensures var s := p + (before + raw + after) + q; var x := |p| + |before| + lo; var y := |p| + |before| + hi;
            s[..x] + text + s[y..] == p + (before + (raw[..lo] + text + raw[hi..]) + after) + q
  {
    var s := p + (before + raw + after) + q;
    var x := |p| + |before| + lo;
    var y := |p| + |before| + hi;
    assert s[..x] == p + before + raw[..lo];
    assert s[y..] == raw[hi..] + after + q;
  }

  lemma PlaceShift(raw: string, start: int, rowIndex: int, columnIndex: nat)
    ensures var c, local := PlaceCell(raw, start, rowIndex, columnIndex), PlaceCell(raw, 0, 0, 0);
            0 <= local.from <= local.to <= |raw| && c.from == start + local.from && c.to == start + local.to
  {
  }

  /** A replacement inside part `j` of joined parts. */
  lemma {:induction false} SpliceInJoin(raws: seq<string>, j: nat, p: string, q: string, lo: nat, hi: nat,
                                        from: int, to: int, text: string)
    requires j < |raws| && lo <= hi <= |raws[j]|
    requires from == |p| + PartStart(raws, j) + lo && to == |p| + PartStart(raws, j) + hi
    ensures var s := p + Join(raws, "|") + q;
            && 0 <= from <= to <= |s|
            && s[..from] + text + s[to..] == p + Join(raws[j := raws[j][..lo] + text + raws[j][hi..]], "|") + q
  {
    JoinAround(raws, j, "|", raws[j][..lo] + text + raws[j][hi..]);
    SpliceInside(p, TextBefore(raws, j, "|"), raws[j], TextAfter(raws, j, "|"), q, lo, hi, text);
  }

  /** Replacing a range inside a cell of the line replaces it in the text of that cell of the row. */
  lemma {:induction false} SpliceInCell(row: Row, j: nat, lo: nat, hi: nat, from: int, to: int, text: string)
    requires j < |row.cells| && row.leadingPipe && row.trailingPipe && lo <= hi <= |Raw(row.cells[j])|
    requires var start := CellStart(row.cells, RowBase(row, 0), j); from == start + lo && to == start + hi
    ensures var line := SerializeRow(row); var raw := Raw(row.cells[j]);
            && 0 <= from <= to <= |line|
            && line[..from] + text + line[to..] == SerializeRow(WithRaw(row, j, raw[..lo] + text + raw[hi..]))
  {
    var raws := Raws(row.cells);
    var changed := raws[j][..lo] + text + raws[j][hi..];
    SpliceInJoin(raws, j, row.prefix + "|", "|" + row.suffix, lo, hi, from, to, text);
    WithRawRaws(row, j, changed);
    PrintedAround(row);
    PrintedAround(WithRaw(row, j, changed));
  }

  /** Replacing the caret range of a cell in the line replaces the text of the cell in the row. */
  lemma SpliceIsTyped(row: Row, j: nat, text: string)
    requires j < |row.cells| && row.leadingPipe && row.trailingPipe
    ensures var line := SerializeRow(row); var raw := Raw(row.cells[j]);
            var c := PlaceCell(raw, CellStart(row.cells, RowBase(row, 0), j), 0, j);
            && 0 <= c.from <= c.to <= |line|
            && line[..c.from] + text + line[c.to..] == SerializeRow(WithRaw(row, j, Typed(raw, text)))
  {
    var raw := Raw(row.cells[j]);
    var local := PlaceCell(raw, 0, 0, 0);
    PlaceShift(raw, CellStart(row.cells, RowBase(row, 0), j), 0, j);
    var c := PlaceCell(raw, CellStart(row.cells, RowBase(row, 0), j), 0, j);
    SpliceInCell(row, j, local.from, local.to, c.from, c.to, text);
  }

  lemma PrintedAround(row: Row)
    requires row.leadingPipe && row.trailingPipe
    ensures SerializeRow(row) == (row.prefix + "|") + Join(Raws(row.cells), "|") + ("|" + row.suffix)
  {
  }

  /** The line after `text` replaced the caret range of cell `j` of its layout. */
  function EditedLine(line: string, j: nat, text: string): string
    requires j < |ParseRow(line).cells|
  {
    var row := ParseRow(line);
    var c := PlaceCell(Raw(row.cells[j]), CellStart(row.cells, RowBase(row, 0), j), 0, j);
    if 0 <= c.from <= c.to <= |line| then line[..c.from] + text + line[c.to..] else line
  }

  lemma RowEditExact(row: Row, n: nat, j: nat, raw: string, text: string)
    requires TidyRow(row, n, true) && j < n && '\n' !in raw && Trim(raw) == Trim(text)
    requires AllSpace(row.prefix) || OneLine(raw)
    ensures KeepsFrame(row, ParseRow(SerializeRow(WithRaw(row, j, raw))), j, Trim(text)) <==> Closed(raw)
  {
    if Closed(raw) {
      ClosedEditKeepsFrame(row, n, j, raw);
    } else {
      OpenEditLeaks(row, n, j, raw);
    }
  }

  /** Typing in a cell of a line with both outer pipes changes the text of that cell and nothing else
      exactly when the cell stays closed: no unescaped pipe, and an even run of backslashes at its end. */
  lemma {:induction false} CellEditExact(line: string, j: nat, text: string)
    requires '\n' !in line && '\n' !in text
    requires var row := ParseRow(line);
             row.leadingPipe && row.trailingPipe && j < |row.cells| && (AllSpace(row.prefix) || OneLine(text))
    ensures var row := ParseRow(line);
            KeepsFrame(row, ParseRow(EditedLine(line, j, text)), j, Trim(text))
            <==> Closed(Typed(Raw(row.cells[j]), text))
  {
    var row := ParseRow(line);
    var raw := Raw(row.cells[j]);
    ParsedRow(line);
    PrintParsedRow(line);
    SpliceIsTyped(row, j, text);
    TypedText(raw, text);
    TypedClean(raw, text);
    RowEditExact(row, |row.cells|, j, Typed(raw, text), text);
  }
}
