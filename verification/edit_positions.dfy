/** Where every row and column of an edited table comes from, position by position. */
module EditPositions {
  import opened Seqs
  import opened Sequences
  import opened Text
  import opened MarkdownTable
  import opened TableEdits
  import opened TableLanguage

  // ---------------------------------------------------------------- what an edit of a list looks like

  /** The gap of a list of length `n` that is closest to the wanted one. */
  predicate IsGap(k: nat, wanted: int, n: nat) {
    k <= n && (wanted < 0 ==> k == 0) && (wanted > n ==> k == n) && (0 <= wanted <= n ==> k == wanted)
  }

  /** The selected indices of a list of length `n`, each once, in ascending order. */
  ghost predicate IsChoice(chosen: seq<nat>, selected: seq<int>, n: nat) {
    Increasing(chosen) && forall k: nat :: k in chosen <==> k < n && k in selected
  }

  /** How many indices before `i` are not chosen. */
  function KeptBefore(chosen: seq<nat>, i: nat): (n: nat)
    ensures n <= i
  {
    if i == 0 then 0 else KeptBefore(chosen, i - 1) + if i - 1 in chosen then 0 else 1
  }

  predicate HasInserted<T(==)>(before: seq<T>, result: seq<T>, k: nat, count: nat, x: T) {
    && k <= |before| && |result| == |before| + count
    && (forall i :: 0 <= i < k ==> result[i] == before[i])
    && (forall i :: k <= i < k + count ==> result[i] == x)
    && (forall i :: k + count <= i < |result| ==> result[i] == before[i - count])
  }

  /** The chosen elements follow the last one of them. */
  predicate HasCopies<T(==)>(before: seq<T>, result: seq<T>, chosen: seq<nat>) {
    if chosen == [] then result == before
    else
      var last, m := chosen[|chosen| - 1], |chosen|;
      && last < |before| && |result| == |before| + m
      && (forall i :: 0 <= i <= last ==> result[i] == before[i])
      && (forall r :: 0 <= r < m ==> chosen[r] < |before| && result[last + 1 + r] == before[chosen[r]])
      && (forall i :: last + 1 + m <= i < |result| ==> result[i] == before[i - m])
  }

  predicate StandsAt<T(==)>(s: seq<T>, p: int, x: T) {
    0 <= p < |s| && s[p] == x
  }

  /** Element `i`, if it is not chosen, stands behind `offset` elements and the others that were before it. */
  predicate KeepsElement<T(==)>(before: seq<T>, result: seq<T>, chosen: seq<nat>, offset: nat, i: nat)
    requires i < |before|
  {
    i !in chosen ==> StandsAt(result, offset + KeptBefore(chosen, i), before[i])
  }

  /** Chosen element number `r` stands at place `r` of the block that starts at `start`. */
  predicate TakesElement<T(==)>(before: seq<T>, result: seq<T>, chosen: seq<nat>, start: nat, r: nat)
    requires r < |chosen|
  {
    chosen[r] < |before| && StandsAt(result, start + r, before[chosen[r]])
  }

  /** Exactly the elements that are not chosen, in their order. */
  predicate HasRemoved<T(==)>(before: seq<T>, result: seq<T>, chosen: seq<nat>) {
    && |result| == |before| - |chosen|
    && forall i :: 0 <= i < |before| ==> KeepsElement(before, result, chosen, 0, i)
  }

  /** The others before the gap, the chosen elements in their order, the others behind the gap. */
  predicate HasMoved<T(==)>(before: seq<T>, result: seq<T>, chosen: seq<nat>, gap: nat) {
    var start, m := KeptBefore(chosen, gap), |chosen|;
    && |result| == |before|
    && (forall r :: 0 <= r < m ==> TakesElement(before, result, chosen, start, r))
    && (forall i :: 0 <= i < |before| && i < gap ==> KeepsElement(before, result, chosen, 0, i))
    && (forall i :: gap <= i < |before| ==> KeepsElement(before, result, chosen, m, i))
  }

  lemma ChoiceIs(chosen: seq<nat>, selected: seq<int>, n: nat)
    requires IsChoice(chosen, selected, n)
    ensures chosen == Normalized(selected, n)
  {
    IncreasingUnique(chosen, Normalized(selected, n));
  }

  lemma {:induction false} KeptIs(chosen: seq<nat>, i: nat)
    requires Increasing(chosen)
    ensures KeptBefore(chosen, i) == i - CountBelow(chosen, i)
  {
    if i == 0 {
      CountBelowBound(chosen, 0);
    } else {
      KeptIs(chosen, i - 1);
      CountBelowStep(chosen, i - 1);
    }
  }

  lemma Inserts<T>(s: seq<T>, at: int, count: nat, x: T, k: nat)
    requires IsGap(k, at, |s|)
    ensures HasInserted(s, EditSeq(Insert(at, count), s, x), k, count, x)
  {
    var r := EditSeq(Insert(at, count), s, x);
    assert r == s[..k] + seq(count, i => x) + s[k..];
  }

  lemma CopiesStand<T>(s: seq<T>, result: seq<T>, chosen: seq<nat>, copies: seq<T>, last: nat)
    requires chosen != [] && last == chosen[|chosen| - 1] < |s| && |copies| == |chosen|
    requires forall r :: 0 <= r < |chosen| ==> chosen[r] < |s| && copies[r] == s[chosen[r]]
    requires result == s[..last + 1] + copies + s[last + 1..]
    ensures HasCopies(s, result, chosen)
  {
  }

  lemma Copies<T>(s: seq<T>, selected: seq<int>, x: T, chosen: seq<nat>)
    requires IsChoice(chosen, selected, |s|)
    ensures HasCopies(s, EditSeq(Duplicate(selected), s, x), chosen)
  {
    ChoiceIs(chosen, selected, |s|);
    if chosen != [] {
      CopiesStand(s, EditSeq(Duplicate(selected), s, x), chosen, Pick(s, chosen), chosen[|chosen| - 1]);
    }
  }

  lemma Removes<T>(s: seq<T>, selected: seq<int>, x: T, chosen: seq<nat>)
    requires IsChoice(chosen, selected, |s|)
    ensures HasRemoved(s, EditSeq(Remove(selected), s, x), chosen)
  {
    var r := EditSeq(Remove(selected), s, x);
    ChoiceIs(chosen, selected, |s|);
    WithoutLength(s, chosen);
    forall i | 0 <= i < |s| ensures KeepsElement(s, r, chosen, 0, i) {
      KeptIs(chosen, i);
      if i !in chosen {
        WithoutAt(s, chosen, i);
      }
    }
  }

  lemma GapIs(k: nat, wanted: int, n: nat)
    requires IsGap(k, wanted, n)
    ensures k == Clamp(wanted, 0, n)
  {
  }

  lemma MovedStands<T>(s: seq<T>, selected: seq<int>, gap: int, chosen: seq<nat>, k: nat, r: nat)
    requires chosen == Normalized(selected, |s|) && k == Clamp(gap, 0, |s|) && r < |chosen|
    ensures TakesElement(s, MoveItems(s, chosen, gap), chosen, KeptBefore(chosen, k), r)
  {
    KeptIs(chosen, k);
    MovedItems(s, selected, gap);
    assert RemapMovedIndices(selected, gap, |s|)[r] == KeptBefore(chosen, k) + r;
  }

  lemma UnmovedStands<T>(s: seq<T>, selected: seq<int>, gap: int, chosen: seq<nat>, k: nat, i: nat)
    requires chosen == Normalized(selected, |s|) && k == Clamp(gap, 0, |s|) && i < |s|
    ensures KeepsElement(s, MoveItems(s, chosen, gap), chosen, if i < k then 0 else |chosen|, i)
  {
    KeptIs(chosen, i);
    if i !in chosen {
      UnmovedItem(s, selected, gap, i);
    }
  }

  lemma {:induction false} MoveLands<T>(s: seq<T>, selected: seq<int>, gap: int, chosen: seq<nat>, k: nat, result: seq<T>)
    requires chosen == Normalized(selected, |s|) && k == Clamp(gap, 0, |s|) && result == MoveItems(s, chosen, gap)
    ensures HasMoved(s, result, chosen, k)
  {
    forall r | 0 <= r < |chosen| ensures TakesElement(s, result, chosen, KeptBefore(chosen, k), r) {
      MovedStands(s, selected, gap, chosen, k, r);
    }
    forall i | 0 <= i < |s| && i < k ensures KeepsElement(s, result, chosen, 0, i) {
      UnmovedStands(s, selected, gap, chosen, k, i);
    }
    var m := |chosen|;
    forall i | k <= i < |s| ensures KeepsElement(s, result, chosen, m, i) {
      UnmovedStands(s, selected, gap, chosen, k, i);
    }
  }

  lemma {:induction false} Moves<T>(s: seq<T>, selected: seq<int>, gap: int, x: T, chosen: seq<nat>, k: nat)
    requires IsChoice(chosen, selected, |s|) && IsGap(k, gap, |s|)
    ensures HasMoved(s, EditSeq(Move(selected, gap), s, x), chosen, k)
  {
    ChoiceIs(chosen, selected, |s|);
    GapIs(k, gap, |s|);
    MoveLands(s, selected, gap, chosen, k, MoveItems(s, chosen, gap));
  }

  // ---------------------------------------------------------------- rows

  /** Everything but header and body is as before. */
  predicate SameFrame(t: Table, u: Table) {
    u == t.(header := u.header, body := u.body)
  }

  /** A new row in the style of an old one: blank cells, and the list marker of the header is not repeated. */
  predicate IsBlankRow(row: Row, t: Table, style: Row) {
    && |row.cells| == t.columnCount && (forall j :: 0 <= j < |row.cells| ==> row.cells[j] == Cell("", " ", " "))
    && row.leadingPipe == style.leadingPipe && row.trailingPipe == style.trailingPipe && row.suffix == ""
    && (style.prefix != t.header.prefix ==> row.prefix == style.prefix)
    && (style.prefix == t.header.prefix ==> row.prefix == t.delimiter.prefix)
    && (t.header.prefix != t.delimiter.prefix ==> row.prefix != t.header.prefix)
  }

  function Wanted(reference: int, placement: Placement): int {
    match placement case Before => reference case After => reference + 1
  }

  lemma RowsOf(t: Table, rows: seq<Row>)
    requires rows != []
    ensures SemanticRows(SetRows(t, rows)) == rows && SameFrame(t, SetRows(t, rows))
  {
    Uncons(rows);
  }

  lemma BlankRowIs(t: Table, style: Row)
    ensures IsBlankRow(BlankRow(t, style), t, style)
  {
  }

  /** Inserted rows stand at the wanted place, blank, in the style of the reference row. */
  lemma InsertedRows(t: Table, reference: int, placement: Placement, count: nat, k: nat, style: nat) returns (blank: Row)
    requires IsGap(k, Wanted(reference, placement), 1 + |t.body|) && IsGap(style, reference, |t.body|) && count > 0
    ensures IsBlankRow(blank, t, SemanticRows(t)[style])
    ensures var u := InsertRows(t, reference, placement, count);
            SameFrame(t, u) && HasInserted(SemanticRows(t), SemanticRows(u), k, count, blank)
  {
    var rows := SemanticRows(t);
    blank := BlankRow(t, rows[style]);
    BlankRowIs(t, rows[style]);
    Inserts(rows, Wanted(reference, placement), count, blank, k);
    RowsOf(t, EditSeq(Insert(Wanted(reference, placement), count), rows, blank));
  }

  /** In a list item, rows inserted before the header take its place on the first line, without the list marker. */
  lemma MarkerLeavesFirstLine(t: Table, reference: int, count: nat)
    requires reference <= 0 && count > 0 && t.header.prefix != t.delimiter.prefix
    ensures var u := InsertRows(t, reference, Before, count);
            u.header.prefix == t.delimiter.prefix && u.body[count - 1] == t.header
  {
    var blank := InsertedRows(t, reference, Before, count, 0, 0);
    var u := InsertRows(t, reference, Before, count);
    assert SemanticRows(u)[0] == blank && SemanticRows(u)[count] == t.header;
  }

  lemma DuplicatedRows(t: Table, selected: seq<int>, chosen: seq<nat>)
    requires IsChoice(chosen, selected, 1 + |t.body|)
    ensures var u := DuplicateRows(t, selected);
            SameFrame(t, u) && HasCopies(SemanticRows(t), SemanticRows(u), chosen)
  {
    Copies(SemanticRows(t), selected, t.header, chosen);
    RowsOf(t, EditSeq(Duplicate(selected), SemanticRows(t), t.header));
  }

  lemma MovedRows(t: Table, selected: seq<int>, gap: int, chosen: seq<nat>, k: nat)
    requires IsChoice(chosen, selected, 1 + |t.body|) && IsGap(k, gap, 1 + |t.body|)
    ensures var u := MoveRows(t, selected, gap);
            SameFrame(t, u) && HasMoved(SemanticRows(t), SemanticRows(u), chosen, k)
  {
    ChoiceIs(chosen, selected, 1 + |t.body|);
    Moves(SemanticRows(t), selected, gap, t.header, chosen, k);
    if chosen != [] {
      RowsOf(t, EditSeq(Move(selected, gap), SemanticRows(t), t.header));
    } else {
      NothingChosen(SemanticRows(t), k);
    }
  }

  lemma {:induction false} NothingKept(i: nat)
    ensures KeptBefore([], i) == i
  {
    KeptIs([], i);
  }

  lemma NothingChosen<T>(s: seq<T>, k: nat)
    ensures HasMoved(s, s, [], k)
  {
    forall i | 0 <= i < |s| ensures KeepsElement(s, s, [], 0, i) {
      NothingKept(i);
    }
  }

  /** The given rows are gone, and a header that is left alone has a blank row below it. */
  predicate RowsAreGone(t: Table, u: Table, rows: seq<nat>) {
    var left := SemanticRows(u);
    && SameFrame(t, u)
    && (|rows| < |t.body| ==> HasRemoved(SemanticRows(t), left, rows))
    && (|rows| == |t.body| ==> |left| == 2 && HasRemoved(SemanticRows(t), left[..1], rows) && IsBlankRow(left[1], t, left[0]))
  }

  /** Deleted rows are gone and the others stay in order; a header that is left alone gets a blank row. */
  lemma RemovedRows(t: Table, selected: seq<int>, chosen: seq<nat>)
    requires IsChoice(chosen, selected, 1 + |t.body|)
    ensures DeleteRows(t, selected) == None <==> |chosen| == 1 + |t.body|
    ensures DeleteRows(t, selected).Some? ==> RowsAreGone(t, DeleteRows(t, selected).value, chosen)
  {
    ChoiceIs(chosen, selected, 1 + |t.body|);
    Removes(SemanticRows(t), selected, t.header, chosen);
    var remaining := EditSeq(Remove(selected), SemanticRows(t), t.header);
    if |remaining| == 1 {
      BlankRowIs(t, remaining[0]);
      RowsOf(t, remaining + [BlankRow(t, remaining[0])]);
    } else if |remaining| > 1 {
      RowsOf(t, remaining);
    }
  }

  // ---------------------------------------------------------------- columns

  /** The rows have other cells, and are otherwise as before. */
  predicate SameEnds(t: Table, u: Table) {
    && |Rows(u)| == |Rows(t)| && u.crlf == t.crlf && u.trailingNewline == t.trailingNewline
    && u.columnCount == |u.alignments|
    && forall i :: 0 <= i < |Rows(t)| ==> Rows(u)[i] == Rows(t)[i].(cells := Rows(u)[i].cells)
  }

  lemma PaddedTexts(row: Row, n: nat)
    requires |row.cells| <= n
    ensures |Padded(row.cells, n, CanonicalCell(""))| == n
    ensures forall j :: 0 <= j < n ==> Padded(row.cells, n, CanonicalCell(""))[j].markdown == RowTexts(row, n)[j]
  {
  }

  lemma {:induction false} EditedTextsOf(e: AxisEdit, row: Row, n: nat, edited: Row, m: nat)
    requires |row.cells| <= n && edited == EditCells(row, e, n, CanonicalCell("")) && m == |edited.cells|
    ensures RowTexts(edited, m) == EditSeq(e, RowTexts(row, n), "")
  {
    var cells, blank, texts := Padded(row.cells, n, CanonicalCell("")), CanonicalCell(""), RowTexts(row, n);
    PaddedTexts(row, n);
    EditIsPlan(e, cells, blank);
    EditIsPlan(e, texts, "");
    var plan := Plan(e, n);
    forall i | 0 <= i < |plan| ensures FromSlot(plan[i], cells, blank).markdown == FromSlot(plan[i], texts, "") {
    }
  }

  lemma EditedWidth(row: Row, e: AxisEdit, n: nat, alignments: seq<Alignment>)
    requires |row.cells| <= n == |alignments|
    ensures |EditCells(row, e, n, CanonicalCell("")).cells| == |EditSeq(e, alignments, Unaligned)|
  {
    PaddedTexts(row, n);
    EditLength(e, Padded(row.cells, n, CanonicalCell("")), alignments, CanonicalCell(""), Unaligned);
  }

  /** The same edit acts on the texts of every row, and on the alignments. */
  lemma {:induction false} ColumnsEdited(t: Table, e: AxisEdit, i: nat)
    requires Shaped(t) && i < |SemanticRows(t)|
    ensures |SemanticRows(RebuildColumns(t, e))| == |SemanticRows(t)|
    ensures Grid(RebuildColumns(t, e))[i] == EditSeq(e, Grid(t)[i], "")
  {
    var row, u := SemanticRows(t)[i], RebuildColumns(t, e);
    assert row == if i == 0 then Rows(t)[0] else Rows(t)[i + 1];
    RebuiltRowIs(t, e, i);
    EditedWidth(row, e, t.columnCount, t.alignments);
    EditedTextsOf(e, row, t.columnCount, SemanticRows(u)[i], u.columnCount);
  }

  lemma {:induction false} EndKept(t: Table, e: AxisEdit, u: Table, i: nat)
    requires u == RebuildColumns(t, e) && i < |Rows(t)|
    ensures |Rows(u)| == |Rows(t)| && Rows(u)[i] == Rows(t)[i].(cells := Rows(u)[i].cells)
  {
    if i >= 2 {
      assert Rows(u)[i] == EditCells(t.body[i - 2], e, t.columnCount, CanonicalCell(""));
    }
  }

  lemma {:induction false} EndsKept(t: Table, e: AxisEdit)
    ensures SameEnds(t, RebuildColumns(t, e))
  {
    var u := RebuildColumns(t, e);
    forall i | 0 <= i < |Rows(t)| ensures |Rows(u)| == |Rows(t)| && Rows(u)[i] == Rows(t)[i].(cells := Rows(u)[i].cells) {
      EndKept(t, e, u, i);
    }
  }

  /** Inserted columns stand at the wanted place in every row: blank, and without alignment. */
  lemma {:induction false} InsertedColumns(t: Table, reference: int, placement: Placement, count: nat, k: nat)
    requires Shaped(t) && IsGap(k, Wanted(reference, placement), t.columnCount) && count > 0
    ensures var u := InsertColumns(t, reference, placement, count);
            && SameEnds(t, u) && HasInserted(t.alignments, u.alignments, k, count, Unaligned)
            && forall i :: 0 <= i < |Grid(t)| ==> HasInserted(Grid(t)[i], Grid(u)[i], k, count, "")
  {
    var at := Wanted(reference, placement);
    EndsKept(t, Insert(at, count));
    Inserts(t.alignments, at, count, Unaligned, k);
    forall i | 0 <= i < |Grid(t)|
      ensures HasInserted(Grid(t)[i], Grid(RebuildColumns(t, Insert(at, count)))[i], k, count, "")
    {
      ColumnsEdited(t, Insert(at, count), i);
      Inserts(Grid(t)[i], at, count, "", k);
    }
  }

  lemma {:induction false} DuplicatedColumns(t: Table, selected: seq<int>, chosen: seq<nat>)
    requires Shaped(t) && IsChoice(chosen, selected, t.columnCount)
    ensures var u := DuplicateColumns(t, selected);
            && SameEnds(t, u) && HasCopies(t.alignments, u.alignments, chosen)
            && forall i :: 0 <= i < |Grid(t)| ==> HasCopies(Grid(t)[i], Grid(u)[i], chosen)
  {
    ChoiceIs(chosen, selected, t.columnCount);
    EndsKept(t, Duplicate(selected));
    Copies(t.alignments, selected, Unaligned, chosen);
    forall i | 0 <= i < |Grid(t)|
      ensures HasCopies(Grid(t)[i], Grid(DuplicateColumns(t, selected))[i], chosen)
    {
      ColumnsEdited(t, Duplicate(selected), i);
      Copies(Grid(t)[i], selected, "", chosen);
    }
  }

  predicate ColumnsAreGone(t: Table, u: Table, columns: seq<nat>) {
    && SameEnds(t, u) && HasRemoved(t.alignments, u.alignments, columns)
    && forall i :: 0 <= i < |Grid(t)| ==> HasRemoved(Grid(t)[i], Grid(u)[i], columns)
  }

  /** Columns cannot be deleted if none would remain; otherwise exactly the others remain. */
  lemma {:induction false} RemovedColumns(t: Table, selected: seq<int>, chosen: seq<nat>)
    requires Shaped(t) && IsChoice(chosen, selected, t.columnCount)
    ensures DeleteColumns(t, selected) == None <==> |chosen| == t.columnCount
    ensures DeleteColumns(t, selected).Some? ==> ColumnsAreGone(t, DeleteColumns(t, selected).value, chosen)
  {
    ChoiceIs(chosen, selected, t.columnCount);
    EndsKept(t, Remove(selected));
    Removes(t.alignments, selected, Unaligned, chosen);
    forall i | 0 <= i < |Grid(t)|
      ensures HasRemoved(Grid(t)[i], Grid(RebuildColumns(t, Remove(selected)))[i], chosen)
    {
      ColumnsEdited(t, Remove(selected), i);
      Removes(Grid(t)[i], selected, "", chosen);
    }
  }

  lemma {:induction false} MovedColumns(t: Table, selected: seq<int>, gap: int, chosen: seq<nat>, k: nat)
    requires Shaped(t) && IsChoice(chosen, selected, t.columnCount) && IsGap(k, gap, t.columnCount)
    ensures var u := MoveColumns(t, selected, gap);
            && SameEnds(t, u) && HasMoved(t.alignments, u.alignments, chosen, k)
            && forall i :: 0 <= i < |Grid(t)| ==> HasMoved(Grid(t)[i], Grid(u)[i], chosen, k)
  {
    ChoiceIs(chosen, selected, t.columnCount);
    EndsKept(t, Move(selected, gap));
    if chosen == [] {
      NothingChosen(t.alignments, k);
      forall i | 0 <= i < |Grid(t)| ensures HasMoved(Grid(t)[i], Grid(t)[i], chosen, k) {
        NothingChosen(Grid(t)[i], k);
      }
    } else {
      Moves(t.alignments, selected, gap, Unaligned, chosen, k);
      forall i | 0 <= i < |Grid(t)|
        ensures HasMoved(Grid(t)[i], Grid(RebuildColumns(t, Move(selected, gap)))[i], chosen, k)
      {
        ColumnsEdited(t, Move(selected, gap), i);
        Moves(Grid(t)[i], selected, gap, "", chosen, k);
      }
    }
  }
}
