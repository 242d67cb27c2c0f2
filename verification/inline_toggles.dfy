/** The inline commands: bold, italic, strikethrough and inline code. */
module InlineToggles {
  import opened Seqs
  import opened Text
  import opened Edits

  // ---------------------------------------------------------------- markers

  /** The selected text carries the markers itself. */
  predicate IsWrapped(selected: string, marker: string) {
    && |selected| >= 2 * |marker|
    && selected[..|marker|] == marker && selected[|selected| - |marker|..] == marker
  }

  /** The markers stand right outside of the selection. */
  predicate IsSurrounded(value: string, from: nat, to: nat, marker: string)
    requires from <= to <= |value|
  {
    && from >= |marker| && value[from - |marker|..from] == marker
    && to + |marker| <= |value| && value[to..to + |marker|] == marker
  }

  /** inlineMarkerEdit: unwrap the selected text, or remove the markers around it, or wrap it. */
  function InlineMarkerEdit(value: string, s: Selection, marker: string, index: nat): SelectionEdit
    requires SelectionInside(value, s)
  {
    var from, to, m := FromOf(s), ToOf(s), |marker|;
    var selected := SelectedText(value, s);
    var reversed := s.anchor > s.head;
    if IsWrapped(selected, marker) then
      var insert := selected[m..|selected| - m];
      SelectionEdit(Edit(from, to, insert), 0, |insert|, reversed, index)
    else if IsSurrounded(value, from, to, marker) then
      SelectionEdit(Edit(from - m, to + m, selected), 0, |selected|, reversed, index)
    else
      SelectionEdit(Edit(from, to, marker + selected + marker), m, m + |selected|, reversed, index)
  }

  function MarkerEdits(value: string, selections: seq<Selection>, marker: string): (edits: seq<SelectionEdit>)
    requires SelectionsInside(value, selections)
    ensures |edits| == |selections|
  {
    seq(|selections|, i requires 0 <= i < |selections| => InlineMarkerEdit(value, selections[i], marker, i))
  }

  predicate TakesWrapBranch(value: string, s: Selection, marker: string)
    requires SelectionInside(value, s)
  {
    !IsWrapped(SelectedText(value, s), marker) && !IsSurrounded(value, FromOf(s), ToOf(s), marker)
  }

  lemma MarkerEditsFit(value: string, selections: seq<Selection>, marker: string)
    requires SelectionsInside(value, selections)
    ensures AllEditsInBounds(MarkerEdits(value, selections, marker), |value|)
    ensures IndexedInOrder(MarkerEdits(value, selections, marker))
  {
  }

  method ToggleInlineMarker(value: string, selections: seq<Selection>, marker: string) returns (outcome: Outcome)
    requires SelectionsInside(value, selections)
    ensures outcome.Overlap? <==> !NonOverlapping(SortedChanges(MarkerEdits(value, selections, marker)))
    ensures outcome.Done? ==> IsTransaction(MarkerEdits(value, selections, marker), outcome.transaction)
  {
    MarkerEditsFit(value, selections, marker);
    outcome := TransactionFromSelectionEdits(MarkerEdits(value, selections, marker), |value|);
  }

  lemma WrappedStands(w: string, start: int, marker: string, selected: string)
    requires StandsAt(w, start, marker + selected + marker)
    ensures StandsAt(w, start, marker) && StandsAt(w, start + |marker|, selected)
    ensures StandsAt(w, start + |marker| + |selected|, marker)
  {
    var insert := marker + selected + marker;
    SliceOfInsert(w, start, insert, 0, |marker|);
    SliceOfInsert(w, start, insert, |marker|, |marker| + |selected|);
    SliceOfInsert(w, start, insert, |marker| + |selected|, |insert|);
    assert insert[0..|marker|] == marker;
    assert insert[|marker|..|marker| + |selected|] == selected;
    assert insert[|marker| + |selected|..|insert|] == marker;
  }

  /** The second toggle removes the markers that the first one put around a selection. */
  lemma SecondMarkerEdit(w: string, start: int, marker: string, selected: string, s: Selection, index: nat)
    requires StandsAt(w, start, marker + selected + marker) && !IsWrapped(selected, marker)
    requires FromOf(s) == start + |marker| && ToOf(s) == start + |marker| + |selected|
    ensures SelectionInside(w, s)
    ensures InlineMarkerEdit(w, s, marker, index)
         == SelectionEdit(Edit(start, start + |marker + selected + marker|, selected), 0, |selected|, s.anchor > s.head, index)
  {
    WrappedStands(w, start, marker, selected);
  }

  /** The selection of a wrapping edit, once placed, covers the text between the markers. */
  lemma WrapSelection(value: string, s: Selection, marker: string, index: nat, placed: Selection, start: nat)
    requires SelectionInside(value, s) && TakesWrapBranch(value, s, marker)
    requires IsPlaced(InlineMarkerEdit(value, s, marker, index), placed, start)
    ensures FromOf(placed) == start + |marker| && ToOf(placed) == start + |marker| + |SelectedText(value, s)|
    ensures placed.anchor > placed.head <==> s.anchor > s.head
  {
  }

  lemma RestoredSelection(s: Selection, restored: Selection, length: nat, index: nat, edit: Edit)
    requires length == ToOf(s) - FromOf(s)
    requires IsPlaced(SelectionEdit(edit, 0, length, s.anchor > s.head, index), restored, FromOf(s))
    ensures restored == s
  {
  }

  /** The wrap of selection number `k` of the sorted changes, and what the second toggle makes of it. */
  lemma WrapTakenBack(value: string, selections: seq<Selection>, marker: string, t: Transaction, k: nat)
    requires SelectionsInside(value, selections) && IsTransaction(MarkerEdits(value, selections, marker), t)
    requires Ascending(t.changes, |value|) && k < |selections|
    requires TakesWrapBranch(value, selections[OrderOf(MarkerEdits(value, selections, marker))[k]], marker)
    ensures var i := OrderOf(MarkerEdits(value, selections, marker))[k]; var w := Spliced(value, t.changes);
            && SelectionInside(w, t.selections[i])
            && InlineMarkerEdit(w, t.selections[i], marker, i)
               == SelectionEdit(Undo(value, t.changes, k), 0, |SelectedText(value, selections[i])|,
                                selections[i].anchor > selections[i].head, i)
  {
    var first := MarkerEdits(value, selections, marker);
    var i := OrderOf(first)[k];
    var s := selections[i];
    ChangeAt(first, k);
    InsertedAt(value, t.changes, k);
    WrapSelection(value, s, marker, i, t.selections[i], StartAfter(t.changes, k));
    SecondMarkerEdit(Spliced(value, t.changes), StartAfter(t.changes, k), marker, SelectedText(value, s), t.selections[i], i);
  }

  /** Wrapping toggles undo themselves: if every one of several disjoint selections is wrapped, the same
      command applied again restores the text and all selections. */
  lemma WrapUndone(value: string, selections: seq<Selection>, marker: string, t: Transaction)
    requires SelectionsInside(value, selections) && marker != ""
    requires forall i :: 0 <= i < |selections| ==> TakesWrapBranch(value, selections[i], marker)
    requires IsTransaction(MarkerEdits(value, selections, marker), t)
    requires NonOverlapping(t.changes) && DistinctStarts(t.changes)
    ensures SelectionsInside(Apply(value, t.changes), t.selections)
    ensures forall u :: IsTransaction(MarkerEdits(Apply(value, t.changes), t.selections, marker), u) ==>
              NonOverlapping(u.changes) && Apply(Apply(value, t.changes), u.changes) == value && u.selections == selections
  {
    var first := MarkerEdits(value, selections, marker);
    MarkerEditsFit(value, selections, marker);
    ChangesAscending(first, |value|);
    ApplyIsSplice(value, t.changes);
    var w := Spliced(value, t.changes);
    forall i | 0 <= i < |selections| ensures SelectionInside(w, t.selections[i]) {
      var k := RankOf(first, i);
      WrapTakenBack(value, selections, marker, t, k);
    }
    assert SelectionsInside(w, t.selections);
    forall u | IsTransaction(MarkerEdits(w, t.selections, marker), u)
      ensures NonOverlapping(u.changes) && Apply(w, u.changes) == value && u.selections == selections
    {
      WrapUndoneBy(value, selections, marker, t, u);
    }
  }

  /** An edit that selects all of its text, for a selection with that direction. */
  predicate SelectsBack(second: SelectionEdit, value: string, s: Selection, i: nat)
    requires SelectionInside(value, s)
  {
    second == SelectionEdit(second.edit, 0, |SelectedText(value, s)|, s.anchor > s.head, i)
  }

  lemma AllRestored(value: string, selections: seq<Selection>, second: seq<SelectionEdit>, restored: seq<Selection>)
    requires SelectionsInside(value, selections) && |second| == |restored| == |selections|
    requires forall i :: 0 <= i < |selections| ==> SelectsBack(second[i], value, selections[i], i)
    requires forall i :: 0 <= i < |selections| ==> IsPlaced(second[i], restored[i], FromOf(selections[i]))
    ensures restored == selections
  {
    forall i | 0 <= i < |selections| ensures restored[i] == selections[i] {
      assert SelectsBack(second[i], value, selections[i], i);
      RestoredSelection(selections[i], restored[i], |SelectedText(value, selections[i])|, i, second[i].edit);
    }
  }

  /** What every wrap gives to the second toggle. */
  lemma WrapsTakenBack(value: string, selections: seq<Selection>, marker: string, t: Transaction, second: seq<SelectionEdit>)
    requires SelectionsInside(value, selections) && IsTransaction(MarkerEdits(value, selections, marker), t)
    requires forall i :: 0 <= i < |selections| ==> TakesWrapBranch(value, selections[i], marker)
    requires Ascending(t.changes, |value|) && SelectionsInside(Spliced(value, t.changes), t.selections)
    requires second == MarkerEdits(Spliced(value, t.changes), t.selections, marker)
    ensures TakesBack(value, MarkerEdits(value, selections, marker), second)
    ensures forall i :: 0 <= i < |selections| ==> SelectsBack(second[i], value, selections[i], i)
  {
    var first := MarkerEdits(value, selections, marker);
    forall k | 0 <= k < |first| ensures second[OrderOf(first)[k]].edit == Undo(value, t.changes, k) {
      WrapTakenBack(value, selections, marker, t, k);
    }
    forall i | 0 <= i < |selections| ensures SelectsBack(second[i], value, selections[i], i) {
      var k := RankOf(first, i);
      WrapTakenBack(value, selections, marker, t, k);
    }
  }

  lemma WrapsInsert(value: string, selections: seq<Selection>, marker: string)
    requires SelectionsInside(value, selections) && marker != ""
    requires forall i :: 0 <= i < |selections| ==> TakesWrapBranch(value, selections[i], marker)
    ensures Inserts(SortedChanges(MarkerEdits(value, selections, marker)))
    ensures forall i :: 0 <= i < |selections| ==> MarkerEdits(value, selections, marker)[i].edit.from == FromOf(selections[i])
  {
    var first := MarkerEdits(value, selections, marker);
    forall k | 0 <= k < |first| ensures SortedChanges(first)[k].insert != "" {
      ChangeAt(first, k);
      assert TakesWrapBranch(value, selections[OrderOf(first)[k]], marker);
    }
  }

  lemma WrapUndoneBy(value: string, selections: seq<Selection>, marker: string, t: Transaction, u: Transaction)
    requires SelectionsInside(value, selections) && marker != ""
    requires forall i :: 0 <= i < |selections| ==> TakesWrapBranch(value, selections[i], marker)
    requires IsTransaction(MarkerEdits(value, selections, marker), t)
    requires NonOverlapping(t.changes) && DistinctStarts(t.changes) && Ascending(t.changes, |value|)
    requires SelectionsInside(Spliced(value, t.changes), t.selections)
    requires IsTransaction(MarkerEdits(Spliced(value, t.changes), t.selections, marker), u)
    ensures NonOverlapping(u.changes) && Apply(Spliced(value, t.changes), u.changes) == value && u.selections == selections
  {
    var first := MarkerEdits(value, selections, marker);
    var second := MarkerEdits(Spliced(value, t.changes), t.selections, marker);
    MarkerEditsFit(value, selections, marker);
    WrapsInsert(value, selections, marker);
    WrapsTakenBack(value, selections, marker, t, second);
    TakenBack(value, first, t, second, u);
    ApplyIsSplice(value, t.changes);
    AllRestored(value, selections, second, u.selections);
  }

  // ---------------------------------------------------------------- inline code

  /** Backticks at the end and at the start of a text. */
  function TicksAtEnd(s: string): (n: nat)
    ensures n <= |s|
  {
    if s == "" || s[|s| - 1] != '`' then 0 else 1 + TicksAtEnd(s[..|s| - 1])
  }

  function TicksAtStart(s: string): (n: nat)
    ensures n <= |s|
  {
    if s == "" || s[0] != '`' then 0 else 1 + TicksAtStart(s[1..])
  }

  function Ticks(n: nat): (s: string)
    ensures |s| == n && forall i :: 0 <= i < n ==> s[i] == '`'
  {
    seq(n, i => '`')
  }

  /** The counting loop to the left of a position. */
  method CountTicksBefore(value: string, position: int) returns (count: nat)
    requires position <= |value|
    ensures count == if position < 0 then 0 else TicksAtEnd(value[..position])
  {
    count := 0;
    var index := position - 1;
    while index >= 0 && value[index] == '`'
      invariant -1 <= index < Upper(position, 0) || index == position - 1
      invariant index >= -1 ==> (if position < 0 then 0 else TicksAtEnd(value[..position])) == count + TicksAtEnd(value[..index + 1])
      invariant index < -1 ==> count == 0 && position < 0
      decreases index
    {
      assert value[..index + 1][..index] == value[..index];
      count := count + 1;
      index := index - 1;
    }
  }

  /** The counting loop to the right of a position. */
  method CountTicksAfter(value: string, position: nat) returns (count: nat)
    ensures count == if position <= |value| then TicksAtStart(value[position..]) else 0
  {
    count := 0;
    var index := position;
    while index < |value| && value[index] == '`'
      invariant position <= |value| ==> position <= index <= |value| && TicksAtStart(value[position..]) == count + TicksAtStart(value[index..])
      invariant position > |value| ==> count == 0 && index == position
    {
      assert value[index..][1..] == value[index + 1..];
      count := count + 1;
      index := index + 1;
    }
  }

  datatype Range = Range(from: nat, to: nat)

  /** How much of fence and padding stands on each side of a selection, given the text before and after it:
      equal runs of backticks, or the same one space away. */
  function FencesAround(before: string, after: string): (width: Option<nat>)
    ensures width.Some? ==> width.value <= |before| && width.value <= |after|
  {
    var b, a := TicksAtEnd(before), TicksAtStart(after);
    if b > 0 && b == a then Some(b)
    else if before == "" || before[|before| - 1] != ' ' || after == "" || after[0] != ' ' then None
    else
      var outer := TicksAtEnd(before[..|before| - 1]);
      if outer > 0 && outer == TicksAtStart(after[1..]) then Some(outer + 1) else None
  }

  function SurroundingInlineCode(value: string, from: nat, to: nat): Option<Range>
    requires from <= to <= |value|
  {
    match FencesAround(value[..from], value[to..])
    case None => None
    case Some(width) => Some(Range(from - width, to + width))
  }

  method FindSurroundingInlineCode(value: string, from: nat, to: nat) returns (range: Option<Range>)
    requires from <= to <= |value|
    ensures range == SurroundingInlineCode(value, from, to)
  {
    var before := CountTicksBefore(value, from);
    var after := CountTicksAfter(value, to);
    if before > 0 && before == after {
      return Some(Range(from - before, to + after));
    }
    if from == 0 || value[from - 1] != ' ' || to == |value| || value[to] != ' ' {
      return None;
    }
    assert value[..from][..from - 1] == value[..from - 1] && value[to..][1..] == value[to + 1..];
    before := CountTicksBefore(value, from - 1);
    after := CountTicksAfter(value, to + 1);
    range := if before > 0 && before == after then Some(Range(from - before - 1, to + after + 1)) else None;
  }

  /** The longest run of backticks. */
  function LongestBacktickRun(s: string): (n: nat)
    ensures n <= |s|
  {
    if s == "" then 0
    else
      var shorter, last := LongestBacktickRun(s[..|s| - 1]), TicksAtEnd(s);
      if last > shorter then last else shorter
  }

  /** Every stretch of backticks ends somewhere, and is no longer than the run that ends there. */
  lemma {:induction false} StretchAtEnd(s: string, n: nat)
    requires n <= |s| && forall i :: |s| - n <= i < |s| ==> s[i] == '`'
    ensures n <= TicksAtEnd(s)
  {
    if n > 0 {
      StretchAtEnd(s[..|s| - 1], n - 1);
    }
  }

  lemma {:induction false} LongestRunBounds(s: string, i: nat, j: nat)
    requires i <= j <= |s| && forall k :: i <= k < j ==> s[k] == '`'
    ensures j - i <= LongestBacktickRun(s)
  {
    if s != "" {
      if j == |s| {
        StretchAtEnd(s, j - i);
      } else {
        LongestRunBounds(s[..|s| - 1], i, j);
      }
    }
  }

  function CodeFence(selected: string): string {
    Ticks(LongestBacktickRun(selected) + 1)
  }

  function CodePadding(selected: string): string {
    if selected != "" && (selected[0] == '`' || selected[|selected| - 1] == '`') then " " else ""
  }

  function CodeInsert(selected: string): string {
    CodeFence(selected) + CodePadding(selected) + selected + CodePadding(selected) + CodeFence(selected)
  }

  /** The edit of toggleInlineCode for one selection. */
  function InlineCodeEdit(value: string, s: Selection, index: nat): SelectionEdit
    requires SelectionInside(value, s)
  {
    var from, to := FromOf(s), ToOf(s);
    var selected := SelectedText(value, s);
    var reversed := s.anchor > s.head;
    match SurroundingInlineCode(value, from, to)
    case Some(range) => SelectionEdit(Edit(range.from, range.to, selected), 0, |selected|, reversed, index)
    case None =>
      var selectionFrom := |CodeFence(selected)| + |CodePadding(selected)|;
      SelectionEdit(Edit(from, to, CodeInsert(selected)), selectionFrom, selectionFrom + |selected|, reversed, index)
  }

  function CodeEdits(value: string, selections: seq<Selection>): (edits: seq<SelectionEdit>)
    requires SelectionsInside(value, selections)
    ensures |edits| == |selections|
  {
    seq(|selections|, i requires 0 <= i < |selections| => InlineCodeEdit(value, selections[i], i))
  }

  method ToggleInlineCode(value: string, selections: seq<Selection>) returns (outcome: Outcome)
    requires SelectionsInside(value, selections)
    ensures outcome.Overlap? <==> !NonOverlapping(SortedChanges(CodeEdits(value, selections)))
    ensures outcome.Done? ==> TogglesCode(value, selections, outcome.transaction)
  {
    outcome := TransactionFromSelectionEdits(CodeEdits(value, selections), |value|);
  }

  /** `t` is the transaction of toggleInlineCode. */
  ghost predicate TogglesCode(value: string, selections: seq<Selection>, t: Transaction) {
    SelectionsInside(value, selections) && IsTransaction(CodeEdits(value, selections), t)
  }

  /** A run of backticks that cannot be extended. */
  predicate MaximalRun(s: string, i: nat, j: nat) {
    && i < j <= |s| && (forall k :: i <= k < j ==> s[k] == '`')
    && (i == 0 || s[i - 1] != '`') && (j == |s| || s[j] != '`')
  }

  /** The code span is delimited as section 6.1 of CommonMark asks: the opening fence is a run of its own, and
      the first later run of the same length is the closing fence. */
  lemma FenceDelimits(selected: string, i: nat, j: nat)
    requires selected != ""
    ensures var n := |CodeFence(selected)|; var text := CodeInsert(selected);
            && MaximalRun(text, 0, n) && MaximalRun(text, |text| - n, |text|)
            && (MaximalRun(text, i, j) ==> (j - i == n <==> i == 0 || j == |text|))
  {
    var n := |CodeFence(selected)|;
    var p := CodePadding(selected);
    var inner := p + selected + p;
    var text := CodeInsert(selected);
    assert text == Ticks(n) + inner + Ticks(n);
    assert inner[0] != '`' && inner[|inner| - 1] != '`';
    assert text[n] == inner[0] && text[|text| - n - 1] == inner[|inner| - 1];
    if MaximalRun(text, i, j) {
      if i < n {
        assert i == 0;
        assert j == n;
      } else if j > |text| - n {
        assert j == |text|;
        assert i == |text| - n;
      } else {
        InnerRunShorter(selected, i, j);
      }
    }
  }

  lemma InnerRunShorter(selected: string, i: nat, j: nat)
    requires var n := |CodeFence(selected)|; var text := CodeInsert(selected);
             n <= i < j <= |text| - n && MaximalRun(text, i, j)
    ensures j - i < |CodeFence(selected)|
  {
    var n := |CodeFence(selected)|;
    var p := CodePadding(selected);
    var text := CodeInsert(selected);
    var start := n + |p|;
    assert forall k :: 0 <= k < |selected| ==> text[start + k] == selected[k];
    assert p != "" ==> text[n] == ' ' && text[start + |selected|] == ' ';
    LongestRunBounds(selected, i - start, j - start);
  }

  // ---------------------------------------------------------------- the fence that a second toggle finds

  predicate AllTicks(s: string) {
    forall i :: 0 <= i < |s| ==> s[i] == '`'
  }

  lemma {:induction false} TicksAtEndAppend(s: string, ticks: string)
    requires AllTicks(ticks)
    ensures TicksAtEnd(s + ticks) == TicksAtEnd(s) + |ticks|
  {
    if ticks != "" {
      var shorter := ticks[..|ticks| - 1];
      TicksAtEndAppend(s, shorter);
      assert (s + ticks)[..|s| + |ticks| - 1] == s + shorter;
    } else {
      assert s + ticks == s;
    }
  }

  lemma {:induction false} TicksAtStartPrepend(ticks: string, s: string)
    requires AllTicks(ticks)
    ensures TicksAtStart(ticks + s) == |ticks| + TicksAtStart(s)
  {
    if ticks != "" {
      TicksAtStartPrepend(ticks[1..], s);
      assert (ticks + s)[1..] == ticks[1..] + s;
    } else {
      assert ticks + s == s;
    }
  }

  lemma FencesTouch(before: string, after: string)
    requires TicksAtEnd(before) > 0 && TicksAtStart(after) > 0
    ensures FencesAround(before, after) == if TicksAtEnd(before) == TicksAtStart(after) then Some(TicksAtEnd(before)) else None
  {
  }

  lemma FencesPadded(before: string, after: string)
    requires TicksAtEnd(before) > 0
    ensures FencesAround(before + " ", " " + after)
         == if TicksAtEnd(before) == TicksAtStart(after) then Some(TicksAtEnd(before) + 1) else None
  {
    var b, a := before + " ", " " + after;
    assert b[|b| - 1] == ' ' && a[0] == ' ';
    assert b[..|b| - 1] == before && a[1..] == after;
  }

  /** The fences around the selection, after they were put between `left` and `right`. */
  lemma {:induction false} FencesAfterWrap(left: string, fence: string, padding: string, right: string)
    requires fence != "" && AllTicks(fence) && (padding == "" || padding == " ")
    ensures FencesAround(left + fence + padding, padding + fence + right)
         == if TicksAtEnd(left) == TicksAtStart(right) then Some(TicksAtEnd(left) + |fence| + |padding|) else None
  {
    TicksAtEndAppend(left, fence);
    TicksAtStartPrepend(fence, right);
    FencesPlaced(left + fence, padding, fence + right);
    Assoc(padding, fence, right);
  }

  lemma FencesPlaced(before: string, padding: string, after: string)
    requires TicksAtEnd(before) > 0 && TicksAtStart(after) > 0 && (padding == "" || padding == " ")
    ensures FencesAround(before + padding, padding + after)
         == if TicksAtEnd(before) == TicksAtStart(after) then Some(TicksAtEnd(before) + |padding|) else None
  {
    if padding == "" {
      assert before + padding == before && padding + after == after;
      FencesTouch(before, after);
    } else {
      FencesPadded(before, after);
    }
  }

  lemma CutAround<T>(w: seq<T>, left: seq<T>, fence: seq<T>, p: seq<T>, selected: seq<T>, right: seq<T>)
    requires w == left + (fence + p + selected + p + fence) + right
    ensures var from := |left| + |fence| + |p|; var to := from + |selected|;
            && to <= |w| && w[..from] == left + fence + p && w[from..to] == selected && w[to..] == p + fence + right
  {
    assert w == (left + fence + p) + selected + (p + fence + right);
  }

  lemma SurroundingOf(value: string, from: nat, to: nat, before: string, after: string)
    requires from <= to <= |value| && value[..from] == before && value[to..] == after
    ensures SurroundingInlineCode(value, from, to)
         == match FencesAround(before, after) case None => None case Some(width) => Some(Range(from - width, to + width))
  {
  }

  /** `insert` is a selected text between two equal fences of backticks. */
  predicate IsFenced(insert: string, fence: string, padding: string, selected: string) {
    && insert == fence + padding + selected + padding + fence
    && fence != "" && AllTicks(fence) && (padding == "" || padding == " ")
  }

  lemma CodeInsertFenced(selected: string)
    ensures IsFenced(CodeInsert(selected), CodeFence(selected), CodePadding(selected), selected)
  {
  }

  /** The fence that the second toggle finds: the one put by the first toggle and any adjacent backticks, if these
      are as many on both sides. */
  lemma {:induction false} SurroundingAfterWrap(w: string, left: string, insert: string, fence: string, padding: string, selected: string, right: string)
    requires IsFenced(insert, fence, padding, selected) && w == left + insert + right
    ensures var ticks := TicksAtEnd(left); var from := |left| + |fence| + |padding|; var to := from + |selected|;
            && to <= |w| && w[from..to] == selected
            && SurroundingInlineCode(w, from, to)
               == (if ticks == TicksAtStart(right) then Some(Range(|left| - ticks, |left| + |insert| + ticks)) else None)
  {
    var from := |left| + |fence| + |padding|;
    CutAround(w, left, fence, padding, selected, right);
    FencesAfterWrap(left, fence, padding, right);
    SurroundingOf(w, from, from + |selected|, left + fence + padding, padding + fence + right);
  }

  /** The edit of the second toggle. */
  lemma {:induction false} SecondCodeEdit(w: string, left: string, insert: string, fence: string, padding: string, selected: string, right: string, placed: Selection)
    requires IsFenced(insert, fence, padding, selected) && w == left + insert + right
    requires FromOf(placed) == |left| + |fence| + |padding| && ToOf(placed) == FromOf(placed) + |selected|
    ensures SelectionInside(w, placed) && SelectedText(w, placed) == selected
    ensures SurroundingInlineCode(w, FromOf(placed), ToOf(placed))
         == (if TicksAtEnd(left) != TicksAtStart(right) then None
             else Some(Range(|left| - TicksAtEnd(left), |left| + |insert| + TicksAtEnd(left))))
  {
    SurroundingAfterWrap(w, left, insert, fence, padding, selected, right);
  }
}
