/** Which fences the inline code command finds and which one it puts. */
module CodeFences {
  import opened Text
  import opened Edits
  import opened InlineToggles
  import opened MarkerToggles

  // ---------------------------------------------------------------- the fence that is found

  /** `before` ends with a run of exactly `n` backticks and the padding, and `after` starts with the padding and
      such a run. */
  predicate FencedBy(before: string, after: string, n: nat, padding: string, left: string, right: string) {
    && n > 0 && (padding == "" || padding == " ")
    && before == left + Ticks(n) + padding && after == padding + Ticks(n) + right
    && (left != "" ==> left[|left| - 1] != '`') && (right != "" ==> right[0] != '`')
  }

  lemma {:induction false} TicksCutEnd(s: string)
    ensures var n := TicksAtEnd(s); var left := s[..|s| - n];
            s == left + Ticks(n) && (left != "" ==> left[|left| - 1] != '`')
  {
    if s != "" && s[|s| - 1] == '`' {
      TicksCutEnd(s[..|s| - 1]);
      var n := TicksAtEnd(s);
      assert s == s[..|s| - 1] + "`";
      assert Ticks(n - 1) + "`" == Ticks(n);
    }
  }

  lemma {:induction false} TicksCutStart(s: string)
    ensures var n := TicksAtStart(s); var right := s[n..];
            s == Ticks(n) + right && (right != "" ==> right[0] != '`')
  {
    if s != "" && s[0] == '`' {
      TicksCutStart(s[1..]);
      var n := TicksAtStart(s);
      assert s == "`" + s[1..];
      assert "`" + Ticks(n - 1) == Ticks(n);
    }
  }

  lemma {:induction false} FenceFound(before: string, after: string, n: nat, padding: string, left: string, right: string)
    requires FencedBy(before, after, n, padding, left, right)
    ensures FencesAround(before, after) == Some(n + |padding|)
  {
    TicksAtEndAppend(left, Ticks(n));
    TicksAtStartPrepend(Ticks(n), right);
    FencesPlaced(left + Ticks(n), padding, Ticks(n) + right);
    assert padding + Ticks(n) + right == padding + (Ticks(n) + right);
  }

  /** Equal runs of backticks at the end of one text and at the start of the other. */
  lemma {:induction false} RunsAre(outer: string, inner: string, n: nat)
    requires n > 0 && n == TicksAtEnd(outer) == TicksAtStart(inner)
    ensures FencedBy(outer, inner, n, "", outer[..|outer| - n], inner[n..])
    ensures FencedBy(outer + " ", " " + inner, n, " ", outer[..|outer| - n], inner[n..])
  {
    var left, right := outer[..|outer| - n], inner[n..];
    TicksCutEnd(outer);
    TicksCutStart(inner);
    assert left + Ticks(n) + "" == outer && "" + Ticks(n) + right == inner;
    assert " " + Ticks(n) + right == " " + inner;
  }

  lemma PaddedTexts(before: string, after: string)
    requires before != "" && before[|before| - 1] == ' ' && after != "" && after[0] == ' '
    ensures before == before[..|before| - 1] + " " && after == " " + after[1..]
  {
  }

  lemma {:induction false} FenceIs(before: string, after: string) returns (n: nat, padding: string, left: string, right: string)
    requires FencesAround(before, after).Some?
    ensures FencedBy(before, after, n, padding, left, right)
  {
    var outer, inner := before, after;
    padding := "";
    if TicksAtEnd(before) == 0 || TicksAtEnd(before) != TicksAtStart(after) {
      PaddedTexts(before, after);
      outer, inner, padding := before[..|before| - 1], after[1..], " ";
    }
    n := TicksAtEnd(outer);
    RunsAre(outer, inner, n);
    left, right := outer[..|outer| - n], inner[n..];
  }

  // ---------------------------------------------------------------- the fence that is put

  /** Some stretch of backticks is as long as the longest run. */
  lemma {:induction false} LongestRunReached(s: string) returns (i: nat, j: nat)
    ensures i <= j <= |s| && j - i == LongestBacktickRun(s) && forall k :: i <= k < j ==> s[k] == '`'
  {
    if s == "" {
      i, j := 0, 0;
    } else {
      i, j := LongestRunReached(s[..|s| - 1]);
      if TicksAtEnd(s) > j - i {
        i, j := |s| - TicksAtEnd(s), |s|;
        TicksCutEnd(s);
      }
    }
  }

  /** A stretch of `n` backticks. */
  predicate HasTicks(s: string, i: nat, n: nat) {
    i + n <= |s| && forall k :: i <= k < i + n ==> s[k] == '`'
  }

  ghost predicate HasRun(s: string, n: nat) {
    exists i: nat :: HasTicks(s, i, n)
  }

  /** The shortest fence that is longer than every run in the text, and spaces if a backtick would touch it. */
  ghost predicate IsFencingOf(insert: string, selected: string, n: nat, padding: string) {
    && insert == Ticks(n) + padding + selected + padding + Ticks(n) && n > 0
    && !HasRun(selected, n) && (n > 1 ==> HasRun(selected, n - 1))
    && padding == if selected != "" && (selected[0] == '`' || selected[|selected| - 1] == '`') then " " else ""
  }

  lemma FenceIsShortest(selected: string)
    ensures IsFencingOf(CodeInsert(selected), selected, LongestBacktickRun(selected) + 1, CodePadding(selected))
  {
    var n := LongestBacktickRun(selected) + 1;
    if i: nat :| HasTicks(selected, i, n) {
      LongestRunBounds(selected, i, i + n);
    }
    var i, j := LongestRunReached(selected);
    assert HasTicks(selected, i, n - 1);
  }

  // ---------------------------------------------------------------- the toggle

  /** A fence stands around the selection. */
  predicate StandsFenced(value: string, s: Selection, n: nat, padding: string, left: string, right: string)
    requires SelectionInside(value, s)
  {
    FencedBy(value[..FromOf(s)], value[ToOf(s)..], n, padding, left, right)
  }

  ghost predicate StandsUnfenced(value: string, s: Selection)
    requires SelectionInside(value, s)
  {
    forall n, padding, left, right :: !StandsFenced(value, s, n, padding, left, right)
  }

  /** A fence around the selection is removed; otherwise the shortest fitting one is put around it. */
  ghost predicate IsCodeToggle(value: string, s: Selection, e: Edit)
    requires SelectionInside(value, s)
  {
    var selected := SelectedText(value, s);
    && (forall n, padding, left, right :: StandsFenced(value, s, n, padding, left, right) ==>
          e == Edit(|left|, |value| - |right|, selected))
    && (StandsUnfenced(value, s) ==>
          e.from == FromOf(s) && e.to == ToOf(s) && exists n, padding :: IsFencingOf(e.insert, selected, n, padding))
  }

  lemma {:induction false} FencedEdit(value: string, s: Selection, index: nat, n: nat, padding: string, left: string, right: string)
    requires SelectionInside(value, s) && StandsFenced(value, s, n, padding, left, right)
    ensures var selected := SelectedText(value, s);
            InlineCodeEdit(value, s, index)
            == SelectionEdit(Edit(|left|, |value| - |right|, selected), 0, |selected|, s.anchor > s.head, index)
  {
    FenceFound(value[..FromOf(s)], value[ToOf(s)..], n, padding, left, right);
  }

  lemma {:induction false} UnfencedEdit(value: string, s: Selection, index: nat)
    requires SelectionInside(value, s) && StandsUnfenced(value, s)
    ensures var e := InlineCodeEdit(value, s, index); var selected := SelectedText(value, s);
            && e.edit == Edit(FromOf(s), ToOf(s), CodeInsert(selected)) && e.reversed == (s.anchor > s.head)
            && SelectsInsert(e) && LeftSelected(e) == selected
  {
    if FencesAround(value[..FromOf(s)], value[ToOf(s)..]).Some? {
      var n, padding, left, right := FenceIs(value[..FromOf(s)], value[ToOf(s)..]);
      assert StandsFenced(value, s, n, padding, left, right);
    }
    InsertedText(SelectedText(value, s));
  }

  lemma InsertedText(selected: string)
    ensures var from := |CodeFence(selected)| + |CodePadding(selected)|;
            from + |selected| <= |CodeInsert(selected)| && CodeInsert(selected)[from..from + |selected|] == selected
  {
    var head, tail := CodeFence(selected) + CodePadding(selected), CodePadding(selected) + CodeFence(selected);
    assert CodeInsert(selected) == head + selected + tail;
  }

  lemma {:induction false} OneCodeToggle(value: string, s: Selection, index: nat)
    requires SelectionInside(value, s)
    ensures var e := InlineCodeEdit(value, s, index);
            && InBounds(e.edit, |value|) && SelectsInsert(e) && e.reversed == (s.anchor > s.head)
            && LeftSelected(e) == SelectedText(value, s) && IsCodeToggle(value, s, e.edit)
  {
    var e := InlineCodeEdit(value, s, index);
    if n, padding, left, right :| StandsFenced(value, s, n, padding, left, right) {
      forall n, padding, left, right | StandsFenced(value, s, n, padding, left, right)
        ensures e.edit == Edit(|left|, |value| - |right|, SelectedText(value, s)) && |left| <= |value| - |right| <= |value|
        ensures SelectsInsert(e) && e.reversed == (s.anchor > s.head) && LeftSelected(e) == SelectedText(value, s)
      {
        FencedEdit(value, s, index, n, padding, left, right);
      }
      assert StandsFenced(value, s, n, padding, left, right);
    } else {
      UnfencedEdit(value, s, index);
      FenceIsShortest(SelectedText(value, s));
    }
  }

  /** Toggling inline code on several selections with different starts: the text is the splice of one toggle for
      each, and each returned selection covers the text that was selected. */
  lemma {:induction false} CodeToggled(value: string, selections: seq<Selection>, t: Transaction, i: nat) returns (k: nat)
    requires TogglesCode(value, selections, t) && NonOverlapping(t.changes) && DistinctStarts(t.changes) && i < |selections|
    ensures |t.changes| == |t.selections| == |selections| && Ascending(t.changes, |value|)
    ensures Apply(value, t.changes) == Spliced(value, t.changes)
    ensures k < |t.changes| && IsCodeToggle(value, selections[i], t.changes[k])
    ensures Covers(Apply(value, t.changes), t.selections[i], SelectedText(value, selections[i]), selections[i].anchor > selections[i].head)
  {
    var edits := CodeEdits(value, selections);
    forall j | 0 <= j < |edits| ensures InBounds(edits[j].edit, |value|) {
      OneCodeToggle(value, selections[j], j);
    }
    ChangesAscending(edits, |value|);
    ApplyIsSplice(value, t.changes);
    OneCodeToggle(value, selections[i], i);
    k := RankOf(edits, i);
    ChangeAt(edits, k);
    TransactionCoherent(value, edits, t, i);
  }
}
