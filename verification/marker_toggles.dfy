/** What toggling a marker does to each selection: unwrap it, remove the markers around it, or wrap it. */
module MarkerToggles {
  import opened Edits
  import opened InlineToggles

  /** The selected text is `inner` between two markers. */
  predicate Carries(selected: string, marker: string, inner: string) {
    selected == marker + inner + marker
  }

  /** The selection stands between two markers, with `left` and `right` around them. */
  predicate StandsBetween(value: string, s: Selection, marker: string, left: string, right: string)
    requires SelectionInside(value, s)
  {
    value == left + marker + SelectedText(value, s) + marker + right && FromOf(s) == |left + marker|
  }

  ghost predicate CarriesNone(selected: string, marker: string) {
    forall inner :: !Carries(selected, marker, inner)
  }

  ghost predicate StandsFree(value: string, s: Selection, marker: string)
    requires SelectionInside(value, s)
  {
    forall left, right :: !StandsBetween(value, s, marker, left, right)
  }

  /** Edit `e` of the text and the text that is selected afterwards, for one selection. A selection with markers
      in it loses them, wherever it stands; otherwise markers around it are removed; otherwise it is wrapped. */
  ghost predicate IsToggle(value: string, s: Selection, marker: string, e: Edit, text: string)
    requires SelectionInside(value, s)
  {
    var selected := SelectedText(value, s);
    && (forall inner :: Carries(selected, marker, inner) ==> e == Edit(FromOf(s), ToOf(s), inner) && text == inner)
    && (CarriesNone(selected, marker) ==>
          text == selected
          && (forall left, right :: StandsBetween(value, s, marker, left, right) ==>
                e == Edit(|left|, |left| + |marker + selected + marker|, selected))
          && (StandsFree(value, s, marker) ==> e == Edit(FromOf(s), ToOf(s), marker + selected + marker)))
  }

  lemma CarriesIff(selected: string, marker: string, inner: string)
    requires Carries(selected, marker, inner)
    ensures IsWrapped(selected, marker) && selected[|marker|..|selected| - |marker|] == inner
  {
  }

  lemma WrappedCarries(selected: string, marker: string)
    requires IsWrapped(selected, marker)
    ensures Carries(selected, marker, selected[|marker|..|selected| - |marker|])
  {
    var m := |marker|;
    assert selected == selected[..m] + selected[m..|selected| - m] + selected[|selected| - m..];
  }

  lemma BetweenIsSurrounded(value: string, s: Selection, marker: string, left: string, right: string)
    requires SelectionInside(value, s) && StandsBetween(value, s, marker, left, right)
    ensures IsSurrounded(value, FromOf(s), ToOf(s), marker) && |left| == FromOf(s) - |marker|
  {
    var selected := SelectedText(value, s);
    assert value == left + marker + (selected + marker + right);
    assert value == (left + marker + selected) + marker + right;
  }

  lemma SurroundedStands(value: string, s: Selection, marker: string)
    requires SelectionInside(value, s) && IsSurrounded(value, FromOf(s), ToOf(s), marker)
    ensures StandsBetween(value, s, marker, value[..FromOf(s) - |marker|], value[ToOf(s) + |marker|..])
  {
    var from, to, m := FromOf(s), ToOf(s), |marker|;
    assert value == value[..from - m] + value[from - m..from] + value[from..to] + value[to..to + m] + value[to + m..];
  }

  /** The text that the edit of one selection leaves selected. */
  function LeftSelected(e: SelectionEdit): string
    requires SelectsInsert(e)
  {
    e.edit.insert[e.selectionFrom..e.selectionTo]
  }

  lemma {:induction false} CarryingToggle(value: string, s: Selection, marker: string, index: nat, inner: string)
    requires SelectionInside(value, s) && Carries(SelectedText(value, s), marker, inner)
    ensures InlineMarkerEdit(value, s, marker, index)
         == SelectionEdit(Edit(FromOf(s), ToOf(s), inner), 0, |inner|, s.anchor > s.head, index)
  {
    CarriesIff(SelectedText(value, s), marker, inner);
  }

  lemma {:induction false} BetweenToggle(value: string, s: Selection, marker: string, index: nat, left: string, right: string)
    requires SelectionInside(value, s) && CarriesNone(SelectedText(value, s), marker) && StandsBetween(value, s, marker, left, right)
    ensures var selected := SelectedText(value, s);
            InlineMarkerEdit(value, s, marker, index)
            == SelectionEdit(Edit(|left|, |left| + |marker + selected + marker|, selected), 0, |selected|, s.anchor > s.head, index)
  {
    if IsWrapped(SelectedText(value, s), marker) {
      WrappedCarries(SelectedText(value, s), marker);
    }
    BetweenIsSurrounded(value, s, marker, left, right);
  }

  lemma {:induction false} FreeToggle(value: string, s: Selection, marker: string, index: nat)
    requires SelectionInside(value, s) && CarriesNone(SelectedText(value, s), marker) && StandsFree(value, s, marker)
    ensures var selected := SelectedText(value, s);
            InlineMarkerEdit(value, s, marker, index)
            == SelectionEdit(Edit(FromOf(s), ToOf(s), marker + selected + marker), |marker|, |marker| + |selected|, s.anchor > s.head, index)
  {
    if IsWrapped(SelectedText(value, s), marker) {
      WrappedCarries(SelectedText(value, s), marker);
    }
    if IsSurrounded(value, FromOf(s), ToOf(s), marker) {
      SurroundedStands(value, s, marker);
    }
  }

  lemma {:induction false} OneToggle(value: string, s: Selection, marker: string, index: nat)
    requires SelectionInside(value, s)
    ensures var e := InlineMarkerEdit(value, s, marker, index);
            && InBounds(e.edit, |value|) && SelectsInsert(e) && e.reversed == (s.anchor > s.head)
            && IsToggle(value, s, marker, e.edit, LeftSelected(e))
  {
    var e := InlineMarkerEdit(value, s, marker, index);
    var selected := SelectedText(value, s);
    if inner :| Carries(selected, marker, inner) {
      forall inner | Carries(selected, marker, inner) ensures e.edit == Edit(FromOf(s), ToOf(s), inner) && LeftSelected(e) == inner {
        CarryingToggle(value, s, marker, index, inner);
      }
    } else if left, right :| StandsBetween(value, s, marker, left, right) {
      forall left, right | StandsBetween(value, s, marker, left, right)
        ensures e.edit == Edit(|left|, |left| + |marker + selected + marker|, selected) && LeftSelected(e) == selected
      {
        BetweenToggle(value, s, marker, index, left, right);
      }
    } else {
      FreeToggle(value, s, marker, index);
    }
  }

  /** Toggling several selections with different starts: the text is the splice of one toggle for each, and each
      returned selection covers the text of its own toggle in the final text, in the direction it had. */
  lemma {:induction false} MarkersToggled(value: string, selections: seq<Selection>, marker: string, t: Transaction, i: nat)
    returns (k: nat, text: string)
    requires SelectionsInside(value, selections) && IsTransaction(MarkerEdits(value, selections, marker), t)
    requires NonOverlapping(t.changes) && DistinctStarts(t.changes) && i < |selections|
    ensures |t.changes| == |t.selections| == |selections| && Ascending(t.changes, |value|)
    ensures Apply(value, t.changes) == Spliced(value, t.changes)
    ensures k < |t.changes| && IsToggle(value, selections[i], marker, t.changes[k], text)
    ensures Covers(Apply(value, t.changes), t.selections[i], text, selections[i].anchor > selections[i].head)
  {
    var edits := MarkerEdits(value, selections, marker);
    forall j | 0 <= j < |edits| ensures InBounds(edits[j].edit, |value|) {
      OneToggle(value, selections[j], marker, j);
    }
    ChangesAscending(edits, |value|);
    ApplyIsSplice(value, t.changes);
    OneToggle(value, selections[i], marker, i);
    k := RankOf(edits, i);
    ChangeAt(edits, k);
    text := LeftSelected(edits[i]);
    TransactionCoherent(value, edits, t, i);
  }

  /** A selection that carries its markers loses them: its change puts the inner text in its place. */
  lemma {:induction false} MarkersRemoved(value: string, selections: seq<Selection>, marker: string, t: Transaction, i: nat, inner: string)
    returns (k: nat)
    requires SelectionsInside(value, selections) && IsTransaction(MarkerEdits(value, selections, marker), t)
    requires NonOverlapping(t.changes) && DistinctStarts(t.changes)
    requires i < |selections| && Carries(SelectedText(value, selections[i]), marker, inner)
    ensures k < |t.changes| && t.changes[k] == Edit(FromOf(selections[i]), ToOf(selections[i]), inner)
    ensures |t.selections| == |selections| && Covers(Apply(value, t.changes), t.selections[i], inner, selections[i].anchor > selections[i].head)
  {
    var text;
    k, text := MarkersToggled(value, selections, marker, t, i);
    assert IsToggle(value, selections[i], marker, t.changes[k], text);
  }

  /** Markers around a selection that carries none are removed together with nothing else. */
  lemma {:induction false} MarkersAroundRemoved(value: string, selections: seq<Selection>, marker: string, t: Transaction, i: nat,
                                                left: string, right: string)
    returns (k: nat)
    requires SelectionsInside(value, selections) && IsTransaction(MarkerEdits(value, selections, marker), t)
    requires NonOverlapping(t.changes) && DistinctStarts(t.changes)
    requires i < |selections| && CarriesNone(SelectedText(value, selections[i]), marker)
    requires StandsBetween(value, selections[i], marker, left, right)
    ensures var selected := SelectedText(value, selections[i]);
            && k < |t.changes| && t.changes[k] == Edit(|left|, |value| - |right|, selected)
            && |t.selections| == |selections| && Covers(Apply(value, t.changes), t.selections[i], selected, selections[i].anchor > selections[i].head)
  {
    var text;
    k, text := MarkersToggled(value, selections, marker, t, i);
    assert IsToggle(value, selections[i], marker, t.changes[k], text);
  }

  lemma SplicedOne(value: string, edit: Edit)
    requires Ascending([edit], |value|)
    ensures edit.from <= edit.to <= |value| && Spliced(value, [edit]) == value[..edit.from] + edit.insert + value[edit.to..]
  {
    assert InOrderAt([edit], |value|, 0);
    assert TailFrom(value, [edit], 1) == value[edit.to..];
    assert value[0..edit.from] == value[..edit.from];
  }

  lemma MiddleReplaced(value: string, left: string, middle: string, right: string, inner: string)
    requires value == left + middle + right
    ensures value[..|left|] + inner + value[|left| + |middle|..] == left + inner + right
    ensures value[|left|..|left| + |middle|] == middle
  {
  }

  /** The markers of one selection are inside of it, or around it. */
  ghost predicate MarkedIn(value: string, s: Selection, marker: string, left: string, inner: string, right: string)
    requires SelectionInside(value, s)
  {
    || (FromOf(s) == |left| && ToOf(s) == |value| - |right|)
    || (StandsBetween(value, s, marker, left, right) && SelectedText(value, s) == inner && CarriesNone(inner, marker))
  }

  lemma {:induction false} OneChange(value: string, s: Selection, marker: string, t: Transaction, left: string, inner: string, right: string)
    requires SelectionInside(value, s) && IsTransaction(MarkerEdits(value, [s], marker), t)
    requires value == left + (marker + inner + marker) + right && MarkedIn(value, s, marker, left, inner, right)
    ensures t.changes == [Edit(|left|, |left| + |marker + inner + marker|, inner)]
  {
    var k: nat;
    assert |t.changes| == 1;
    if FromOf(s) == |left| && ToOf(s) == |value| - |right| {
      MiddleReplaced(value, left, marker + inner + marker, right, inner);
      k := MarkersRemoved(value, [s], marker, t, 0, inner);
    } else {
      k := MarkersAroundRemoved(value, [s], marker, t, 0, left, right);
    }
  }

  /** One selection: the text without its markers. */
  lemma {:induction false} MarkersGone(value: string, s: Selection, marker: string, t: Transaction, left: string, inner: string, right: string)
    requires SelectionInside(value, s) && IsTransaction(MarkerEdits(value, [s], marker), t)
    requires value == left + (marker + inner + marker) + right && MarkedIn(value, s, marker, left, inner, right)
    ensures Apply(value, t.changes) == left + inner + right
  {
    OneChange(value, s, marker, t, left, inner, right);
    ToggledText(value, s, marker, t);
    SplicedOne(value, t.changes[0]);
    MiddleReplaced(value, left, marker + inner + marker, right, inner);
  }

  lemma ToggledText(value: string, s: Selection, marker: string, t: Transaction)
    requires SelectionInside(value, s) && IsTransaction(MarkerEdits(value, [s], marker), t)
    ensures Ascending(t.changes, |value|) && Apply(value, t.changes) == Spliced(value, t.changes)
  {
    var k, text := MarkersToggled(value, [s], marker, t, 0);
  }
}
