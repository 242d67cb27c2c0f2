/** Inline code toggled twice on any number of selections. */
module CodeToggles {
  import opened Text
  import opened Edits
  import opened InlineToggles

  /** No fence stands around the selection, so that the command puts one there. */
  predicate Unfenced(value: string, s: Selection)
    requires SelectionInside(value, s)
  {
    SurroundingInlineCode(value, FromOf(s), ToOf(s)) == None
  }

  /** The transaction of a toggle that puts a fence around every one of several disjoint selections. */
  ghost predicate FencesAll(value: string, selections: seq<Selection>, t: Transaction) {
    && TogglesCode(value, selections, t) && NonOverlapping(t.changes) && DistinctStarts(t.changes)
    && forall i :: 0 <= i < |selections| ==> Unfenced(value, selections[i])
  }

  /** No backtick stands right before or right after the selection. */
  predicate NoAdjacentTick(value: string, s: Selection)
    requires SelectionInside(value, s)
  {
    && (FromOf(s) > 0 ==> value[FromOf(s) - 1] != '`')
    && (ToOf(s) < |value| ==> value[ToOf(s)] != '`')
  }

  predicate Touches(selections: seq<Selection>, i: nat, j: nat)
    requires i < |selections| && j < |selections|
  {
    i != j && ToOf(selections[i]) == FromOf(selections[j])
  }

  /** No backtick is adjacent to a selection, and no two selections touch. */
  ghost predicate AllApart(value: string, selections: seq<Selection>)
    requires SelectionsInside(value, selections)
  {
    && (forall i :: 0 <= i < |selections| ==> NoAdjacentTick(value, selections[i]))
    && (forall i, j :: 0 <= i < |selections| && 0 <= j < |selections| ==> !Touches(selections, i, j))
  }

  // ---------------------------------------------------------------- what stands around a change

  function LeftOf(value: string, edits: seq<Edit>, k: nat): string
    requires Ascending(edits, |value|) && k < |edits|
  {
    EndInside(edits, |value|, k);
    HeadUpto(value, edits, k) + value[EndOf(edits, k)..edits[k].from]
  }

  function RightOf(value: string, edits: seq<Edit>, k: nat): string
    requires Ascending(edits, |value|) && k < |edits|
  {
    TailFrom(value, edits, k + 1)
  }

  lemma CutAtChange(value: string, edits: seq<Edit>, k: nat)
    requires Ascending(edits, |value|) && k < |edits|
    ensures Spliced(value, edits) == LeftOf(value, edits, k) + edits[k].insert + RightOf(value, edits, k)
    ensures |LeftOf(value, edits, k)| == StartAfter(edits, k)
  {
    EndInside(edits, |value|, k);
    HeadTail(value, edits, k);
    HeadLength(value, edits, k);
    var head, kept, tail := HeadUpto(value, edits, k), value[EndOf(edits, k)..edits[k].from], RightOf(value, edits, k);
    assert head + (kept + edits[k].insert + tail) == (head + kept) + edits[k].insert + tail;
  }

  /** An inserted text that starts and ends with a backtick. */
  predicate TickEdged(insert: string) {
    insert != "" && insert[0] == '`' && insert[|insert| - 1] == '`'
  }

  predicate AllTickEdged(edits: seq<Edit>) {
    forall k :: 0 <= k < |edits| ==> TickEdged(edits[k].insert)
  }

  /** The text in front of a change ends with a backtick if the kept text there does, or if there is none
      and the previous change ends there. */
  lemma {:induction false} TickInFront(value: string, edits: seq<Edit>, k: nat)
    requires Ascending(edits, |value|) && AllTickEdged(edits) && k < |edits|
    ensures EndOf(edits, k) <= edits[k].from <= |value|
    ensures TicksAtEnd(LeftOf(value, edits, k)) == 0
       <==> if EndOf(edits, k) < edits[k].from then value[edits[k].from - 1] != '`' else k == 0
  {
    EndInside(edits, |value|, k);
    var left := LeftOf(value, edits, k);
    if EndOf(edits, k) < edits[k].from {
      assert left[|left| - 1] == value[edits[k].from - 1];
    } else if k > 0 {
      EndInside(edits, |value|, k - 1);
      var insert := edits[k - 1].insert;
      assert TickEdged(insert);
      assert left == HeadUpto(value, edits, k - 1) + value[EndOf(edits, k - 1)..edits[k - 1].from] + insert;
      assert left[|left| - 1] == insert[|insert| - 1];
    }
  }

  lemma {:induction false} TickBehind(value: string, edits: seq<Edit>, k: nat)
    requires Ascending(edits, |value|) && AllTickEdged(edits) && k < |edits|
    ensures edits[k].to <= |value|
    ensures TicksAtStart(RightOf(value, edits, k)) == 0
       <==> if k + 1 == |edits| then edits[k].to == |value| || value[edits[k].to] != '`'
            else edits[k].to < edits[k + 1].from <= |value| && value[edits[k].to] != '`'
  {
    EndInside(edits, |value|, k);
    EndInside(edits, |value|, k + 1);
    var right := RightOf(value, edits, k);
    if k + 1 == |edits| {
      assert right == value[edits[k].to..];
    } else {
      var insert := edits[k + 1].insert;
      assert TickEdged(insert);
      assert right == value[edits[k].to..edits[k + 1].from] + insert + TailFrom(value, edits, k + 2);
      assert right[0] == if edits[k].to < edits[k + 1].from then value[edits[k].to] else insert[0];
    }
  }

  /** No backtick stands next to the change in the new text. */
  predicate Clean(value: string, edits: seq<Edit>, k: nat)
    requires Ascending(edits, |value|) && k < |edits|
  {
    TicksAtEnd(LeftOf(value, edits, k)) == 0 && TicksAtStart(RightOf(value, edits, k)) == 0
  }

  // ---------------------------------------------------------------- the first toggle

  /** The edit that fences a selection. */
  predicate IsFencing(e: SelectionEdit, value: string, s: Selection, i: nat)
    requires SelectionInside(value, s)
  {
    var selected := SelectedText(value, s);
    var start := |CodeFence(selected)| + |CodePadding(selected)|;
    e == SelectionEdit(Edit(FromOf(s), ToOf(s), CodeInsert(selected)), start, start + |selected|, s.anchor > s.head, i)
  }

  lemma InsertTickEdged(selected: string)
    ensures TickEdged(CodeInsert(selected))
  {
    var insert, fence := CodeInsert(selected), CodeFence(selected);
    assert fence[0] == '`' && fence[|fence| - 1] == '`';
    assert insert[0] == fence[0] && insert[|insert| - 1] == fence[|fence| - 1];
  }

  lemma FencingAt(value: string, selections: seq<Selection>, t: Transaction, k: nat)
    requires FencesAll(value, selections, t) && k < |selections|
    ensures |t.changes| == |selections|
    ensures var first := CodeEdits(value, selections); var i := OrderOf(first)[k];
            IsFencing(first[i], value, selections[i], i) && t.changes[k] == first[i].edit
  {
    var first := CodeEdits(value, selections);
    ChangeAt(first, k);
    assert Unfenced(value, selections[OrderOf(first)[k]]);
  }

  lemma FirstAscends(value: string, selections: seq<Selection>, t: Transaction)
    requires FencesAll(value, selections, t)
    ensures Ascending(t.changes, |value|) && AllTickEdged(t.changes) && Inserts(t.changes)
    ensures AllEditsInBounds(CodeEdits(value, selections), |value|)
  {
    var first := CodeEdits(value, selections);
    forall i | 0 <= i < |first| ensures InBounds(first[i].edit, |value|) {
      assert Unfenced(value, selections[i]);
    }
    ChangesAscending(first, |value|);
    forall k | 0 <= k < |t.changes| ensures TickEdged(t.changes[k].insert) {
      FencingAt(value, selections, t, k);
      InsertTickEdged(SelectedText(value, selections[OrderOf(first)[k]]));
    }
    forall k | 0 <= k < |t.changes| ensures t.changes[k].insert != "" {
      assert TickEdged(t.changes[k].insert);
    }
  }

  /** No backtick is adjacent to the replaced range. */
  predicate EdgesClear(value: string, edit: Edit)
    requires edit.from <= edit.to <= |value|
  {
    (edit.from > 0 ==> value[edit.from - 1] != '`') && (edit.to < |value| ==> value[edit.to] != '`')
  }

  /** A change does not touch its neighbours. */
  predicate GapsAround(edits: seq<Edit>, k: nat)
    requires k < |edits|
  {
    (k > 0 ==> edits[k - 1].to < edits[k].from) && (k + 1 < |edits| ==> edits[k].to < edits[k + 1].from)
  }

  lemma {:induction false} CleanIff(value: string, edits: seq<Edit>, k: nat)
    requires Ascending(edits, |value|) && AllTickEdged(edits) && k < |edits|
    ensures edits[k].from <= edits[k].to <= |value|
    ensures Clean(value, edits, k) <==> EdgesClear(value, edits[k]) && GapsAround(edits, k)
  {
    EndInside(edits, |value|, k);
    EndInside(edits, |value|, k + 1);
    TickInFront(value, edits, k);
    TickBehind(value, edits, k);
  }

  /** The change for selection `i` replaces its range. */
  predicate ReplacesSelection(edit: Edit, s: Selection) {
    edit.from == FromOf(s) && edit.to == ToOf(s)
  }

  /** The selections in the order of the changes. */
  predicate InRankOrder(order: seq<nat>, edits: seq<Edit>, selections: seq<Selection>) {
    && |order| == |edits| == |selections|
    && (forall k :: 0 <= k < |order| ==> order[k] < |selections|)
    && (forall k :: 0 <= k < |order| ==> ReplacesSelection(edits[k], selections[order[k]]))
    && (forall p, q :: 0 <= p < q < |order| ==> order[p] != order[q])
    && (forall i :: 0 <= i < |selections| ==> i in order)
  }

  lemma ChangesInRankOrder(value: string, selections: seq<Selection>, t: Transaction)
    requires FencesAll(value, selections, t)
    ensures InRankOrder(OrderOf(CodeEdits(value, selections)), t.changes, selections)
  {
    var first := CodeEdits(value, selections);
    var order := OrderOf(first);
    forall k | 0 <= k < |order| ensures ReplacesSelection(t.changes[k], selections[order[k]]) {
      FencingAt(value, selections, t, k);
    }
    forall p, q | 0 <= p < q < |order| ensures order[p] != order[q] {
      OrderDistinct(first, p, q);
    }
  }

  lemma NoTouchIfGaps(order: seq<nat>, edits: seq<Edit>, selections: seq<Selection>, length: nat, i: nat, j: nat)
    requires InRankOrder(order, edits, selections) && Ascending(edits, length) && DistinctStarts(edits)
    requires forall k :: 0 <= k < |edits| ==> GapsAround(edits, k)
    requires i < |selections| && j < |selections|
    ensures !Touches(selections, i, j)
  {
    assert i in order && j in order;
    var p :| 0 <= p < |order| && order[p] == i;
    var q :| 0 <= q < |order| && order[q] == j;
    assert ReplacesSelection(edits[p], selections[i]) && ReplacesSelection(edits[q], selections[j]);
    assert InOrderAt(edits, length, p) && InOrderAt(edits, length, q);
    if p < q {
      assert GapsAround(edits, p) && InOrderAt(edits, length, p + 1);
      if p + 1 < q {
        AscendingApart(edits, length, p + 1, q);
      }
    } else if q < p {
      AscendingApart(edits, length, q, p);
    }
  }

  lemma GapsIfNoTouch(order: seq<nat>, edits: seq<Edit>, selections: seq<Selection>, length: nat, k: nat)
    requires InRankOrder(order, edits, selections) && Ascending(edits, length) && k < |edits|
    requires forall i, j :: 0 <= i < |selections| && 0 <= j < |selections| ==> !Touches(selections, i, j)
    ensures GapsAround(edits, k)
  {
    assert ReplacesSelection(edits[k], selections[order[k]]) && InOrderAt(edits, length, k);
    if k > 0 {
      assert ReplacesSelection(edits[k - 1], selections[order[k - 1]]);
      assert !Touches(selections, order[k - 1], order[k]);
    }
    if k + 1 < |edits| {
      assert ReplacesSelection(edits[k + 1], selections[order[k + 1]]) && InOrderAt(edits, length, k + 1);
      assert !Touches(selections, order[k], order[k + 1]);
    }
  }

  lemma ClearIffNoTick(value: string, edit: Edit, s: Selection)
    requires SelectionInside(value, s) && ReplacesSelection(edit, s)
    ensures EdgesClear(value, edit) <==> NoAdjacentTick(value, s)
  {
  }

  /** Every change is clear of backticks and of its neighbours. */
  predicate AllClear(value: string, edits: seq<Edit>)
    requires Ascending(edits, |value|)
  {
    forall k :: 0 <= k < |edits| ==> InOrderAt(edits, |value|, k) && EdgesClear(value, edits[k]) && GapsAround(edits, k)
  }

  lemma {:induction false} AllClearIffApart(value: string, order: seq<nat>, edits: seq<Edit>, selections: seq<Selection>)
    requires InRankOrder(order, edits, selections) && Ascending(edits, |value|) && DistinctStarts(edits)
    requires SelectionsInside(value, selections)
    ensures AllClear(value, edits) <==> AllApart(value, selections)
  {
    if AllApart(value, selections) {
      forall k | 0 <= k < |edits| ensures InOrderAt(edits, |value|, k) && EdgesClear(value, edits[k]) && GapsAround(edits, k) {
        ClearIffNoTick(value, edits[k], selections[order[k]]);
        GapsIfNoTouch(order, edits, selections, |value|, k);
      }
    }
    if AllClear(value, edits) {
      forall i | 0 <= i < |selections| ensures NoAdjacentTick(value, selections[i]) {
        assert i in order;
        var k :| 0 <= k < |order| && order[k] == i;
        ClearIffNoTick(value, edits[k], selections[i]);
      }
      forall i, j | 0 <= i < |selections| && 0 <= j < |selections| ensures !Touches(selections, i, j) {
        NoTouchIfGaps(order, edits, selections, |value|, i, j);
      }
    }
  }

  /** The new text has no backtick next to a change exactly when none was next to a selection and no
      selections touch. */
  lemma {:induction false} CleanIffApart(value: string, selections: seq<Selection>, t: Transaction)
    requires FencesAll(value, selections, t) && Ascending(t.changes, |value|) && AllTickEdged(t.changes)
    ensures AllApart(value, selections) <==> forall k :: 0 <= k < |t.changes| ==> Clean(value, t.changes, k)
  {
    ChangesInRankOrder(value, selections, t);
    AllClearIffApart(value, OrderOf(CodeEdits(value, selections)), t.changes, selections);
    forall k | 0 <= k < |t.changes|
      ensures InOrderAt(t.changes, |value|, k)
      ensures Clean(value, t.changes, k) <==> EdgesClear(value, t.changes[k]) && GapsAround(t.changes, k)
    {
      CleanIff(value, t.changes, k);
    }
  }

  // ---------------------------------------------------------------- the second toggle

  /** Where the selection of a fenced text ends up. */
  lemma FencedSelection(value: string, s: Selection, e: SelectionEdit, i: nat, placed: Selection, start: int)
    requires SelectionInside(value, s) && IsFencing(e, value, s, i) && IsPlaced(e, placed, start)
    ensures var selected := SelectedText(value, s);
            && FromOf(placed) == start + |CodeFence(selected)| + |CodePadding(selected)|
            && ToOf(placed) == FromOf(placed) + |selected|
            && (placed.anchor > placed.head <==> s.anchor > s.head)
  {
  }

  /** What the second toggle sees of one fenced selection: a text `left + insert + right`. */
  ghost predicate SeesFenced(w: string, left: string, selected: string, right: string, placed: Selection) {
    && w == left + CodeInsert(selected) + right
    && FromOf(placed) == |left| + |CodeFence(selected)| + |CodePadding(selected)|
    && ToOf(placed) == FromOf(placed) + |selected|
  }

  /** The edit of the second toggle: it takes the range of the first insertion if no backtick is next to it,
      and otherwise more of the text on both sides or only the selected text. */
  lemma {:induction false} SecondEdit(w: string, left: string, selected: string, right: string, placed: Selection, i: nat)
    requires SeesFenced(w, left, selected, right, placed)
    ensures SelectionInside(w, placed) && SelectedText(w, placed) == selected
    ensures var e := InlineCodeEdit(w, placed, i); var end := |left| + |CodeInsert(selected)|;
            && e.edit.from <= FromOf(placed) && ToOf(placed) <= e.edit.to <= |w|
            && (TicksAtEnd(left) == 0 == TicksAtStart(right)
                ==> e == SelectionEdit(Edit(|left|, end, selected), 0, |selected|, placed.anchor > placed.head, i))
            && (!(TicksAtEnd(left) == 0 == TicksAtStart(right))
                ==> e.selectionFrom <= e.selectionTo && e.edit.from + e.selectionFrom != |left|)
  {
    CodeInsertFenced(selected);
    SecondCodeEdit(w, left, CodeInsert(selected), CodeFence(selected), CodePadding(selected), selected, right, placed);
  }

  lemma SeenAt(value: string, selections: seq<Selection>, t: Transaction, k: nat)
    requires FencesAll(value, selections, t) && Ascending(t.changes, |value|) && k < |t.changes|
    ensures |t.changes| == |selections| == |t.selections|
    ensures var i := OrderOf(CodeEdits(value, selections))[k]; var selected := SelectedText(value, selections[i]);
            && SeesFenced(Spliced(value, t.changes), LeftOf(value, t.changes, k), selected, RightOf(value, t.changes, k), t.selections[i])
            && (t.selections[i].anchor > t.selections[i].head <==> selections[i].anchor > selections[i].head)
            && selected == value[t.changes[k].from..t.changes[k].to] && t.changes[k].insert == CodeInsert(selected)
            && |LeftOf(value, t.changes, k)| == StartAfter(t.changes, k)
            && t.changes[k].from == FromOf(selections[i])
  {
    var first := CodeEdits(value, selections);
    var i := OrderOf(first)[k];
    FencingAt(value, selections, t, k);
    CutAtChange(value, t.changes, k);
    FencedSelection(value, selections[i], first[i], i, t.selections[i], StartAfter(t.changes, k));
  }

  /** What the second toggle does about change `k` of the first one, whose selection is number `i`: in a clean
      place it takes the change back, and elsewhere it does not select where the change started. */
  ghost predicate Answers(e: SelectionEdit, value: string, edits: seq<Edit>, s: Selection, placed: Selection, k: nat, i: nat)
    requires Ascending(edits, |value|) && k < |edits| && SelectionInside(value, s)
  {
    && e.edit.from <= FromOf(placed) && ToOf(placed) <= e.edit.to <= |Spliced(value, edits)|
    && StartAfter(edits, k) < FromOf(placed) && ToOf(placed) < StartAfter(edits, k) + |edits[k].insert|
    && (Clean(value, edits, k) ==> e.edit == Undo(value, edits, k) && SelectsBack(e, value, s, i))
    && (!Clean(value, edits, k) ==> e.selectionFrom <= e.selectionTo && e.edit.from + e.selectionFrom != StartAfter(edits, k))
  }

  lemma {:induction false} AnswersAt(value: string, selections: seq<Selection>, t: Transaction, k: nat)
    requires FencesAll(value, selections, t) && Ascending(t.changes, |value|) && k < |t.changes|
    ensures |t.changes| == |selections| == |t.selections|
    ensures var i := OrderOf(CodeEdits(value, selections))[k]; var w := Spliced(value, t.changes);
            && SelectionInside(w, t.selections[i])
            && Answers(InlineCodeEdit(w, t.selections[i], i), value, t.changes, selections[i], t.selections[i], k, i)
  {
    var i := OrderOf(CodeEdits(value, selections))[k];
    SeenAt(value, selections, t, k);
    SecondEdit(Spliced(value, t.changes), LeftOf(value, t.changes, k), SelectedText(value, selections[i]),
               RightOf(value, t.changes, k), t.selections[i], i);
  }

  // ---------------------------------------------------------------- the order of the second changes

  /** Each index below `n` once. */
  predicate ListsAll(order: seq<nat>, n: nat) {
    && |order| == n && (forall k :: 0 <= k < n ==> order[k] < n)
    && (forall p, q :: 0 <= p < q < n ==> order[p] != order[q])
    && (forall i: nat :: i < n ==> i in order)
  }

  predicate AscendsAlong(keys: seq<int>, order: seq<nat>) {
    && (forall k :: 0 <= k < |order| ==> order[k] < |keys|)
    && (forall p, q :: 0 <= p < q < |order| ==> keys[order[p]] < keys[order[q]])
  }

  /** Different keys can be put in ascending order in one way only. */
  lemma {:induction false} AscendingUnique(keys: seq<int>, a: seq<nat>, b: seq<nat>, k: nat)
    requires ListsAll(a, |keys|) && ListsAll(b, |keys|) && AscendsAlong(keys, a) && AscendsAlong(keys, b)
    requires k <= |keys|
    ensures a[..k] == b[..k]
  {
    if k > 0 {
      AscendingUnique(keys, a, b, k - 1);
      assert forall j :: 0 <= j < k - 1 ==> a[j] == a[..k - 1][j] == b[j];
      assert a[k - 1] in b && b[k - 1] in a;
      var p :| 0 <= p < |b| && b[p] == a[k - 1];
      var q :| 0 <= q < |a| && a[q] == b[k - 1];
      assert p == k - 1;
      assert a[..k] == a[..k - 1] + [a[k - 1]] && b[..k] == b[..k - 1] + [b[k - 1]];
    }
  }

  function Fronts(placed: seq<Selection>): (keys: seq<int>)
    ensures |keys| == |placed|
  {
    seq(|placed|, i requires 0 <= i < |placed| => FromOf(placed[i]))
  }

  /** The selections follow one another in this order. */
  predicate FollowAlong(placed: seq<Selection>, order: seq<nat>)
    requires ListsAll(order, |placed|)
  {
    forall p, q :: 0 <= p < q < |order| ==> ToOf(placed[order[p]]) < FromOf(placed[order[q]])
  }

  predicate Holds(e: SelectionEdit, s: Selection) {
    e.edit.from <= FromOf(s) && ToOf(s) <= e.edit.to
  }

  lemma HeldInOrder(placed: seq<Selection>, edits: seq<SelectionEdit>, a: seq<nat>, x: nat, y: nat)
    requires ListsAll(a, |placed|) && FollowAlong(placed, a) && |edits| == |placed|
    requires x < |placed| && y < |placed| && x != y && Holds(edits[x], placed[x]) && Holds(edits[y], placed[y])
    requires edits[x].edit.to <= edits[y].edit.from
    ensures FromOf(placed[x]) < FromOf(placed[y])
  {
    assert x in a && y in a;
    var p :| 0 <= p < |a| && a[p] == x;
    var q :| 0 <= q < |a| && a[q] == y;
    if q < p {
      assert ToOf(placed[a[q]]) < FromOf(placed[a[p]]);
    }
  }

  /** Edits that hold the selections and do not overlap stand in the order of the selections. */
  lemma {:induction false} OrderForced(placed: seq<Selection>, edits: seq<SelectionEdit>, a: seq<nat>, b: seq<nat>)
    requires ListsAll(a, |placed|) && ListsAll(b, |placed|) && FollowAlong(placed, a) && |edits| == |placed|
    requires forall i :: 0 <= i < |placed| ==> Holds(edits[i], placed[i])
    requires forall p, q :: 0 <= p < q < |b| ==> edits[b[p]].edit.to <= edits[b[q]].edit.from
    ensures a == b
  {
    var keys := Fronts(placed);
    forall p, q | 0 <= p < q < |b| ensures keys[b[p]] < keys[b[q]] {
      HeldInOrder(placed, edits, a, b[p], b[q]);
    }
    AscendingUnique(keys, a, b, |keys|);
  }

  lemma OrderListsAll(edits: seq<SelectionEdit>)
    ensures ListsAll(OrderOf(edits), |edits|)
  {
    var order := OrderOf(edits);
    forall p, q | 0 <= p < q < |order| ensures order[p] != order[q] {
      OrderDistinct(edits, p, q);
    }
  }

  lemma {:induction false} PlacedFollow(value: string, selections: seq<Selection>, t: Transaction)
    requires FencesAll(value, selections, t) && Ascending(t.changes, |value|)
    ensures |t.selections| == |selections| && SelectionsInside(Spliced(value, t.changes), t.selections)
    ensures ListsAll(OrderOf(CodeEdits(value, selections)), |t.selections|)
    ensures FollowAlong(t.selections, OrderOf(CodeEdits(value, selections)))
  {
    var first := CodeEdits(value, selections);
    var order, inverse := OrderOf(first), Inverse(value, t.changes);
    OrderListsAll(first);
    InverseAscending(value, t.changes);
    forall i | 0 <= i < |selections| ensures SelectionInside(Spliced(value, t.changes), t.selections[i]) {
      var k := RankOf(first, i);
      AnswersAt(value, selections, t, k);
    }
    forall p, q | 0 <= p < q < |order| ensures ToOf(t.selections[order[p]]) < FromOf(t.selections[order[q]]) {
      AnswersAt(value, selections, t, p);
      AnswersAt(value, selections, t, q);
      AscendingApart(inverse, |Spliced(value, t.changes)|, p, q);
      assert inverse[p] == Undo(value, t.changes, p) && inverse[q] == Undo(value, t.changes, q);
    }
  }

  /** Both toggles sort their edits alike, provided the second one does not raise. */
  lemma {:induction false} SameRanks(value: string, selections: seq<Selection>, t: Transaction, u: Transaction)
    requires FencesAll(value, selections, t) && Ascending(t.changes, |value|)
    requires TogglesCode(Spliced(value, t.changes), t.selections, u) && NonOverlapping(u.changes)
    ensures OrderOf(CodeEdits(Spliced(value, t.changes), t.selections)) == OrderOf(CodeEdits(value, selections))
  {
    var w := Spliced(value, t.changes);
    var first, second := CodeEdits(value, selections), CodeEdits(w, t.selections);
    var a, b := OrderOf(first), OrderOf(second);
    PlacedFollow(value, selections, t);
    OrderListsAll(second);
    forall i | 0 <= i < |second| ensures Holds(second[i], t.selections[i]) && InBounds(second[i].edit, |w|) {
      var k := RankOf(first, i);
      AnswersAt(value, selections, t, k);
    }
    ChangesAscending(second, |w|);
    forall p, q | 0 <= p < q < |b| ensures second[b[p]].edit.to <= second[b[q]].edit.from {
      ChangeAt(second, p);
      ChangeAt(second, q);
      AscendingApart(u.changes, |w|, p, q);
    }
    OrderForced(t.selections, second, a, b);
  }

  // ---------------------------------------------------------------- the theorem

  lemma {:induction false} ShiftSame(a: seq<Edit>, b: seq<Edit>, k: nat)
    requires k <= |a| && k <= |b| && forall j :: 0 <= j < k ==> a[j] == b[j]
    ensures Shift(a, k) == Shift(b, k)
  {
    if k > 0 {
      ShiftSame(a, b, k - 1);
    }
  }

  lemma {:induction false} FirstUnclean(value: string, edits: seq<Edit>, k: nat) returns (m: nat)
    requires Ascending(edits, |value|) && k < |edits| && !Clean(value, edits, k)
    ensures m < |edits| && !Clean(value, edits, m) && forall j :: 0 <= j < m ==> Clean(value, edits, j)
  {
    if j :| 0 <= j < k && !Clean(value, edits, j) {
      m := FirstUnclean(value, edits, j);
    } else {
      m := k;
    }
  }

  /** The first change that has a backtick next to it ends up with another selection. */
  lemma {:induction false} NotRestoredAt(value: string, selections: seq<Selection>, t: Transaction, u: Transaction, k: nat)
    requires FencesAll(value, selections, t) && Ascending(t.changes, |value|)
    requires TogglesCode(Spliced(value, t.changes), t.selections, u) && NonOverlapping(u.changes)
    requires k < |t.changes| && !Clean(value, t.changes, k) && forall j :: 0 <= j < k ==> Clean(value, t.changes, j)
    ensures u.selections != selections
  {
    var w, inverse := Spliced(value, t.changes), Inverse(value, t.changes);
    var first, second := CodeEdits(value, selections), CodeEdits(w, t.selections);
    var i := OrderOf(first)[k];
    SameRanks(value, selections, t, u);
    forall j | 0 <= j < k ensures u.changes[j] == inverse[j] {
      AnswersAt(value, selections, t, j);
      ChangeAt(second, j);
      assert Clean(value, t.changes, j);
    }
    AnswersAt(value, selections, t, k);
    ChangeAt(second, k);
    ShiftSame(u.changes, inverse, k);
    InverseStart(value, t.changes, k);
    assert inverse[k] == Undo(value, t.changes, k);
    FencingAt(value, selections, t, k);
    assert IsPlaced(second[i], u.selections[i], StartAfter(u.changes, k));
    assert FromOf(u.selections[i]) != FromOf(selections[i]);
  }

  lemma {:induction false} RestoredIfClean(value: string, selections: seq<Selection>, t: Transaction, u: Transaction)
    requires FencesAll(value, selections, t) && Ascending(t.changes, |value|)
    requires TogglesCode(Spliced(value, t.changes), t.selections, u)
    requires forall k :: 0 <= k < |t.changes| ==> Clean(value, t.changes, k)
    ensures NonOverlapping(u.changes) && Apply(Spliced(value, t.changes), u.changes) == value && u.selections == selections
  {
    var w := Spliced(value, t.changes);
    var first, second := CodeEdits(value, selections), CodeEdits(w, t.selections);
    FirstAscends(value, selections, t);
    forall k | 0 <= k < |first|
      ensures second[OrderOf(first)[k]].edit == Undo(value, t.changes, k)
      ensures SelectsBack(second[OrderOf(first)[k]], value, selections[OrderOf(first)[k]], OrderOf(first)[k])
    {
      AnswersAt(value, selections, t, k);
      assert Clean(value, t.changes, k);
    }
    forall i | 0 <= i < |selections|
      ensures SelectsBack(second[i], value, selections[i], i) && first[i].edit.from == FromOf(selections[i])
    {
      var k := RankOf(first, i);
      FencingAt(value, selections, t, k);
    }
    TakenBack(value, first, t, second, u);
    ApplyIsSplice(value, t.changes);
    AllRestored(value, selections, second, u.selections);
  }

  /** Toggling inline code twice on any number of selections without a fence restores the text and all
      selections exactly when no backtick is adjacent to a selection and no two selections touch. */
  lemma {:induction false} TogglesTwice(value: string, selections: seq<Selection>, t: Transaction)
    requires FencesAll(value, selections, t)
    ensures SelectionsInside(Apply(value, t.changes), t.selections)
    ensures forall u :: TogglesCode(Apply(value, t.changes), t.selections, u) ==>
              (NonOverlapping(u.changes) && Apply(Apply(value, t.changes), u.changes) == value && u.selections == selections
               <==> AllApart(value, selections))
  {
    FirstAscends(value, selections, t);
    ApplyIsSplice(value, t.changes);
    PlacedFollow(value, selections, t);
    CleanIffApart(value, selections, t);
    forall u | TogglesCode(Spliced(value, t.changes), t.selections, u)
      ensures NonOverlapping(u.changes) && Apply(Spliced(value, t.changes), u.changes) == value && u.selections == selections
         <==> AllApart(value, selections)
    {
      if k :| 0 <= k < |t.changes| && !Clean(value, t.changes, k) {
        var m := FirstUnclean(value, t.changes, k);
        if NonOverlapping(u.changes) {
          NotRestoredAt(value, selections, t, u, m);
        }
      } else {
        RestoredIfClean(value, selections, t, u);
      }
    }
  }
}
