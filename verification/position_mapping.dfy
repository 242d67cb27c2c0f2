/** Where mapPosition puts a position, for edits in order. */
module PositionMapping {
  import opened Edits

  /** Edit `k` comes before the position: it ends before it, or it is an insertion at it. */
  predicate EndsBefore(edit: Edit, position: nat) {
    edit.to < position || (edit.from == edit.to == position)
  }

  /** The position lies in the replaced range of the edit, or at one of its ends. */
  predicate Replaces(edit: Edit, position: nat) {
    edit.from < edit.to && edit.from <= position <= edit.to
  }

  lemma {:induction false} MapSkips(position: nat, edits: seq<Edit>, k: nat, delta: int)
    requires k <= |edits| && forall i :: 0 <= i < k ==> edits[i].from <= edits[i].to && EndsBefore(edits[i], position)
    ensures MapFrom(position, edits, delta) == MapFrom(position, edits[k..], delta + Shift(edits, k))
    decreases k
  {
    if k == 0 {
      assert edits[0..] == edits;
    } else {
      MapSkips(position, edits, k - 1, delta);
      assert EndsBefore(edits[k - 1], position);
      assert edits[k - 1..][1..] == edits[k..];
    }
  }

  /** A position that no edit replaces moves by what the edits before it added and removed. */
  lemma {:induction false} Shifted(position: nat, edits: seq<Edit>, k: nat)
    requires k <= |edits| && forall i :: 0 <= i < k ==> edits[i].from <= edits[i].to && EndsBefore(edits[i], position)
    requires k < |edits| ==> position < edits[k].from
    ensures MapFrom(position, edits, 0) == position + Shift(edits, k)
  {
    MapSkips(position, edits, k, 0);
  }

  /** A position in a replaced range moves to the end of the inserted text. */
  lemma {:induction false} Replaced(position: nat, edits: seq<Edit>, k: nat)
    requires k < |edits| && forall i :: 0 <= i < k ==> edits[i].from <= edits[i].to && EndsBefore(edits[i], position)
    requires Replaces(edits[k], position)
    ensures MapFrom(position, edits, 0) == StartAfter(edits, k) + |edits[k].insert|
  {
    MapSkips(position, edits, k, 0);
    assert edits[k..][0] == edits[k];
  }

  /** Every position is of one of the two kinds. */
  lemma {:induction false} EveryPosition(position: nat, edits: seq<Edit>, length: nat) returns (k: nat)
    requires Ascending(edits, length)
    ensures k <= |edits| && forall i :: 0 <= i < k ==> edits[i].from <= edits[i].to && EndsBefore(edits[i], position)
    ensures k < |edits| ==> position < edits[k].from || Replaces(edits[k], position)
  {
    k := 0;
    while k < |edits| && EndsBefore(edits[k], position)
      invariant k <= |edits| && forall i :: 0 <= i < k ==> edits[i].from <= edits[i].to && EndsBefore(edits[i], position)
    {
      assert InOrderAt(edits, length, k);
      k := k + 1;
    }
    assert k < |edits| ==> InOrderAt(edits, length, k);
  }
}
