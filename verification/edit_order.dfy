/** When it does not matter that applyEdits works from the right: exactly when no two edits start together. */
module EditOrder {
  import opened Sequences
  import opened Edits

  predicate SameRange(a: Edit, b: Edit) {
    a.from == b.from && a.to == b.to
  }

  predicate SameRanges(edits: seq<Edit>, other: seq<Edit>) {
    |edits| == |other| && forall i :: 0 <= i < |edits| ==> SameRange(edits[i], other[i])
  }

  lemma SameRangesAscend(edits: seq<Edit>, other: seq<Edit>, length: nat)
    requires SameRanges(edits, other) && Ascending(edits, length)
    ensures Ascending(other, length) && (DistinctStarts(edits) ==> DistinctStarts(other))
  {
    forall i | 0 <= i < |other| ensures InOrderAt(other, length, i) {
      assert InOrderAt(edits, length, i) && SameRange(edits[i], other[i]);
      assert i > 0 ==> SameRange(edits[i - 1], other[i - 1]);
    }
    forall i, j | 0 <= i < j < |other| ensures DistinctStarts(edits) ==> other[i].from != other[j].from {
      assert SameRange(edits[i], other[i]) && SameRange(edits[j], other[j]);
    }
  }

  /** Whatever the text and whatever is inserted at these ranges, applyEdits is the left-to-right splice. */
  ghost predicate OrderSafe(edits: seq<Edit>, length: nat)
    requires Ascending(edits, length)
  {
    forall value: string, other: seq<Edit> :: |value| == length && SameRanges(edits, other) ==>
      SplicesAs(value, other)
  }

  predicate SplicesAs(value: string, edits: seq<Edit>) {
    Ascending(edits, |value|) && Apply(value, edits) == Spliced(value, edits)
  }

  // ---------------------------------------------------------------- two edits that start together

  /** No `x` stands before a `y`. */
  predicate Swapped(s: string) {
    forall i, j :: 0 <= i < j < |s| ==> !(s[i] == 'x' && s[j] == 'y')
  }

  predicate Unmarked(s: string) {
    'x' !in s && 'y' !in s
  }

  /** A deletion brings nothing in and swaps nothing. */
  lemma DeletionKeeps(s: string, edit: Edit, at: nat)
    requires edit.insert == "" && edit.from <= edit.to
    ensures Swapped(s) ==> Swapped(ApplyOne(s, edit))
    ensures Unmarked(s) ==> Unmarked(ApplyOne(s, edit))
    ensures at <= |s| && at <= edit.from ==> at <= |ApplyOne(s, edit)|
  {
    var r := ApplyOne(s, edit);
    var cut := |SliceTo(s, edit.from)|;
    assert r == SliceTo(s, edit.from) + SliceFrom(s, edit.to);
    assert forall i :: 0 <= i < |r| ==> r[i] == if i < cut then s[i] else s[i - cut + edit.to];
  }

  /** The second edit puts its text before what the first one inserted, if it leaves that text at all. */
  lemma PairSwaps(s: string, first: Edit, second: Edit)
    requires Unmarked(s) && first.from == first.to == second.from <= |s| && second.from <= second.to
    requires first.insert == "x" && second.insert == "y"
    ensures Swapped(ApplyOne(ApplyOne(s, first), second))
  {
    var f := first.from;
    var r := ApplyOne(s, first);
    assert r == s[..f] + "x" + s[f..];
    assert r[..f] == s[..f];
    var w := ApplyOne(r, second);
    assert w == s[..f] + "y" + SliceFrom(r, second.to);
    assert forall i :: 0 <= i < f ==> w[i] != 'x';
    assert forall j :: f < j < |w| ==> w[j] != 'y';
  }

  predicate IsDeletion(edit: Edit) {
    edit.insert == "" && edit.from <= edit.to
  }

  /** Outside of two neighbours every edit deletes. */
  predicate DeletesAt(edits: seq<Edit>, p: nat, i: nat)
    requires i < |edits|
  {
    i == p || i == p + 1 || IsDeletion(edits[i])
  }

  /** Deletions, but for an insertion at `p` and, right after it, an edit that starts at the same place. */
  predicate Clash(edits: seq<Edit>, p: nat) {
    && p + 1 < |edits|
    && edits[p].from == edits[p].to == edits[p + 1].from <= edits[p + 1].to
    && edits[p].insert == "x" && edits[p + 1].insert == "y"
    && (forall i :: 0 <= i < |edits| ==> DeletesAt(edits, p, i))
    && (forall i :: 0 <= i < p ==> edits[p].from <= edits[i].from)
  }

  function AppliedTo(value: string, edits: seq<Edit>, t: nat): string
    requires t <= |edits|
  {
    ApplyInOrder(value, edits[..t])
  }

  lemma AppliedNext(value: string, edits: seq<Edit>, t: nat)
    requires t < |edits|
    ensures AppliedTo(value, edits, t + 1) == ApplyOne(AppliedTo(value, edits, t), edits[t])
  {
    assert edits[..t + 1][..t] == edits[..t];
  }

  lemma {:induction false} BeforeClash(value: string, edits: seq<Edit>, p: nat, t: nat)
    requires Clash(edits, p) && t <= p && Unmarked(value) && edits[p].from <= |value|
    ensures Unmarked(AppliedTo(value, edits, t)) && edits[p].from <= |AppliedTo(value, edits, t)|
  {
    if t > 0 {
      BeforeClash(value, edits, p, t - 1);
      AppliedNext(value, edits, t - 1);
      assert DeletesAt(edits, p, t - 1);
      DeletionKeeps(AppliedTo(value, edits, t - 1), edits[t - 1], edits[p].from);
    }
  }

  lemma {:induction false} AtClash(value: string, edits: seq<Edit>, p: nat)
    requires Clash(edits, p) && Unmarked(value) && edits[p].from <= |value|
    ensures Swapped(AppliedTo(value, edits, p + 2))
  {
    AppliedNext(value, edits, p);
    AppliedNext(value, edits, p + 1);
    BeforeClash(value, edits, p, p);
    PairSwaps(AppliedTo(value, edits, p), edits[p], edits[p + 1]);
  }

  lemma {:induction false} DeletionNext(value: string, edits: seq<Edit>, t: nat, next: nat)
    requires t < |edits| && next == t + 1 && IsDeletion(edits[t]) && Swapped(AppliedTo(value, edits, t))
    ensures Swapped(AppliedTo(value, edits, next))
  {
    AppliedNext(value, edits, t);
    DeletionKeeps(AppliedTo(value, edits, t), edits[t], 0);
  }

  lemma {:induction false} AfterClash(value: string, edits: seq<Edit>, p: nat, t: nat)
    requires Clash(edits, p) && p + 2 <= t <= |edits| && Unmarked(value) && edits[p].from <= |value|
    ensures Swapped(AppliedTo(value, edits, t))
  {
    if t == p + 2 {
      AtClash(value, edits, p);
    } else {
      var u := t - 1;
      AfterClash(value, edits, p, u);
      assert DeletesAt(edits, p, u);
      DeletionNext(value, edits, u, t);
    }
  }

  // ---------------------------------------------------------------- a text that shows the difference

  function Marked(edits: seq<Edit>, k: nat): (other: seq<Edit>)
    ensures |other| == |edits|
  {
    seq(|edits|, i requires 0 <= i < |edits| => Edit(edits[i].from, edits[i].to, if i == k then "x" else if i == k + 1 then "y" else ""))
  }

  /** Equal starts are the starts of neighbours, and the first of the two is an insertion. */
  lemma EqualNeighbours(edits: seq<Edit>, length: nat) returns (k: nat)
    requires Ascending(edits, length) && !DistinctStarts(edits)
    ensures k + 1 < |edits| && edits[k].from == edits[k].to == edits[k + 1].from
  {
    var i, j :| 0 <= i < j < |edits| && edits[i].from == edits[j].from;
    k := i;
    assert InOrderAt(edits, length, i) && InOrderAt(edits, length, i + 1);
    if i + 1 < j {
      AscendingApart(edits, length, i + 1, j);
    }
  }

  lemma EarlierIsBefore(order: seq<nat>, keys: seq<int>, a: nat, b: nat)
    requires Below(order, |keys|) && StablySorted(order, keys) && a < |order| && b < |order|
    ensures a < b ==> StableBefore(keys, order[a], order[b])
  {
  }

  /** In a stable order two neighbours with equal keys stay neighbours. */
  lemma NextInOrder(order: seq<nat>, keys: seq<int>, p: nat, q: nat, k: nat)
    requires Below(order, |keys|) && StablySorted(order, keys) && p < |order| && q < |order|
    requires order[p] == k && order[q] == k + 1 && k + 1 < |keys| && keys[k] == keys[k + 1]
    ensures q == p + 1
  {
    var next := if p + 1 < |order| then p + 1 else p;
    EarlierIsBefore(order, keys, q, p);
    EarlierIsBefore(order, keys, p, next);
    EarlierIsBefore(order, keys, next, q);
  }

  /** Where the two neighbours are in the order of applyEdits. */
  lemma {:induction false} PairInOrder(edits: seq<Edit>, k: nat) returns (p: nat)
    requires k + 1 < |edits| && edits[k].from == edits[k + 1].from
    ensures var order := SortOrder(StartsDescending(edits), |edits|);
            p + 1 < |order| && order[p] == k && order[p + 1] == k + 1
  {
    var keys := StartsDescending(edits);
    var order := SortOrder(keys, |edits|);
    SortOrderSorts(keys, |edits|);
    assert k in order && k + 1 in order;
    p :| 0 <= p < |order| && order[p] == k;
    var q :| 0 <= q < |order| && order[q] == k + 1;
    NextInOrder(order, keys, p, q, k);
  }

  /** Every edit of the order is where it should be for a clash at `p`. */
  lemma {:induction false} PlacedInOrder(edits: seq<Edit>, length: nat, k: nat, p: nat, i: nat)
    requires Ascending(edits, length) && k + 1 < |edits|
    requires var order := SortOrder(StartsDescending(Marked(edits, k)), |edits|);
             i < |order| && p + 1 < |order| && order[p] == k && order[p + 1] == k + 1
    ensures var other := Marked(edits, k); var sorted := Pick(other, SortOrder(StartsDescending(other), |edits|));
            DeletesAt(sorted, p, i) && (i < p ==> sorted[p].from <= sorted[i].from)
  {
    var keys := StartsDescending(Marked(edits, k));
    var order := SortOrder(keys, |edits|);
    SortOrderSorts(keys, |edits|);
    assert InOrderAt(edits, length, order[i]);
    if i < p {
      assert StableBefore(keys, order[i], order[p]) && StableBefore(keys, order[i], order[p + 1]);
    } else if p + 1 < i {
      assert StableBefore(keys, order[p + 1], order[i]) && StableBefore(keys, order[p], order[i]);
    }
  }

  /** In the order of applyEdits the two edits clash. */
  lemma {:induction false} ClashInOrder(edits: seq<Edit>, length: nat, k: nat) returns (p: nat)
    requires Ascending(edits, length) && k + 1 < |edits| && edits[k].from == edits[k].to == edits[k + 1].from
    ensures var other := Marked(edits, k); Clash(Pick(other, SortOrder(StartsDescending(other), |edits|)), p)
  {
    var other := Marked(edits, k);
    p := PairInOrder(other, k);
    var sorted := Pick(other, SortOrder(StartsDescending(other), |edits|));
    forall i | 0 <= i < |sorted| ensures DeletesAt(sorted, p, i) && (i < p ==> sorted[p].from <= sorted[i].from) {
      PlacedInOrder(edits, length, k, p, i);
    }
    assert InOrderAt(edits, length, k + 1);
  }

  /** The splice keeps the two texts in the order of their edits. */
  lemma SpliceKeepsOrder(value: string, other: seq<Edit>, k: nat)
    requires Ascending(other, |value|) && k + 1 < |other| && other[k].from == other[k].to == other[k + 1].from
    requires other[k].insert == "x" && other[k + 1].insert == "y"
    ensures !Swapped(Spliced(value, other))
  {
    var w := Spliced(value, other);
    InsertedAt(value, other, k);
    InsertedAt(value, other, k + 1);
    var i, j := StartAfter(other, k), StartAfter(other, k + 1);
    assert w[i..i + 1] == "x" && w[j..j + 1] == "y";
    assert w[i] == w[i..i + 1][0] && w[j] == w[j..j + 1][0];
  }

  lemma NotSafe(edits: seq<Edit>, length: nat) returns (value: string, other: seq<Edit>)
    requires Ascending(edits, length) && !DistinctStarts(edits)
    ensures |value| == length && SameRanges(edits, other) && !SplicesAs(value, other)
  {
    var k := EqualNeighbours(edits, length);
    value := seq(length, i => 'a');
    other := Marked(edits, k);
    SameRangesAscend(edits, other, length);
    var p := ClashInOrder(edits, length, k);
    var sorted := Pick(other, SortOrder(StartsDescending(other), |edits|));
    assert InOrderAt(edits, length, k);
    assert sorted[..|sorted|] == sorted;
    AfterClash(value, sorted, p, |sorted|);
    SpliceKeepsOrder(value, other, k);
  }

  /** Ascending edits are applied as the splice, whatever the text and the inserted texts, if and only if
      no two of them start at the same place. */
  lemma SafeIffDistinct(edits: seq<Edit>, length: nat)
    requires Ascending(edits, length)
    ensures OrderSafe(edits, length) <==> DistinctStarts(edits)
  {
    if DistinctStarts(edits) {
      forall value: string, other: seq<Edit> | |value| == length && SameRanges(edits, other) ensures SplicesAs(value, other) {
        SameRangesAscend(edits, other, length);
        ApplyIsSplice(value, other);
      }
    } else {
      var value, other := NotSafe(edits, length);
    }
  }
}
