/** Text edits of the editor commands: sorting them, applying them, undoing them, and
    where selections and positions end up. */
module Edits {
  import opened Seqs
  import opened Sequences

  datatype Edit = Edit(from: nat, to: nat, insert: string)
  datatype Selection = Selection(anchor: nat, head: nat)

  function Lower(a: int, b: int): int {
    if a < b then a else b
  }

  function Upper(a: int, b: int): int {
    if a > b then a else b
  }

  // ---------------------------------------------------------------- the stable sort

  /** Index `i` goes after every index whose key is not greater. */
  function InsertIndex(order: seq<nat>, keys: seq<int>, i: nat): (r: seq<nat>)
    requires i < |keys| && Below(order, |keys|)
    ensures |r| == |order| + 1 && Below(r, |keys|)
    ensures forall x :: x in r <==> x in order || x == i
  {
    var k := |order| - 1;
    if order == [] || keys[order[k]] <= keys[i] then order + [i]
    else
      SplitSnoc(order);
      InsertIndex(order[..k], keys, i) + [order[k]]
  }

  /** The indices of the first `n` keys, in the order of a stable sort. */
  function SortOrder(keys: seq<int>, n: nat): (r: seq<nat>)
    requires n <= |keys|
    ensures |r| == n && Below(r, |keys|)
    ensures forall x: nat :: x in r <==> x < n
  {
    if n == 0 then [] else InsertIndex(SortOrder(keys, n - 1), keys, n - 1)
  }

  /** Index `a` stands before index `b` in a stable sort. */
  predicate StableBefore(keys: seq<int>, a: nat, b: nat)
    requires a < |keys| && b < |keys|
  {
    keys[a] < keys[b] || (keys[a] == keys[b] && a < b)
  }

  predicate StablySorted(order: seq<nat>, keys: seq<int>)
    requires Below(order, |keys|)
  {
    forall p, q :: 0 <= p < q < |order| ==> StableBefore(keys, order[p], order[q])
  }

  lemma {:induction false} InsertIndexSorts(order: seq<nat>, keys: seq<int>, i: nat)
    requires i < |keys| && Below(order, |keys|) && StablySorted(order, keys)
    requires forall p :: 0 <= p < |order| ==> order[p] < i
    ensures StablySorted(InsertIndex(order, keys, i), keys)
  {
    var k := |order| - 1;
    if order != [] && keys[order[k]] > keys[i] {
      InsertIndexSorts(order[..k], keys, i);
      var r := InsertIndex(order[..k], keys, i);
      forall p | 0 <= p < |r| ensures StableBefore(keys, r[p], order[k]) {
        assert r[p] in order[..k] || r[p] == i;
      }
    }
  }

  /** The sort orders the keys, keeps the order of equal ones, and lists each index once. */
  lemma {:induction false} SortOrderSorts(keys: seq<int>, n: nat)
    requires n <= |keys|
    ensures StablySorted(SortOrder(keys, n), keys)
  {
    if n > 0 {
      SortOrderSorts(keys, n - 1);
      var order := SortOrder(keys, n - 1);
      forall p | 0 <= p < |order| ensures order[p] < n - 1 {
        assert order[p] in order;
      }
      InsertIndexSorts(order, keys, n - 1);
    }
  }

  predicate SameOrder(keys: seq<int>, other: seq<int>) {
    |keys| == |other| && forall a, b :: 0 <= a < |keys| && 0 <= b < |keys| ==> (keys[a] <= keys[b] <==> other[a] <= other[b])
  }

  lemma {:induction false} InsertSameOrder(order: seq<nat>, keys: seq<int>, other: seq<int>, i: nat)
    requires SameOrder(keys, other) && i < |keys| && Below(order, |keys|)
    ensures InsertIndex(order, keys, i) == InsertIndex(order, other, i)
  {
    var k := |order| - 1;
    if order != [] && keys[order[k]] > keys[i] {
      InsertSameOrder(order[..k], keys, other, i);
    }
  }

  /** Keys that compare alike are sorted alike. */
  lemma {:induction false} SortSameOrder(keys: seq<int>, other: seq<int>, n: nat)
    requires SameOrder(keys, other) && n <= |keys|
    ensures SortOrder(keys, n) == SortOrder(other, n)
  {
    if n > 0 {
      SortSameOrder(keys, other, n - 1);
      InsertSameOrder(SortOrder(keys, n - 1), keys, other, n - 1);
    }
  }

  function Upto(n: nat): (r: seq<nat>)
    ensures |r| == n
  {
    seq(n, i => i)
  }

  lemma {:induction false} SortAscending(keys: seq<int>, n: nat)
    requires n <= |keys| && forall i, j :: 0 <= i < j < n ==> keys[i] <= keys[j]
    ensures SortOrder(keys, n) == Upto(n)
  {
    if n > 0 {
      SortAscending(keys, n - 1);
      assert Upto(n) == Upto(n - 1) + [n - 1];
    }
  }

  function Downfrom(n: nat): (r: seq<nat>)
    ensures |r| == n
  {
    seq(n, i requires 0 <= i < n => n - 1 - i)
  }

  lemma {:induction false} InsertInFront(order: seq<nat>, keys: seq<int>, i: nat)
    requires i < |keys| && Below(order, |keys|) && forall p :: 0 <= p < |order| ==> keys[order[p]] > keys[i]
    ensures InsertIndex(order, keys, i) == [i] + order
  {
    if order != [] {
      var k := |order| - 1;
      InsertInFront(order[..k], keys, i);
      SplitSnoc(order);
      assert [i] + order[..k] + [order[k]] == [i] + order;
    }
  }

  lemma {:induction false} SortDescending(keys: seq<int>, n: nat)
    requires n <= |keys| && forall i, j :: 0 <= i < j < n ==> keys[i] > keys[j]
    ensures SortOrder(keys, n) == Downfrom(n)
  {
    if n > 0 {
      SortDescending(keys, n - 1);
      InsertInFront(Downfrom(n - 1), keys, n - 1);
      assert [n - 1] + Downfrom(n - 1) == Downfrom(n);
    }
  }

  // ---------------------------------------------------------------- what a list of edits means

  /** Where the edit before edit `k` ends. */
  function EndOf(edits: seq<Edit>, k: nat): nat
    requires k <= |edits|
  {
    if k == 0 then 0 else edits[k - 1].to
  }

  predicate InOrderAt(edits: seq<Edit>, length: nat, i: nat)
    requires i < |edits|
  {
    EndOf(edits, i) <= edits[i].from <= edits[i].to <= length
  }

  /** Ascending edits that do not overlap. */
  predicate Ascending(edits: seq<Edit>, length: nat) {
    forall i :: 0 <= i < |edits| ==> InOrderAt(edits, length, i)
  }

  lemma {:induction false} AscendingApart(edits: seq<Edit>, length: nat, i: nat, j: nat)
    requires Ascending(edits, length) && i < j < |edits|
    ensures edits[i].to <= edits[j].from
    decreases j
  {
    assert InOrderAt(edits, length, j);
    if i < j - 1 {
      assert InOrderAt(edits, length, j - 1);
      AscendingApart(edits, length, i, j - 1);
    }
  }

  lemma EndInside(edits: seq<Edit>, length: nat, k: nat)
    requires Ascending(edits, length) && k <= |edits|
    ensures EndOf(edits, k) <= length
    ensures k < |edits| ==> EndOf(edits, k) <= edits[k].from <= edits[k].to <= length
  {
    assert k < |edits| ==> InOrderAt(edits, length, k);
    assert k > 0 ==> InOrderAt(edits, length, k - 1);
  }

  /** The text from edit `k` on, with the edits made from left to right. */
  function TailFrom(value: string, edits: seq<Edit>, k: nat): string
    requires Ascending(edits, |value|) && k <= |edits|
    decreases |edits| - k
  {
    EndInside(edits, |value|, k);
    if k == |edits| then value[EndOf(edits, k)..]
    else value[EndOf(edits, k)..edits[k].from] + edits[k].insert + TailFrom(value, edits, k + 1)
  }

  /** All edits made from left to right. */
  function Spliced(value: string, edits: seq<Edit>): string
    requires Ascending(edits, |value|)
  {
    TailFrom(value, edits, 0)
  }

  /** The result up to the end of the first `k` edits. */
  function HeadUpto(value: string, edits: seq<Edit>, k: nat): string
    requires Ascending(edits, |value|) && k <= |edits|
  {
    if k == 0 then ""
    else
      EndInside(edits, |value|, k - 1);
      HeadUpto(value, edits, k - 1) + value[EndOf(edits, k - 1)..edits[k - 1].from] + edits[k - 1].insert
  }

  /** Every edit cuts the result in two. */
  lemma {:induction false} HeadTail(value: string, edits: seq<Edit>, k: nat)
    requires Ascending(edits, |value|) && k <= |edits|
    ensures Spliced(value, edits) == HeadUpto(value, edits, k) + TailFrom(value, edits, k)
  {
    if k == 0 {
      assert "" + Spliced(value, edits) == Spliced(value, edits);
    } else {
      HeadTail(value, edits, k - 1);
      EndInside(edits, |value|, k - 1);
      Regroup(HeadUpto(value, edits, k - 1), value[EndOf(edits, k - 1)..edits[k - 1].from], edits[k - 1].insert,
              TailFrom(value, edits, k));
    }
  }

  lemma Regroup<T>(a: seq<T>, b: seq<T>, c: seq<T>, d: seq<T>)
    ensures a + (b + c + d) == (a + b + c) + d
  {
  }

  predicate StartsAfter(edits: seq<Edit>, i: nat)
    requires 0 < i < |edits|
  {
    edits[i].from >= edits[i - 1].to
  }

  /** The check of assertNonOverlappingEdits. */
  predicate NonOverlapping(edits: seq<Edit>) {
    forall i :: 1 <= i < |edits| ==> StartsAfter(edits, i)
  }

  predicate InBounds(edit: Edit, length: nat) {
    edit.from <= edit.to <= length
  }

  predicate AllInBounds(edits: seq<Edit>, length: nat) {
    forall i :: 0 <= i < |edits| ==> InBounds(edits[i], length)
  }

  lemma NonOverlappingAscending(edits: seq<Edit>, length: nat)
    requires NonOverlapping(edits) && AllInBounds(edits, length)
    ensures Ascending(edits, length)
  {
    forall i | 0 <= i < |edits| ensures InOrderAt(edits, length, i) {
      assert InBounds(edits[i], length);
      assert i > 0 ==> StartsAfter(edits, i);
    }
  }

  /** No two edits start at the same place. */
  predicate DistinctStarts(edits: seq<Edit>) {
    forall i, j :: 0 <= i < j < |edits| ==> edits[i].from != edits[j].from
  }

  // ---------------------------------------------------------------- applying edits from the right

  /** `slice(0, n)` and `slice(n)` accept any offset. */
  function SliceTo(s: string, n: nat): string {
    if n <= |s| then s[..n] else s
  }

  function SliceFrom(s: string, n: nat): string {
    if n <= |s| then s[n..] else ""
  }

  function ApplyOne(s: string, edit: Edit): string {
    SliceTo(s, edit.from) + edit.insert + SliceFrom(s, edit.to)
  }

  /** One edit after the other, each on the result of the previous one. */
  function ApplyInOrder(value: string, edits: seq<Edit>): string {
    if edits == [] then value
    else ApplyOne(ApplyInOrder(value, edits[..|edits| - 1]), edits[|edits| - 1])
  }

  function StartsDescending(edits: seq<Edit>): (keys: seq<int>)
    ensures |keys| == |edits|
  {
    seq(|edits|, i requires 0 <= i < |edits| => 0 - (edits[i].from as int))
  }

  /** applyEdits: the edits sorted by descending start, one after the other. */
  function Apply(value: string, edits: seq<Edit>): string {
    ApplyInOrder(value, Pick(edits, SortOrder(StartsDescending(edits), |edits|)))
  }

  method ApplyEdits(value: string, edits: seq<Edit>) returns (result: string)
    ensures result == Apply(value, edits)
  {
    result := value;
    var sorted := Pick(edits, SortOrder(StartsDescending(edits), |edits|));
    for index := 0 to |sorted|
      invariant result == ApplyInOrder(value, sorted[..index])
    {
      assert sorted[..index + 1][..index] == sorted[..index];
      result := SliceTo(result, sorted[index].from) + sorted[index].insert + SliceFrom(result, sorted[index].to);
    }
    assert sorted[..|sorted|] == sorted;
  }

  function Reversed(edits: seq<Edit>): (r: seq<Edit>)
    ensures |r| == |edits|
  {
    Pick(edits, Downfrom(|edits|))
  }

  lemma ApplyStep(value: string, at: nat, edit: Edit, tail: string)
    requires at <= edit.from <= edit.to <= |value|
    ensures ApplyOne(value[..edit.to] + tail, edit) == value[..at] + (value[at..edit.from] + edit.insert + tail)
  {
    var s := value[..edit.to] + tail;
    assert s[..edit.from] == value[..at] + value[at..edit.from];
    assert s[edit.to..] == tail;
    Assoc4(value[..at], value[at..edit.from], edit.insert, tail);
  }

  lemma ApplyNext(value: string, edits: seq<Edit>, k: nat)
    requires k < |edits|
    ensures ApplyInOrder(value, Reversed(edits)[..|edits| - k])
         == ApplyOne(ApplyInOrder(value, Reversed(edits)[..|edits| - k - 1]), edits[k])
  {
    var r, m := Reversed(edits), |edits| - k;
    assert r[..m] == r[..m - 1] + [edits[k]];
    Snoc(r[..m - 1], edits[k]);
  }

  /** From the right, no edit disturbs the ones that are still to come. */
  lemma {:induction false} FromTheRight(value: string, edits: seq<Edit>, k: nat)
    requires Ascending(edits, |value|) && k <= |edits|
    ensures EndOf(edits, k) <= |value|
    ensures ApplyInOrder(value, Reversed(edits)[..|edits| - k]) == value[..EndOf(edits, k)] + TailFrom(value, edits, k)
    decreases |edits| - k
  {
    EndInside(edits, |value|, k);
    if k == |edits| {
      TakeDrop(value, EndOf(edits, k));
    } else {
      FromTheRight(value, edits, k + 1);
      EndInside(edits, |value|, k);
      ApplyNext(value, edits, k);
      ApplyStep(value, EndOf(edits, k), edits[k], TailFrom(value, edits, k + 1));
    }
  }

  /** Ascending edits with different starts: applying them from the right is the left-to-right splice. */
  lemma ApplyIsSplice(value: string, edits: seq<Edit>)
    requires Ascending(edits, |value|) && DistinctStarts(edits)
    ensures Apply(value, edits) == Spliced(value, edits)
  {
    var keys := StartsDescending(edits);
    forall i, j | 0 <= i < j < |edits| ensures keys[i] > keys[j] {
      AscendingApart(edits, |value|, i, j);
      EndInside(edits, |value|, i);
    }
    SortDescending(keys, |edits|);
    FromTheRight(value, edits, 0);
    assert Reversed(edits)[..|edits|] == Reversed(edits);
    assert value[..0] + Spliced(value, edits) == Spliced(value, edits);
  }

  /** With equal starts the two differ: an insertion before a replacement is applied first, and then
      partly overwritten. */
  lemma EqualStartsDiffer()
    ensures var edits := [Edit(0, 0, "X"), Edit(0, 1, "Y")];
            && Ascending(edits, 2) && Spliced("ab", edits) == "XYb" && Apply("ab", edits) == "Yab"
  {
    var edits := [Edit(0, 0, "X"), Edit(0, 1, "Y")];
    assert InOrderAt(edits, 2, 0) && InOrderAt(edits, 2, 1);
    assert TailFrom("ab", edits, 2) == "b";
    assert TailFrom("ab", edits, 1) == "Yb";
    SortAscending(StartsDescending(edits), 2);
    assert Upto(2) == [0, 1];
    var sorted := Pick(edits, Upto(2));
    assert sorted == edits;
    assert sorted[..1] == [Edit(0, 0, "X")] && sorted[..1][..0] == [];
    assert ApplyInOrder("ab", sorted[..1]) == "Xab";
    assert ApplyOne("Xab", Edit(0, 1, "Y")) == "Yab";
  }

  // ---------------------------------------------------------------- where the edits stand afterwards

  /** How far the text has shifted after the first `k` edits. */
  function Shift(edits: seq<Edit>, k: nat): int
    requires k <= |edits|
  {
    if k == 0 then 0
    else Shift(edits, k - 1) + |edits[k - 1].insert| - (edits[k - 1].to - edits[k - 1].from)
  }

  lemma {:induction false} HeadLength(value: string, edits: seq<Edit>, k: nat)
    requires Ascending(edits, |value|) && k <= |edits|
    ensures |HeadUpto(value, edits, k)| == EndOf(edits, k) + Shift(edits, k)
  {
    if k > 0 {
      EndInside(edits, |value|, k - 1);
      HeadLength(value, edits, k - 1);
    }
  }

  /** Where the text inserted by edit `k` starts. */
  function StartAfter(edits: seq<Edit>, k: nat): int
    requires k < |edits|
  {
    edits[k].from + Shift(edits, k)
  }

  /** `text` stands at `start`. */
  predicate StandsAt(w: string, start: int, text: string) {
    0 <= start && start + |text| <= |w| && w[start..start + |text|] == text
  }

  lemma PartsStand(w: string, head: string, kept: string, insert: string, tail: string)
    requires w == head + (kept + insert + tail)
    ensures StandsAt(w, |head|, kept) && StandsAt(w, |head| + |kept|, insert)
  {
    assert w[|head|..|head| + |kept|] == kept;
    assert w[|head| + |kept|..|head| + |kept| + |insert|] == insert;
  }

  /** The kept text and the inserted text of each edit stand at their shifted positions in the result. */
  lemma {:induction false} InsertedAt(value: string, edits: seq<Edit>, k: nat)
    requires Ascending(edits, |value|) && k < |edits|
    ensures EndOf(edits, k) <= edits[k].from <= |value|
    ensures StandsAt(Spliced(value, edits), EndOf(edits, k) + Shift(edits, k), value[EndOf(edits, k)..edits[k].from])
    ensures StandsAt(Spliced(value, edits), StartAfter(edits, k), edits[k].insert)
  {
    EndInside(edits, |value|, k);
    HeadTail(value, edits, k);
    HeadLength(value, edits, k);
    PartsStand(Spliced(value, edits), HeadUpto(value, edits, k), value[EndOf(edits, k)..edits[k].from], edits[k].insert,
               TailFrom(value, edits, k + 1));
  }

  // ---------------------------------------------------------------- undoing edits

  /** The edit that takes back edit `k`. */
  function Undo(value: string, edits: seq<Edit>, k: nat): Edit
    requires Ascending(edits, |value|) && k < |edits|
  {
    EndInside(edits, |value|, k);
    HeadLength(value, edits, k);
    Edit(StartAfter(edits, k), StartAfter(edits, k) + |edits[k].insert|, value[edits[k].from..edits[k].to])
  }

  function Inverse(value: string, edits: seq<Edit>): (inverse: seq<Edit>)
    requires Ascending(edits, |value|)
    ensures |inverse| == |edits|
  {
    seq(|edits|, k requires 0 <= k < |edits| => Undo(value, edits, k))
  }

  lemma {:induction false} InverseEnd(value: string, edits: seq<Edit>, k: nat)
    requires Ascending(edits, |value|) && k <= |edits|
    ensures EndOf(Inverse(value, edits), k) == EndOf(edits, k) + Shift(edits, k)
  {
  }

  lemma InverseAscending(value: string, edits: seq<Edit>)
    requires Ascending(edits, |value|)
    ensures Ascending(Inverse(value, edits), |Spliced(value, edits)|)
  {
    var inverse := Inverse(value, edits);
    forall k | 0 <= k < |inverse| ensures InOrderAt(inverse, |Spliced(value, edits)|, k) {
      InverseEnd(value, edits, k);
      InsertedAt(value, edits, k);
    }
  }

  lemma TakeStep(value: string, i: nat, j: nat, k: nat)
    requires i <= j <= k <= |value|
    ensures value[..i] + value[i..j] + value[j..k] == value[..k]
  {
  }

  /** While the edits are undone, the text so far is the original text. */
  lemma {:induction false} InverseHead(value: string, edits: seq<Edit>, k: nat)
    requires Ascending(edits, |value|) && k <= |edits| && Ascending(Inverse(value, edits), |Spliced(value, edits)|)
    ensures EndOf(edits, k) <= |value|
    ensures HeadUpto(Spliced(value, edits), Inverse(value, edits), k) == value[..EndOf(edits, k)]
  {
    EndInside(edits, |value|, k);
    if k > 0 {
      EndInside(edits, |value|, k - 1);
      InverseHead(value, edits, k - 1);
      InverseEnd(value, edits, k - 1);
      InsertedAt(value, edits, k - 1);
      TakeStep(value, EndOf(edits, k - 1), edits[k - 1].from, edits[k - 1].to);
    }
  }

  /** Applying the inverse edits to the edited text gives the text back. */
  lemma InverseRestores(value: string, edits: seq<Edit>)
    requires Ascending(edits, |value|)
    ensures Ascending(Inverse(value, edits), |Spliced(value, edits)|)
    ensures Spliced(Spliced(value, edits), Inverse(value, edits)) == value
  {
    var n := |edits|;
    var w, inverse := Spliced(value, edits), Inverse(value, edits);
    InverseAscending(value, edits);
    InverseHead(value, edits, n);
    HeadTail(w, inverse, n);
    HeadTail(value, edits, n);
    HeadLength(value, edits, n);
    InverseEnd(value, edits, n);
    CutConcat(HeadUpto(value, edits, n), value[EndOf(edits, n)..]);
    TakeDrop(value, EndOf(edits, n));
  }

  // ---------------------------------------------------------------- edits that carry a selection

  /** An edit together with the part of the inserted text to select afterwards. */
  datatype SelectionEdit = SelectionEdit(edit: Edit, selectionFrom: nat, selectionTo: nat, reversed: bool, selectionIndex: nat)
  datatype Transaction = Transaction(changes: seq<Edit>, selections: seq<Selection>)
  datatype Outcome = Overlap | Done(transaction: Transaction)

  function StartsOf(selectionEdits: seq<SelectionEdit>): (keys: seq<int>)
    ensures |keys| == |selectionEdits|
  {
    seq(|selectionEdits|, i requires 0 <= i < |selectionEdits| => selectionEdits[i].edit.from)
  }

  function OrderOf(selectionEdits: seq<SelectionEdit>): (order: seq<nat>)
    ensures |order| == |selectionEdits| && Below(order, |selectionEdits|)
    ensures forall x: nat :: x in order <==> x < |selectionEdits|
  {
    SortOrder(StartsOf(selectionEdits), |selectionEdits|)
  }

  function Changes(sorted: seq<SelectionEdit>): (edits: seq<Edit>)
    ensures |edits| == |sorted|
  {
    seq(|sorted|, k requires 0 <= k < |sorted| => sorted[k].edit)
  }

  /** The changes of the transaction: the edits in the order of their starts. */
  function SortedChanges(selectionEdits: seq<SelectionEdit>): (edits: seq<Edit>)
    ensures |edits| == |selectionEdits|
  {
    Changes(Pick(selectionEdits, OrderOf(selectionEdits)))
  }

  /** The selection of an edit whose inserted text starts at `start`. */
  function Selected(s: SelectionEdit, start: int): Selection
    requires start >= 0
  {
    if s.reversed then Selection(start + s.selectionTo, start + s.selectionFrom)
    else Selection(start + s.selectionFrom, start + s.selectionTo)
  }

  predicate IndexedInOrder(selectionEdits: seq<SelectionEdit>) {
    forall i :: 0 <= i < |selectionEdits| ==> selectionEdits[i].selectionIndex == i
  }

  /** `selection` covers what edit `s` wants selected if its inserted text starts at `start`. */
  predicate IsPlaced(s: SelectionEdit, selection: Selection, start: int) {
    start >= 0 && selection == Selected(s, start)
  }

  predicate PlacesAll(selectionEdits: seq<SelectionEdit>, order: seq<nat>, changes: seq<Edit>, selections: seq<Selection>, n: nat)
    requires n <= |order| == |changes| && |selections| == |selectionEdits| && Below(order, |selectionEdits|)
  {
    forall k :: 0 <= k < n ==> IsPlaced(selectionEdits[order[k]], selections[order[k]], StartAfter(changes, k))
  }

  /** What transactionFromSelectionEdits returns: the sorted changes, and for each edit the selected
      part of its inserted text, at the place that the changes before it leave it. */
  ghost predicate IsTransaction(selectionEdits: seq<SelectionEdit>, t: Transaction) {
    && t.changes == SortedChanges(selectionEdits) && |t.selections| == |selectionEdits|
    && PlacesAll(selectionEdits, OrderOf(selectionEdits), t.changes, t.selections, |selectionEdits|)
  }

  predicate AllEditsInBounds(selectionEdits: seq<SelectionEdit>, length: nat) {
    forall i :: 0 <= i < |selectionEdits| ==> InBounds(selectionEdits[i].edit, length)
  }

  lemma ChangesAscending(selectionEdits: seq<SelectionEdit>, length: nat)
    requires AllEditsInBounds(selectionEdits, length) && NonOverlapping(SortedChanges(selectionEdits))
    ensures Ascending(SortedChanges(selectionEdits), length)
  {
    NonOverlappingAscending(SortedChanges(selectionEdits), length);
  }

  lemma {:induction false} ShiftFits(edits: seq<Edit>, length: nat, k: nat)
    requires Ascending(edits, length) && k <= |edits|
    ensures EndOf(edits, k) + Shift(edits, k) >= 0
  {
    if k > 0 {
      EndInside(edits, length, k - 1);
      ShiftFits(edits, length, k - 1);
    }
  }

  lemma OrderDistinct(selectionEdits: seq<SelectionEdit>, j: nat, k: nat)
    requires j < k < |selectionEdits|
    ensures OrderOf(selectionEdits)[j] != OrderOf(selectionEdits)[k]
  {
    SortOrderSorts(StartsOf(selectionEdits), |selectionEdits|);
  }

  lemma ChangeAt(selectionEdits: seq<SelectionEdit>, k: nat)
    requires k < |selectionEdits|
    ensures SortedChanges(selectionEdits)[k] == selectionEdits[OrderOf(selectionEdits)[k]].edit
  {
  }

  lemma PlaceNext(selectionEdits: seq<SelectionEdit>, changes: seq<Edit>, selections: seq<Selection>, k: nat, selection: Selection)
    requires k < |selectionEdits| == |changes| == |selections|
    requires PlacesAll(selectionEdits, OrderOf(selectionEdits), changes, selections, k)
    requires IsPlaced(selectionEdits[OrderOf(selectionEdits)[k]], selection, StartAfter(changes, k))
    ensures PlacesAll(selectionEdits, OrderOf(selectionEdits), changes, selections[OrderOf(selectionEdits)[k] := selection], k + 1)
  {
    var order := OrderOf(selectionEdits);
    forall j | 0 <= j < k ensures order[j] != order[k] {
      OrderDistinct(selectionEdits, j, k);
    }
  }

  /** The loop of transactionFromSelectionEdits: `delta` runs along the sorted edits, and each result is
      written at the index of its selection. */
  method TransactionFromSelectionEdits(selectionEdits: seq<SelectionEdit>, length: nat) returns (outcome: Outcome)
    requires AllEditsInBounds(selectionEdits, length) && IndexedInOrder(selectionEdits)
    ensures outcome.Overlap? <==> !NonOverlapping(SortedChanges(selectionEdits))
    ensures outcome.Done? ==> IsTransaction(selectionEdits, outcome.transaction)
  {
    var order := OrderOf(selectionEdits);
    var sorted := Pick(selectionEdits, order);
    var changes := Changes(sorted);
    if !NonOverlapping(changes) {
      return Overlap;
    }
    ChangesAscending(selectionEdits, length);
    var selections := seq(|selectionEdits|, i => Selection(0, 0));
    var delta := 0;
    for k := 0 to |sorted|
      invariant |selections| == |selectionEdits|
      invariant delta == Shift(changes, k)
      invariant PlacesAll(selectionEdits, order, changes, selections, k)
    {
      var next := sorted[k];
      EndInside(changes, length, k);
      ShiftFits(changes, length, k);
      ChangeAt(selectionEdits, k);
      var replacementStart := next.edit.from + delta;
      var selectionFrom := replacementStart + next.selectionFrom;
      var selectionTo := replacementStart + next.selectionTo;
      var selection := if next.reversed then Selection(selectionTo, selectionFrom) else Selection(selectionFrom, selectionTo);
      PlaceNext(selectionEdits, changes, selections, k, selection);
      selections := selections[next.selectionIndex := selection];
      delta := delta + |next.edit.insert| - (next.edit.to - next.edit.from);
    }
    outcome := Done(Transaction(changes, selections));
  }

  /** The selected slice of the inserted text. */
  predicate SelectsInsert(s: SelectionEdit) {
    s.selectionFrom <= s.selectionTo <= |s.edit.insert|
  }

  function FromOf(s: Selection): nat {
    Lower(s.anchor, s.head)
  }

  function ToOf(s: Selection): nat {
    Upper(s.anchor, s.head)
  }

  predicate SelectionInside(value: string, s: Selection) {
    s.anchor <= |value| && s.head <= |value|
  }

  predicate SelectionsInside(value: string, selections: seq<Selection>) {
    forall i :: 0 <= i < |selections| ==> SelectionInside(value, selections[i])
  }

  function SelectedText(value: string, s: Selection): string
    requires SelectionInside(value, s)
  {
    value[FromOf(s)..ToOf(s)]
  }

  /** A selection covers a slice of the text, in the given direction. */
  predicate Covers(value: string, s: Selection, text: string, reversed: bool) {
    && ToOf(s) <= |value| && value[FromOf(s)..ToOf(s)] == text
    && (text != "" ==> (reversed <==> s.anchor > s.head))
  }

  lemma SliceOfInsert(w: string, start: nat, insert: string, i: nat, j: nat)
    requires start + |insert| <= |w| && w[start..start + |insert|] == insert && i <= j <= |insert|
    ensures w[start + i..start + j] == insert[i..j]
  {
    forall k | 0 <= k < j - i ensures w[start + i..start + j][k] == insert[i..j][k] {
      assert w[start..start + |insert|][i + k] == insert[i + k];
    }
  }

  /** In the result, the selection of the `k`-th change covers its slice. */
  lemma PlacedCovers(value: string, changes: seq<Edit>, k: nat, s: SelectionEdit, selection: Selection)
    requires Ascending(changes, |value|) && k < |changes| && changes[k] == s.edit && SelectsInsert(s)
    requires IsPlaced(s, selection, StartAfter(changes, k))
    ensures Covers(Spliced(value, changes), selection, s.edit.insert[s.selectionFrom..s.selectionTo], s.reversed)
  {
    InsertedAt(value, changes, k);
    SliceOfInsert(Spliced(value, changes), StartAfter(changes, k), s.edit.insert, s.selectionFrom, s.selectionTo);
  }

  /** Where in the order of the changes the edit of a selection is. */
  lemma RankOf(selectionEdits: seq<SelectionEdit>, i: nat) returns (k: nat)
    requires i < |selectionEdits|
    ensures k < |selectionEdits| && OrderOf(selectionEdits)[k] == i
  {
    assert i in OrderOf(selectionEdits);
    k :| 0 <= k < |OrderOf(selectionEdits)| && OrderOf(selectionEdits)[k] == i;
  }

  /** Transactions are coherent: whatever the order and direction of the selections, each returned selection
      covers exactly the intended slice of its own inserted text in the final document. */
  lemma TransactionCoherent(value: string, selectionEdits: seq<SelectionEdit>, t: Transaction, i: nat)
    requires AllEditsInBounds(selectionEdits, |value|) && IsTransaction(selectionEdits, t)
    requires NonOverlapping(t.changes) && DistinctStarts(t.changes)
    requires i < |selectionEdits| && SelectsInsert(selectionEdits[i])
    ensures var s := selectionEdits[i];
            Covers(Apply(value, t.changes), t.selections[i], s.edit.insert[s.selectionFrom..s.selectionTo], s.reversed)
  {
    ChangesAscending(selectionEdits, |value|);
    ApplyIsSplice(value, t.changes);
    var k := RankOf(selectionEdits, i);
    ChangeAt(selectionEdits, k);
    PlacedCovers(value, t.changes, k, selectionEdits[i], t.selections[i]);
  }

  // ---------------------------------------------------------------- a transaction that takes another one back

  /** Undoing shifts everything back. */
  lemma InverseStart(value: string, edits: seq<Edit>, k: nat)
    requires Ascending(edits, |value|) && k < |edits|
    ensures StartAfter(Inverse(value, edits), k) == edits[k].from
  {
    var w, inverse := Spliced(value, edits), Inverse(value, edits);
    InverseAscending(value, edits);
    InverseHead(value, edits, k);
    HeadLength(w, inverse, k);
    InverseEnd(value, edits, k);
  }

  /** Edit by edit, the second list takes the changes of the first list back. */
  ghost predicate TakesBack(value: string, first: seq<SelectionEdit>, second: seq<SelectionEdit>)
    requires Ascending(SortedChanges(first), |value|)
  {
    && |second| == |first|
    && forall k :: 0 <= k < |first| ==> second[OrderOf(first)[k]].edit == Undo(value, SortedChanges(first), k)
  }

  /** Every change inserts something. */
  predicate Inserts(edits: seq<Edit>) {
    forall k :: 0 <= k < |edits| ==> edits[k].insert != ""
  }

  lemma StartsAscend(value: string, edits: seq<Edit>, j: nat, k: nat)
    requires Ascending(edits, |value|) && DistinctStarts(edits) && Inserts(edits) && j < k < |edits|
    ensures edits[j].from < edits[k].from && StartAfter(edits, j) < StartAfter(edits, k)
  {
    var inverse := Inverse(value, edits);
    AscendingApart(edits, |value|, j, k);
    EndInside(edits, |value|, j);
    InverseAscending(value, edits);
    AscendingApart(inverse, |Spliced(value, edits)|, j, k);
    assert inverse[j] == Undo(value, edits, j) && inverse[k] == Undo(value, edits, k);
  }

  lemma TakesBackSameOrder(value: string, first: seq<SelectionEdit>, second: seq<SelectionEdit>)
    requires Ascending(SortedChanges(first), |value|) && DistinctStarts(SortedChanges(first)) && Inserts(SortedChanges(first))
    requires TakesBack(value, first, second)
    ensures OrderOf(second) == OrderOf(first)
  {
    var keys, other := StartsOf(first), StartsOf(second);
    forall a, b | 0 <= a < |keys| && 0 <= b < |keys| ensures keys[a] <= keys[b] <==> other[a] <= other[b] {
      var j := RankOf(first, a);
      var k := RankOf(first, b);
      ChangeAt(first, j);
      ChangeAt(first, k);
      if j < k {
        StartsAscend(value, SortedChanges(first), j, k);
      } else if k < j {
        StartsAscend(value, SortedChanges(first), k, j);
      }
    }
    SortSameOrder(keys, other, |keys|);
  }

  /** A transaction that takes each edit of the first one back restores the text, and puts each of its own
      selections at the original start of its edit. */
  lemma TakenBack(value: string, first: seq<SelectionEdit>, t: Transaction, second: seq<SelectionEdit>, u: Transaction)
    requires AllEditsInBounds(first, |value|) && IsTransaction(first, t) && NonOverlapping(t.changes)
    requires Ascending(t.changes, |value|) && DistinctStarts(t.changes) && Inserts(t.changes)
    requires TakesBack(value, first, second) && IsTransaction(second, u)
    ensures NonOverlapping(u.changes) && Apply(Apply(value, t.changes), u.changes) == value
    ensures forall i :: 0 <= i < |first| ==> IsPlaced(second[i], u.selections[i], first[i].edit.from)
  {
    var inverse := Inverse(value, t.changes);
    TakesBackSameOrder(value, first, second);
    forall k | 0 <= k < |first| ensures u.changes[k] == inverse[k] {
      ChangeAt(second, k);
    }
    assert u.changes == inverse;
    ApplyIsSplice(value, t.changes);
    InverseRestores(value, t.changes);
    InverseSeparate(value, t.changes);
    ApplyIsSplice(Spliced(value, t.changes), inverse);
    forall i | 0 <= i < |first| ensures IsPlaced(second[i], u.selections[i], first[i].edit.from) {
      var k := RankOf(first, i);
      ChangeAt(first, k);
      InverseStart(value, t.changes, k);
    }
  }

  lemma AscendingSeparate(edits: seq<Edit>, length: nat)
    requires Ascending(edits, length)
    ensures NonOverlapping(edits)
  {
    forall i | 1 <= i < |edits| ensures StartsAfter(edits, i) {
      assert InOrderAt(edits, length, i);
    }
  }

  lemma InverseSeparate(value: string, edits: seq<Edit>)
    requires Ascending(edits, |value|) && DistinctStarts(edits) && Inserts(edits)
    ensures NonOverlapping(Inverse(value, edits)) && DistinctStarts(Inverse(value, edits))
  {
    var inverse := Inverse(value, edits);
    InverseAscending(value, edits);
    AscendingSeparate(inverse, |Spliced(value, edits)|);
    forall j, k | 0 <= j < k < |inverse| ensures inverse[j].from != inverse[k].from {
      StartsAscend(value, edits, j, k);
    }
  }

  // ---------------------------------------------------------------- mapping positions through edits

  /** A position after the edits, given how far the text before has shifted. It moves behind an insertion
      at its own place, and behind the replacement if it lies in replaced text. */
  function MapFrom(position: nat, edits: seq<Edit>, delta: int): int {
    if edits == [] || position < edits[0].from then position + delta
    else if edits[0].from == edits[0].to then MapFrom(position, edits[1..], delta + |edits[0].insert|)
    else if position <= edits[0].to then edits[0].from + delta + |edits[0].insert|
    else MapFrom(position, edits[1..], delta + |edits[0].insert| - (edits[0].to - edits[0].from))
  }

  /** mapPosition with association 1. */
  method MapPosition(position: nat, edits: seq<Edit>) returns (mapped: int)
    ensures mapped == MapFrom(position, edits, 0)
  {
    var delta := 0;
    for index := 0 to |edits|
      invariant MapFrom(position, edits[index..], delta) == MapFrom(position, edits, 0)
    {
      var edit := edits[index];
      assert edits[index..][1..] == edits[index + 1..];
      if position < edit.from {
        return position + delta;
      }
      if edit.from == edit.to {
        delta := delta + |edit.insert|;
      } else {
        if position <= edit.to {
          return edit.from + delta + |edit.insert|;
        }
        delta := delta + |edit.insert| - (edit.to - edit.from);
      }
    }
    assert edits[|edits|..] == [];
    mapped := position + delta;
  }
}
