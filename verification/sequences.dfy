/** Facts about concatenation that hold for all sequences. */
module Seqs {
  lemma Assoc<T>(a: seq<T>, b: seq<T>, c: seq<T>)
    ensures a + b + c == a + (b + c)
  {
  }

  lemma Assoc4<T>(a: seq<T>, b: seq<T>, c: seq<T>, d: seq<T>)
    ensures a + b + c + d == a + (b + c + d)
  {
  }

  lemma Regroup5<T>(a: seq<T>, b: seq<T>, c: seq<T>, d: seq<T>, e: seq<T>)
    ensures a + (b + c + d) + e == (a + b) + c + (d + e)
  {
  }

  lemma TakeDrop<T>(s: seq<T>, k: nat)
    requires k <= |s|
    ensures s[..k] + s[k..] == s
  {
  }

  lemma CutAtTwo<T>(s: seq<T>, i: nat, j: nat)
    requires i <= j <= |s|
    ensures s == s[..i] + s[i..j] + s[j..]
  {
  }

  lemma CutConcat<T>(a: seq<T>, b: seq<T>)
    ensures (a + b)[..|a|] == a && (a + b)[|a|..] == b
  {
  }

  lemma Snoc<T>(s: seq<T>, x: T)
    ensures |s + [x]| == |s| + 1 && (s + [x])[..|s|] == s && (s + [x])[|s|] == x
  {
  }

  lemma SplitSnoc<T>(s: seq<T>)
    requires s != []
    ensures s == s[..|s| - 1] + [s[|s| - 1]]
  {
  }

  lemma Uncons<T>(s: seq<T>)
    requires s != []
    ensures s == [s[0]] + s[1..]
  {
  }

  lemma TailConcat<T>(a: seq<T>, b: seq<T>)
    requires a != []
    ensures (a + b)[0] == a[0] && (a + b)[1..] == a[1..] + b
  {
  }
}

/** Index lists and the edits that rows and columns share: insert, duplicate, remove and move. */
module Sequences {
  import opened Seqs

  predicate Increasing(s: seq<nat>) {
    forall i, j :: 0 <= i < j < |s| ==> s[i] < s[j]
  }

  predicate Below(s: seq<nat>, n: nat) {
    forall i :: 0 <= i < |s| ==> s[i] < n
  }

  function Clamp(value: int, low: int, high: int): int {
    var raised := if value > low then value else low;
    if raised < high then raised else high
  }

  /** normalizedIndices: the distinct indices from 0 to `count - 1` that occur, in ascending order. */
  function Normalized(indices: seq<int>, count: nat): (r: seq<nat>)
    ensures Increasing(r) && Below(r, count) && |r| <= count
    ensures forall k: nat :: k in r <==> k < count && k in indices
  {
    if count == 0 then []
    else
      var r := Normalized(indices, count - 1);
      if count - 1 in indices then r + [count - 1] else r
  }

  /** The ascending list with given members is unique. */
  lemma {:induction false} IncreasingUnique(a: seq<nat>, b: seq<nat>)
    requires Increasing(a) && Increasing(b) && forall k: nat :: k in a <==> k in b
    ensures a == b
  {
    assert (a != [] ==> a[0] in a) && (b != [] ==> b[0] in b);
    if a != [] && b != [] {
      var i, j := |a| - 1, |b| - 1;
      assert a[i] in b && b[j] in a;
      assert a[i] == b[j];
      forall k: nat ensures k in a[..i] <==> k in b[..j] {
        assert k in a <==> k in a[..i] || k == a[i];
        assert k in b <==> k in b[..j] || k == b[j];
        assert a[i] !in a[..i] && b[j] !in b[..j];
      }
      IncreasingUnique(a[..i], b[..j]);
      assert a == a[..i] + [a[i]] && b == b[..j] + [b[j]];
    }
  }

  function CountBelow(s: seq<nat>, gap: int): (n: nat)
    ensures n <= |s|
  {
    if s == [] then 0
    else CountBelow(s[..|s| - 1], gap) + if s[|s| - 1] < gap then 1 else 0
  }

  function Pick<T>(s: seq<T>, indices: seq<nat>): (r: seq<T>)
    requires Below(indices, |s|)
    ensures |r| == |indices|
  {
    seq(|indices|, i requires 0 <= i < |indices| => s[indices[i]])
  }

  /** The elements whose index is not listed. */
  function Without<T>(s: seq<T>, drop: seq<nat>): (r: seq<T>)
    ensures |r| <= |s|
  {
    if s == [] then []
    else
      var k := |s| - 1;
      Without(s[..k], drop) + if k in drop then [] else [s[k]]
  }

  function Splice<T>(s: seq<T>, k: nat, inserted: seq<T>): seq<T>
    requires k <= |s|
  {
    s[..k] + inserted + s[k..]
  }

  /** The gap in what remains after the removal. */
  function InsertionIndex(indices: seq<nat>, gap: int, length: nat): (k: nat)
    requires Increasing(indices) && Below(indices, length)
    ensures k <= length - |indices|
  {
    var g := Clamp(gap, 0, length);
    CountBelowBound(indices, g);
    CountFrom(indices, length, g);
    g - CountBelow(indices, g)
  }

  /** Take the listed elements out and put them back, in order, at a gap of the original sequence. */
  function MoveItems<T>(s: seq<T>, indices: seq<nat>, gap: int): (r: seq<T>)
    requires Increasing(indices) && Below(indices, |s|)
    ensures |r| == |s|
  {
    WithoutLength(s, indices);
    Splice(Without(s, indices), InsertionIndex(indices, gap, |s|), Pick(s, indices))
  }

  /** remapMovedIndices: where the moved items are afterwards. */
  function RemapMovedIndices(indices: seq<int>, targetGap: int, length: nat): seq<int> {
    var moving := Normalized(indices, length);
    var gap := Clamp(targetGap, 0, length);
    var first := gap - CountBelow(moving, gap);
    seq(|moving|, offset => first + offset)
  }

  // ---------------------------------------------------------------- counting and removing

  lemma {:induction false} CountBelowBound(s: seq<nat>, gap: int)
    requires Increasing(s)
    ensures gap >= 0 ==> CountBelow(s, gap) <= gap
    ensures gap <= 0 ==> CountBelow(s, gap) == 0
    ensures forall i :: 0 <= i < |s| ==> (s[i] < gap <==> i < CountBelow(s, gap))
  {
    if s != [] {
      var k := |s| - 1;
      CountBelowBound(s[..k], gap);
      assert forall i :: 0 <= i < k ==> s[..k][i] == s[i];
      assert k > 0 ==> s[..k][k - 1] < s[k];
      AtLeastIndex(s, k);
    }
  }

  lemma {:induction false} AtLeastIndex(s: seq<nat>, k: nat)
    requires Increasing(s) && k < |s|
    ensures k <= s[k]
  {
    if k > 0 {
      AtLeastIndex(s, k - 1);
    }
  }

  /** No more indices lie at or above a bound than there is room for. */
  lemma CountFrom(s: seq<nat>, n: nat, gap: nat)
    requires Increasing(s) && Below(s, n) && gap <= n
    ensures |s| - CountBelow(s, gap) <= n - gap
  {
    CountBelowBound(s, gap);
    var c := CountBelow(s, gap);
    if c < |s| {
      GapIndex(s, c, |s| - 1);
      assert s[c] >= gap;
    }
  }

  lemma {:induction false} GapIndex(s: seq<nat>, i: nat, j: nat)
    requires Increasing(s) && i <= j < |s|
    ensures s[j] - s[i] >= j - i
  {
    if i < j {
      GapIndex(s, i, j - 1);
    }
  }

  lemma CountBelowStep(s: seq<nat>, k: nat)
    requires Increasing(s)
    ensures CountBelow(s, k + 1) == CountBelow(s, k) + if k in s then 1 else 0
  {
    var c, d := CountBelow(s, k), CountBelow(s, k + 1);
    assert c < |s| ==> s[c] in s;
    assert forall i :: c < i < |s| ==> s[c] < s[i];
    assert d < |s| ==> s[d] in s;
    assert c + 1 < |s| ==> s[c] < s[c + 1];
    CountBelowBound(s, k);
    CountBelowBound(s, k + 1);
    if k in s {
      var i :| 0 <= i < |s| && s[i] == k;
      assert c <= i < d;
    }
  }

  lemma {:induction false} WithoutLengthUpTo<T>(s: seq<T>, drop: seq<nat>)
    requires Increasing(drop)
    ensures |Without(s, drop)| == |s| - CountBelow(drop, |s|)
  {
    if s == [] {
      CountBelowBound(drop, 0);
    } else {
      WithoutLengthUpTo(s[..|s| - 1], drop);
      CountBelowStep(drop, |s| - 1);
    }
  }

  lemma WithoutLength<T>(s: seq<T>, drop: seq<nat>)
    requires Increasing(drop) && Below(drop, |s|)
    ensures |Without(s, drop)| == |s| - |drop|
  {
    WithoutLengthUpTo(s, drop);
    var c := CountBelow(drop, |s|);
    assert c < |drop| ==> drop[c] < |s|;
    CountBelowBound(drop, |s|);
  }

  /** A kept element moves left by the number of dropped indices before it. */
  lemma {:induction false} WithoutAt<T>(s: seq<T>, drop: seq<nat>, i: nat)
    requires Increasing(drop) && i < |s| && i !in drop
    ensures 0 <= i - CountBelow(drop, i) < |Without(s, drop)|
    ensures Without(s, drop)[i - CountBelow(drop, i)] == s[i]
  {
    var k := |s| - 1;
    CountBelowBound(drop, i);
    WithoutLengthUpTo(s[..k], drop);
    if i < k {
      WithoutAt(s[..k], drop, i);
    }
  }

  lemma {:induction false} CountBelowGap(drop: seq<nat>, i: nat, j: nat)
    requires Increasing(drop) && i <= j
    ensures 0 <= CountBelow(drop, j) - CountBelow(drop, i) <= j - i
    ensures i < j && i !in drop ==> CountBelow(drop, j) - CountBelow(drop, i) < j - i
    decreases j - i
  {
    if i < j {
      CountBelowStep(drop, i);
      CountBelowGap(drop, i + 1, j);
    }
  }

  // ---------------------------------------------------------------- moving

  /** Where an element that is not moved ends up. */
  function UnmovedPosition(indices: seq<nat>, gap: int, i: nat): int {
    i - CountBelow(indices, i) + if i < gap then 0 else |indices|
  }

  predicate MovedLand<T(==)>(s: seq<T>, selected: seq<int>, gap: int) {
    var indices := Normalized(selected, |s|);
    var landed := RemapMovedIndices(selected, gap, |s|);
    && |landed| == |indices|
    && forall r :: 0 <= r < |landed| ==>
         0 <= landed[r] < |s| && MoveItems(s, indices, gap)[landed[r]] == s[indices[r]]
  }

  predicate UnmovedLandsAt<T(==)>(s: seq<T>, selected: seq<int>, gap: int, i: nat)
    requires i < |s|
  {
    var indices := Normalized(selected, |s|);
    var p := UnmovedPosition(indices, Clamp(gap, 0, |s|), i);
    && 0 <= p < |s| && MoveItems(s, indices, gap)[p] == s[i]
    && p !in RemapMovedIndices(selected, gap, |s|)
  }

  lemma SpliceBlockAt<T>(rest: seq<T>, k: nat, block: seq<T>, r: nat, at: nat)
    requires k <= |rest| && r < |block| && at == k + r
    ensures at < |Splice(rest, k, block)| && Splice(rest, k, block)[at] == block[r]
  {
  }

  lemma SpliceRest<T>(rest: seq<T>, k: nat, block: seq<T>, j: nat)
    requires k <= |rest| && j < |rest|
    ensures Splice(rest, k, block)[if j < k then j else j + |block|] == rest[j]
  {
  }

  lemma {:induction false} MovedItems<T>(s: seq<T>, selected: seq<int>, gap: int)
    ensures MovedLand(s, selected, gap)
  {
    var indices := Normalized(selected, |s|);
    var landed := RemapMovedIndices(selected, gap, |s|);
    var k := InsertionIndex(indices, gap, |s|);
    WithoutLength(s, indices);
    forall r | 0 <= r < |landed| ensures 0 <= landed[r] < |s| && MoveItems(s, indices, gap)[landed[r]] == s[indices[r]] {
      assert landed[r] == k + r;
      SpliceBlockAt(Without(s, indices), k, Pick(s, indices), r, landed[r]);
    }
  }

  /** A kept element stands before the gap after the removal exactly when it did before. */
  lemma UnmovedSide(indices: seq<nat>, gap: nat, i: nat)
    requires Increasing(indices) && i !in indices
    ensures i - CountBelow(indices, i) < gap - CountBelow(indices, gap) <==> i < gap
  {
    if i < gap {
      CountBelowGap(indices, i, gap);
    } else {
      CountBelowGap(indices, gap, i);
    }
  }

  lemma {:induction false} UnmovedItem<T>(s: seq<T>, selected: seq<int>, gap: int, i: nat)
    requires i < |s| && i !in Normalized(selected, |s|)
    ensures UnmovedLandsAt(s, selected, gap, i)
  {
    var indices := Normalized(selected, |s|);
    WithoutLength(s, indices);
    WithoutAt(s, indices, i);
    UnmovedSide(indices, Clamp(gap, 0, |s|), i);
    SpliceRest(Without(s, indices), InsertionIndex(indices, gap, |s|), Pick(s, indices), i - CountBelow(indices, i));
  }

  /** The elements that are not moved keep their relative order. */
  lemma UnmovedKeepOrder(indices: seq<nat>, gap: int, i: nat, j: nat)
    requires Increasing(indices) && i < j && i !in indices && j !in indices
    ensures UnmovedPosition(indices, gap, i) < UnmovedPosition(indices, gap, j)
  {
    CountBelowGap(indices, i, j);
  }

  lemma {:induction false} PickMultiset<T>(s: seq<T>, drop: seq<nat>)
    requires Increasing(drop) && Below(drop, |s|)
    ensures multiset(Without(s, drop)) + multiset(Pick(s, drop)) == multiset(s)
  {
    if s != [] {
      var k := |s| - 1;
      SplitSnoc(s);
      if k in drop {
        PickSnoc(s, drop);
        WithoutIgnoresLast(s[..k], drop);
        PickMultiset(s[..k], drop[..|drop| - 1]);
        BagSnoc(Without(s, drop), Pick(s[..k], drop[..|drop| - 1]), s[..k], s[k], s[k]);
      } else {
        BelowShrinks(drop, k);
        PickMultiset(s[..k], drop);
        PickShorter(s, drop);
        BagSnoc(Pick(s, drop), Without(s[..k], drop), s[..k], s[k], s[k]);
      }
    }
  }

  lemma BagSnoc<T>(a: seq<T>, b: seq<T>, c: seq<T>, x: T, y: T)
    requires multiset(a) + multiset(b) == multiset(c) && x == y
    ensures multiset(a) + multiset(b + [x]) == multiset(c + [y])
    ensures multiset(b + [x]) + multiset(a) == multiset(c + [y])
  {
  }

  lemma PickShorter<T>(s: seq<T>, drop: seq<nat>)
    requires s != [] && Below(drop, |s| - 1)
    ensures Pick(s, drop) == Pick(s[..|s| - 1], drop)
  {
  }

  lemma PickSnoc<T>(s: seq<T>, drop: seq<nat>)
    requires s != [] && Increasing(drop) && Below(drop, |s|) && |s| - 1 in drop
    ensures drop != [] && drop[|drop| - 1] == |s| - 1 && Below(drop[..|drop| - 1], |s| - 1)
    ensures Pick(s, drop) == Pick(s[..|s| - 1], drop[..|drop| - 1]) + [s[|s| - 1]]
  {
    LastIsGreatest(drop, |s| - 1);
  }

  lemma LastIsGreatest(drop: seq<nat>, k: nat)
    requires Increasing(drop) && Below(drop, k + 1) && k in drop
    ensures drop[|drop| - 1] == k && Below(drop[..|drop| - 1], k)
  {
    assert forall i :: 0 <= i < |drop| - 1 ==> drop[i] < drop[|drop| - 1];
  }

  lemma BelowShrinks(drop: seq<nat>, k: nat)
    requires Below(drop, k + 1) && k !in drop
    ensures Below(drop, k)
  {
    assert forall i :: 0 <= i < |drop| ==> drop[i] in drop;
  }

  lemma {:induction false} WithoutIgnoresLast<T>(s: seq<T>, drop: seq<nat>)
    requires drop != [] && drop[|drop| - 1] >= |s|
    ensures Without(s, drop) == Without(s, drop[..|drop| - 1])
  {
    if s != [] {
      var k := |s| - 1;
      WithoutIgnoresLast(s[..k], drop);
      assert k in drop <==> k in drop[..|drop| - 1];
    }
  }

  /** Nothing is lost or duplicated by a move. */
  lemma MoveKeepsItems<T>(s: seq<T>, indices: seq<nat>, gap: int)
    requires Increasing(indices) && Below(indices, |s|)
    ensures multiset(MoveItems(s, indices, gap)) == multiset(s)
  {
    var rest := Without(s, indices);
    var g := Clamp(gap, 0, |s|);
    WithoutLength(s, indices);
    CountBelowBound(indices, g);
    CountFrom(indices, |s|, g);
    var k := g - CountBelow(indices, g);
    assert rest == rest[..k] + rest[k..];
    PickMultiset(s, indices);
  }

  // ---------------------------------------------------------------- contiguous blocks

  function Range(from: nat, to: nat): (r: seq<nat>)
    requires from <= to
    ensures |r| == to - from && (forall i :: 0 <= i < |r| ==> r[i] == from + i)
    ensures Increasing(r) && Below(r, to) && forall k: nat :: k in r <==> from <= k < to
  {
    if from == to then [] else Range(from, to - 1) + [to - 1]
  }

  lemma {:induction false} WithoutRange<T>(s: seq<T>, from: nat, to: nat)
    requires from <= to
    ensures Without(s, Range(from, to))
         == if |s| <= from then s else if |s| <= to then s[..from] else s[..from] + s[to..]
  {
    if s != [] {
      var k := |s| - 1;
      WithoutRange(s[..k], from, to);
    }
  }

  lemma CountBelowRange(from: nat, to: nat, gap: nat)
    requires from <= to
    ensures CountBelow(Range(from, to), gap) == if gap <= from then 0 else if gap <= to then gap - from else to - from
  {
    var r := Range(from, to);
    CountBelowBound(r, gap);
    var c := CountBelow(r, gap);
    if c < |r| {
      assert !(r[c] < gap);
    }
    if c > 0 {
      assert r[c - 1] < gap;
    }
  }

  lemma PickRange<T>(s: seq<T>, from: nat, to: nat)
    requires from <= to <= |s|
    ensures Pick(s, Range(from, to)) == s[from..to]
  {
  }

  function BlockGap(from: nat, to: nat, gap: nat): nat
    requires from <= to
  {
    if gap <= from then gap else if gap <= to then from else gap - (to - from)
  }

  lemma BlockIndex(from: nat, to: nat, gap: int, length: nat)
    requires from <= to <= length
    ensures InsertionIndex(Range(from, to), gap, length) == BlockGap(from, to, Clamp(gap, 0, length))
  {
    CountBelowRange(from, to, Clamp(gap, 0, length));
  }

  /** A contiguous block is cut out as one piece. */
  lemma MoveRange<T>(s: seq<T>, from: nat, to: nat, gap: int)
    requires from <= to <= |s|
    ensures BlockGap(from, to, Clamp(gap, 0, |s|)) <= |s| - (to - from)
    ensures MoveItems(s, Range(from, to), gap)
         == Splice(s[..from] + s[to..], BlockGap(from, to, Clamp(gap, 0, |s|)), s[from..to])
  {
    WithoutBlock(s, from, to);
    PickRange(s, from, to);
    BlockIndex(from, to, gap, |s|);
    assert InsertionIndex(Range(from, to), gap, |s|) <= |s| - |Range(from, to)|;
  }

  lemma WithoutBlock<T>(s: seq<T>, from: nat, to: nat)
    requires from <= to <= |s|
    ensures Without(s, Range(from, to)) == s[..from] + s[to..]
  {
    WithoutRange(s, from, to);
  }

  /** Moving a block over its left neighbour swaps the two. */
  lemma MoveBlockBefore<T>(s: seq<T>, from: nat, to: nat)
    requires 0 < from < to <= |s|
    ensures MoveItems(s, Range(from, to), from - 1) == s[..from - 1] + s[from..to] + [s[from - 1]] + s[to..]
  {
    MoveRange(s, from, to, from - 1);
    SpliceBefore(s, from, to);
  }

  lemma SpliceBefore<T>(s: seq<T>, from: nat, to: nat)
    requires 0 < from < to <= |s|
    ensures Splice(s[..from] + s[to..], from - 1, s[from..to]) == s[..from - 1] + s[from..to] + [s[from - 1]] + s[to..]
  {
    var rest := s[..from] + s[to..];
    assert rest[..from - 1] == s[..from - 1];
    assert rest[from - 1..] == [s[from - 1]] + s[to..];
  }

  /** Moving a block over its right neighbour swaps the two. */
  lemma {:induction false} MoveBlockAfter<T>(s: seq<T>, from: nat, to: nat)
    requires from < to < |s|
    ensures MoveItems(s, Range(from, to), to + 1) == s[..from] + [s[to]] + s[from..to] + s[to + 1..]
  {
    MoveRange(s, from, to, to + 1);
    SpliceAfter(s, from, to);
  }

  lemma SpliceAfter<T>(s: seq<T>, from: nat, to: nat)
    requires from < to < |s|
    ensures Splice(s[..from] + s[to..], from + 1, s[from..to]) == s[..from] + [s[to]] + s[from..to] + s[to + 1..]
  {
    var rest := s[..from] + s[to..];
    assert rest[..from + 1] == s[..from] + [s[to]];
    assert rest[from + 1..] == s[to + 1..];
  }

  /** The actions moveBefore and moveAfter on the block `from..to - 1`. */
  function MoveBefore<T>(s: seq<T>, from: nat, to: nat): seq<T>
    requires from < to <= |s|
  {
    MoveItems(s, Range(from, to), if from == 0 then 0 else from - 1)
  }

  function MoveAfter<T>(s: seq<T>, from: nat, to: nat): seq<T>
    requires from < to <= |s|
  {
    MoveItems(s, Range(from, to), to - 1 + 2)
  }

  /** The first index of the selection after moveBefore. */
  function AfterMoveBefore(from: nat, to: nat, length: nat): int
    requires from < to <= length
  {
    var landed := RemapMovedIndices(Range(from, to), if from == 0 then 0 else from - 1, length);
    if landed != [] then landed[0] else 0
  }

  lemma NormalizedRange(from: nat, to: nat, length: nat)
    requires from < to <= length
    ensures Normalized(Range(from, to), length) == Range(from, to)
  {
    var r := Range(from, to);
    IncreasingUnique(Normalized(r, length), r);
  }

  /** moveAfter on the moved selection undoes moveBefore, unless the block already was at the start
      with something behind it. */
  lemma MoveAfterUndoesMoveBefore<T>(s: seq<T>, from: nat, to: nat)
    requires from < to <= |s|
    ensures AfterMoveBefore(from, to, |s|) == if from == 0 then 0 else from - 1
    ensures from > 0 ==> MoveAfter(MoveBefore(s, from, to), from - 1, to - 1) == s
    ensures from == 0 && to == |s| ==> MoveAfter(MoveBefore(s, 0, to), 0, to) == s
  {
    LandedRange(from, to, |s|);
    if from > 0 {
      UndoInside(s, from, to);
    } else if to == |s| {
      WholeStays(s);
    }
  }

  lemma UndoInside<T>(s: seq<T>, from: nat, to: nat)
    requires 0 < from < to <= |s|
    ensures MoveAfter(MoveBefore(s, from, to), from - 1, to - 1) == s
  {
    MoveBlockBefore(s, from, to);
    SwapBack(s, from, to, MoveItems(s, Range(from, to), from - 1));
  }

  lemma WholeStays<T>(s: seq<T>)
    requires s != []
    ensures MoveBefore(s, 0, |s|) == s && MoveAfter(s, 0, |s|) == s
  {
    MoveWhole(s, 0);
    MoveWhole(s, |s| - 1 + 2);
  }

  lemma LandedRange(from: nat, to: nat, length: nat)
    requires from < to <= length
    ensures AfterMoveBefore(from, to, length) == if from == 0 then 0 else from - 1
  {
    NormalizedRange(from, to, length);
    CountBelowRange(from, to, if from == 0 then 0 else from - 1);
  }

  lemma SwapBack<T>(s: seq<T>, from: nat, to: nat, m: seq<T>)
    requires 0 < from < to <= |s|
    requires m == s[..from - 1] + s[from..to] + [s[from - 1]] + s[to..]
    ensures |m| == |s| && MoveAfter(m, from - 1, to - 1) == s
  {
    MoveBlockAfter(m, from - 1, to - 1);
    Swapped(s, from, to, m);
  }

  lemma Swapped<T>(s: seq<T>, from: nat, to: nat, m: seq<T>)
    requires 0 < from < to <= |s|
    requires m == s[..from - 1] + s[from..to] + [s[from - 1]] + s[to..]
    ensures |m| == |s|
    ensures m[..from - 1] + [m[to - 1]] + m[from - 1..to - 1] + m[to - 1 + 1..] == s
  {
    assert m[..from - 1] == s[..from - 1] && m[from - 1..to - 1] == s[from..to];
    assert m[to - 1] == s[from - 1] && m[to..] == s[to..];
  }

  lemma MoveWhole<T>(s: seq<T>, gap: int)
    ensures MoveItems(s, Range(0, |s|), gap) == s
  {
    MoveRange(s, 0, |s|, gap);
    SpliceWhole(s);
  }

  lemma SpliceWhole<T>(s: seq<T>)
    ensures Splice(s[..0] + s[|s|..], 0, s[0..|s|]) == s
  {
  }

  /** In the excluded case, with items that can be told apart, moveBefore does nothing
      and moveAfter is not undone. */
  lemma StartBlockNotRestored<T>(s: seq<T>, to: nat)
    requires 0 < to < |s| && forall i, j :: 0 <= i < j < |s| ==> s[i] != s[j]
    ensures AfterMoveBefore(0, to, |s|) == 0
    ensures MoveAfter(MoveBefore(s, 0, to), 0, to) != s
  {
    LandedRange(0, to, |s|);
    MoveRange(s, 0, to, 0);
    SpliceFront(s, to);
    MoveBlockAfter(s, 0, to);
    FirstChanges(s, MoveAfter(s, 0, to), to);
  }

  /** For items that can be told apart: moveAfter undoes moveBefore if and only if the block did not start
      at 0, or was everything. */
  lemma {:induction false} MoveUndoneIff<T>(s: seq<T>, from: nat, to: nat) returns (first: nat, end: nat)
    requires from < to <= |s| && forall i, j :: 0 <= i < j < |s| ==> s[i] != s[j]
    ensures first == AfterMoveBefore(from, to, |s|) && end == first + (to - from) <= |s|
    ensures MoveAfter(MoveBefore(s, from, to), first, end) == s <==> from > 0 || to == |s|
  {
    first, end := if from == 0 then 0 else from - 1, if from == 0 then to else to - 1;
    MoveAfterUndoesMoveBefore(s, from, to);
    if from == 0 && to < |s| {
      StartBlockNotRestored(s, to);
    }
  }

  lemma SpliceFront<T>(s: seq<T>, to: nat)
    requires to <= |s|
    ensures Splice(s[..0] + s[to..], 0, s[0..to]) == s
  {
  }

  lemma FirstChanges<T>(s: seq<T>, m: seq<T>, to: nat)
    requires 0 < to < |s| && m == s[..0] + [s[to]] + s[0..to] + s[to + 1..] && s[0] != s[to]
    ensures m != s
  {
    assert m[0] == s[to];
  }

  // ---------------------------------------------------------------- edits that rows and columns share

  datatype AxisEdit =
    | Insert(at: int, count: nat)
    | Duplicate(selected: seq<int>)
    | Remove(selected: seq<int>)
    | Move(selected: seq<int>, gap: int)

  /** One edit of a row list, of the cells of a row, or of the alignments. */
  function EditSeq<T>(e: AxisEdit, s: seq<T>, filler: T): seq<T> {
    match e
    case Insert(at, count) => Splice(s, Clamp(at, 0, |s|), seq(count, i => filler))
    case Duplicate(selected) =>
      var indices := Normalized(selected, |s|);
      if indices == [] then s else Splice(s, indices[|indices| - 1] + 1, Pick(s, indices))
    case Remove(selected) => Without(s, Normalized(selected, |s|))
    case Move(selected, gap) => MoveItems(s, Normalized(selected, |s|), gap)
  }

  datatype Slot = Keep(index: nat) | Fresh

  function Slots(n: nat): (plan: seq<Slot>)
    ensures |plan| == n
  {
    seq(n, i requires 0 <= i => Keep(i))
  }

  /** An edit as a plan: where each resulting position comes from. */
  function Plan(e: AxisEdit, n: nat): seq<Slot> {
    EditSeq(e, Slots(n), Fresh)
  }

  function FromSlot<T>(slot: Slot, s: seq<T>, filler: T): T {
    if slot.Keep? && slot.index < |s| then s[slot.index] else filler
  }

  function Fill<T>(plan: seq<Slot>, s: seq<T>, filler: T): (r: seq<T>)
    ensures |r| == |plan|
  {
    seq(|plan|, i requires 0 <= i < |plan| => FromSlot(plan[i], s, filler))
  }

  lemma FillConcat<T>(a: seq<Slot>, b: seq<Slot>, s: seq<T>, filler: T)
    ensures Fill(a + b, s, filler) == Fill(a, s, filler) + Fill(b, s, filler)
  {
  }

  lemma {:induction false} FillWithout<T>(plan: seq<Slot>, drop: seq<nat>, s: seq<T>, filler: T)
    ensures Fill(Without(plan, drop), s, filler) == Without(Fill(plan, s, filler), drop)
  {
    if plan != [] {
      var k := |plan| - 1;
      FillWithout(plan[..k], drop, s, filler);
      assert Fill(plan, s, filler)[..k] == Fill(plan[..k], s, filler);
      FillConcat(Without(plan[..k], drop), if k in drop then [] else [plan[k]], s, filler);
    }
  }

  lemma FillPick<T>(plan: seq<Slot>, indices: seq<nat>, s: seq<T>, filler: T)
    requires Below(indices, |plan|)
    ensures Fill(Pick(plan, indices), s, filler) == Pick(Fill(plan, s, filler), indices)
  {
  }

  lemma FillSplice<T>(plan: seq<Slot>, k: nat, inserted: seq<Slot>, s: seq<T>, filler: T)
    requires k <= |plan|
    ensures Fill(Splice(plan, k, inserted), s, filler) == Splice(Fill(plan, s, filler), k, Fill(inserted, s, filler))
  {
  }

  /** Every edit acts by position only: it is its plan, filled in. */
  lemma EditIsPlan<T>(e: AxisEdit, s: seq<T>, filler: T)
    ensures EditSeq(e, s, filler) == Fill(Plan(e, |s|), s, filler)
  {
    var slots := Slots(|s|);
    assert Fill(slots, s, filler) == s;
    match e
    case Insert(at, count) =>
      var k := Clamp(at, 0, |s|);
      FillSplice(slots, k, seq(count, i => Fresh), s, filler);
      assert Fill(seq(count, i => Fresh), s, filler) == seq(count, i => filler);
    case Duplicate(selected) =>
      var indices := Normalized(selected, |s|);
      if indices != [] {
        FillPick(slots, indices, s, filler);
        FillSplice(slots, indices[|indices| - 1] + 1, Pick(slots, indices), s, filler);
      }
    case Remove(selected) =>
      FillWithout(slots, Normalized(selected, |s|), s, filler);
    case Move(selected, gap) =>
      var indices := Normalized(selected, |s|);
      FillMove(slots, indices, gap, s, filler);
  }

  lemma FillMove<T>(plan: seq<Slot>, indices: seq<nat>, gap: int, s: seq<T>, filler: T)
    requires Increasing(indices) && Below(indices, |plan|)
    ensures Fill(MoveItems(plan, indices, gap), s, filler) == MoveItems(Fill(plan, s, filler), indices, gap)
  {
    var g := Clamp(gap, 0, |plan|);
    WithoutLength(plan, indices);
    CountBelowBound(indices, g);
    CountFrom(indices, |plan|, g);
    FillWithout(plan, indices, s, filler);
    FillPick(plan, indices, s, filler);
    FillSplice(Without(plan, indices), g - CountBelow(indices, g), Pick(plan, indices), s, filler);
  }

  /** The resulting elements are old ones or filler ones. */
  lemma EditMembers<T>(e: AxisEdit, s: seq<T>, filler: T)
    ensures forall i :: 0 <= i < |EditSeq(e, s, filler)| ==> EditSeq(e, s, filler)[i] in s + [filler]
  {
    EditIsPlan(e, s, filler);
  }

  lemma EditLength<T, U>(e: AxisEdit, s: seq<T>, t: seq<U>, fs: T, ft: U)
    requires |s| == |t|
    ensures |EditSeq(e, s, fs)| == |EditSeq(e, t, ft)|
  {
    EditIsPlan(e, s, fs);
    EditIsPlan(e, t, ft);
  }
}
