/** Sorting the body: for any consistent collation the result is in order, empty keys last in both
    directions, and rows that compare equal keep their order. */
module TableSorting {
  import opened Sequences
  import opened Text
  import opened MarkdownTable
  import opened TableEdits

  /** A collation is a total preorder given by signs. */
  ghost predicate Consistent(c: Collator) {
    && (forall a, b :: (c(a, b) < 0 <==> c(b, a) > 0) && (c(a, b) == 0 <==> c(b, a) == 0))
    && (forall a, b, d {:trigger c(a, b), c(b, d)} :: c(a, b) <= 0 && c(b, d) <= 0 ==> c(a, d) <= 0)
  }

  /** Any two different rows are ordered, one way only. */
  lemma SortsOneWay(keys: seq<string>, direction: Direction, c: Collator, i: nat, j: nat)
    requires Consistent(c) && i < |keys| && j < |keys| && i != j
    ensures SortsBefore(keys, direction, c, i, j) <==> !SortsBefore(keys, direction, c, j, i)
  {
  }

  lemma SortsTransitive(keys: seq<string>, direction: Direction, c: Collator, i: nat, j: nat, k: nat)
    requires Consistent(c) && i < |keys| && j < |keys| && k < |keys|
    requires SortsBefore(keys, direction, c, i, j) && SortsBefore(keys, direction, c, j, k)
    ensures SortsBefore(keys, direction, c, i, k)
  {
    var x, y, z := keys[i], keys[j], keys[k];
    if x != "" && y != "" && z != "" {
      var xy, yz, xz := c(x, y), c(y, z), c(x, z);
      var yx, zy, zx := c(y, x), c(z, y), c(z, x);
    }
  }

  ghost predicate InOrder(keys: seq<string>, direction: Direction, c: Collator, order: seq<nat>)
    requires Below(order, |keys|)
  {
    forall p, q {:trigger SortsBefore(keys, direction, c, order[p], order[q])} ::
      0 <= p < q < |order| ==> SortsBefore(keys, direction, c, order[p], order[q])
  }

  ghost predicate BeforeEach(keys: seq<string>, direction: Direction, c: Collator, i: nat, order: seq<nat>)
    requires i < |keys| && Below(order, |keys|)
  {
    forall q {:trigger SortsBefore(keys, direction, c, i, order[q])} ::
      0 <= q < |order| ==> SortsBefore(keys, direction, c, i, order[q])
  }

  lemma PrependInOrder(keys: seq<string>, direction: Direction, c: Collator, first: nat, rest: seq<nat>)
    requires first < |keys| && Below(rest, |keys|) && InOrder(keys, direction, c, rest)
    requires BeforeEach(keys, direction, c, first, rest)
    ensures Below([first] + rest, |keys|) && InOrder(keys, direction, c, [first] + rest)
  {
    var r := [first] + rest;
    forall p, q | 0 <= p < q < |r| ensures SortsBefore(keys, direction, c, r[p], r[q]) {
      if p > 0 {
        assert SortsBefore(keys, direction, c, rest[p - 1], rest[q - 1]);
      } else {
        assert SortsBefore(keys, direction, c, first, rest[q - 1]);
      }
    }
  }

  lemma TailInOrder(keys: seq<string>, direction: Direction, c: Collator, order: seq<nat>)
    requires Below(order, |keys|) && order != [] && InOrder(keys, direction, c, order)
    ensures Below(order[1..], |keys|) && InOrder(keys, direction, c, order[1..])
  {
    var rest := order[1..];
    forall p, q | 0 <= p < q < |rest| ensures SortsBefore(keys, direction, c, rest[p], rest[q]) {
      assert SortsBefore(keys, direction, c, order[p + 1], order[q + 1]);
    }
  }

  /** What sorts before the first sorts before all. */
  lemma BeforeAll(keys: seq<string>, direction: Direction, c: Collator, order: seq<nat>, i: nat)
    requires Consistent(c) && i < |keys| && Below(order, |keys|) && order != []
    requires InOrder(keys, direction, c, order) && SortsBefore(keys, direction, c, i, order[0])
    ensures BeforeEach(keys, direction, c, i, order)
  {
    forall q | 0 <= q < |order| ensures SortsBefore(keys, direction, c, i, order[q]) {
      if q > 0 {
        assert SortsBefore(keys, direction, c, order[0], order[q]);
        SortsTransitive(keys, direction, c, i, order[0], order[q]);
      }
    }
  }

  lemma InsertedAfter(keys: seq<string>, direction: Direction, c: Collator, order: seq<nat>, i: nat)
    requires Consistent(c) && i < |keys| && Below(order, |keys|) && order != [] && i !in order
    requires InOrder(keys, direction, c, order) && !SortsBefore(keys, direction, c, i, order[0])
    ensures BeforeEach(keys, direction, c, order[0], InsertSorted(keys, direction, c, order[1..], i))
  {
    var rest := InsertSorted(keys, direction, c, order[1..], i);
    SortsOneWay(keys, direction, c, order[0], i);
    forall q | 0 <= q < |rest| ensures SortsBefore(keys, direction, c, order[0], rest[q]) {
      assert rest[q] in multiset(rest);
      if rest[q] != i {
        assert rest[q] in order[1..];
        var k :| 1 <= k < |order| && order[k] == rest[q];
        assert SortsBefore(keys, direction, c, order[0], order[k]);
      }
    }
  }

  lemma {:induction false} InsertKeepsOrder(keys: seq<string>, direction: Direction, c: Collator, order: seq<nat>, i: nat)
    requires Consistent(c) && i < |keys| && Below(order, |keys|) && i !in order
    requires InOrder(keys, direction, c, order)
    ensures InOrder(keys, direction, c, InsertSorted(keys, direction, c, order, i))
  {
    if order != [] {
      if SortsBefore(keys, direction, c, i, order[0]) {
        BeforeAll(keys, direction, c, order, i);
        PrependInOrder(keys, direction, c, i, order);
      } else {
        TailInOrder(keys, direction, c, order);
        assert forall x :: x in order[1..] ==> x in order;
        InsertKeepsOrder(keys, direction, c, order[1..], i);
        InsertedAfter(keys, direction, c, order, i);
        PrependInOrder(keys, direction, c, order[0], InsertSorted(keys, direction, c, order[1..], i));
      }
    }
  }

  /** The sorted order lists every row once, and every earlier row sorts before every later one. */
  lemma {:induction false} SortedInOrder(keys: seq<string>, direction: Direction, c: Collator, count: nat)
    requires Consistent(c) && count <= |keys|
    ensures InOrder(keys, direction, c, SortedOrder(keys, direction, c, count))
  {
    if count > 0 {
      var before := SortedOrder(keys, direction, c, count - 1);
      SortedInOrder(keys, direction, c, count - 1);
      assert count - 1 !in before by {
        assert count - 1 !in Range(0, count - 1);
        assert count - 1 !in multiset(before);
      }
      InsertKeepsOrder(keys, direction, c, before, count - 1);
    }
  }

  /** The trimmed text of the row in the column; rows without that column have none. */
  function KeyOf(row: Row, column: int): string {
    if column < 0 then "" else Trim(CellText(row, column))
  }

  lemma {:induction false} KeysAre(rows: seq<Row>, column: int, i: nat)
    requires i < |rows|
    ensures SortKeys(rows, column)[i] == KeyOf(rows[i], column)
  {
    assert Trim("") == "";
  }

  /** A row that stands before another one: rows without key come last in either direction, the others stand in the
      asked direction, and rows that compare equal keep their old order. */
  predicate StandsBefore(row: Row, other: Row, i: nat, j: nat, column: int, direction: Direction, c: Collator) {
    var key, next := KeyOf(row, column), KeyOf(other, column);
    && (key == "" ==> next == "" && i < j)
    && (next != "" ==>
          if c(key, next) == 0 then i < j
          else if direction == Ascending then c(key, next) < 0 else c(key, next) > 0)
  }

  lemma {:induction false} OrderedKeys(rows: seq<Row>, column: int, direction: Direction, c: Collator, i: nat, j: nat)
    requires i < |rows| && j < |rows| && SortsBefore(SortKeys(rows, column), direction, c, i, j)
    ensures StandsBefore(rows[i], rows[j], i, j, column, direction, c)
  {
    KeysAre(rows, column, i);
    KeysAre(rows, column, j);
  }

  /** What sorting does to the body: its rows, each once, any two of them in the asked order; nothing else changes. */
  lemma {:induction false} SortBodySpec(t: Table, column: int, direction: Direction, c: Collator) returns (order: seq<nat>)
    requires Consistent(c)
    ensures |order| == |t.body| && Below(order, |t.body|) && multiset(order) == multiset(Range(0, |t.body|))
    ensures var u := SortBody(t, column, direction, c);
            && u == t.(body := u.body) && |u.body| == |t.body|
            && (forall p :: 0 <= p < |order| ==> u.body[p] == t.body[order[p]])
            && (forall p, q :: 0 <= p < q < |order| ==>
                  StandsBefore(u.body[p], u.body[q], order[p], order[q], column, direction, c))
  {
    var keys := SortKeys(t.body, column);
    var u := SortBody(t, column, direction, c);
    order := SortedOrder(keys, direction, c, |t.body|);
    SortedInOrder(keys, direction, c, |t.body|);
    forall p, q | 0 <= p < q < |order| ensures StandsBefore(u.body[p], u.body[q], order[p], order[q], column, direction, c) {
      assert SortsBefore(keys, direction, c, order[p], order[q]);
      OrderedKeys(t.body, column, direction, c, order[p], order[q]);
    }
  }
}
