/** The key generators of the query-plan seed: when their keys are distinct. */
module SeedKeys {
  datatype Pair = Pair(first: int, second: int)
  datatype Triple = Triple(low: int, high: int, kind: int)

  function PairKey(value: int, left: int, right: int): Pair
    requires left > 0 && right > 0
  {
    Pair(1 + (value - 1) % left, 1 + ((value - 1) / left + (value - 1) % left) % right)
  }

  /** item_tag_seed_keys, and with people and dates, date_person_seed_keys */
  function PairKeys(left: int, right: int, links: nat): (keys: seq<Pair>)
    requires left > 0 && right > 0
    ensures |keys| == links
  {
    seq(links, k requires 0 <= k => PairKey(k + 1, left, right))
  }

  function RelationshipKey(value: int, people: int, kinds: int): Triple
    requires people > 0 && kinds > 0
  {
    var source := 1 + (value - 1) % people;
    var offset := 1 + (value - 1) / people;
    var target := 1 + (source - 1 + offset) % people;
    Triple(if source < target then source else target, if source > target then source else target, 1 + (value - 1) % kinds)
  }

  function RelationshipKeys(people: int, kinds: int, relationships: nat): (keys: seq<Triple>)
    requires people > 0 && kinds > 0
    ensures |keys| == relationships
  {
    seq(relationships, k requires 0 <= k => RelationshipKey(k + 1, people, kinds))
  }

  predicate Distinct<T(==)>(keys: seq<T>) {
    forall i, j :: 0 <= i < j < |keys| ==> keys[i] != keys[j]
  }

  // ---------------------------------------------------------------- arithmetic

  lemma Multiply(d: int, a: int, b: int)
    requires d > 0 && a <= b
    ensures d * a <= d * b
  {
    assert d * (b - a) >= 0;
  }

  lemma Expand(d: int, a: int)
    ensures d * (a - 1) == d * a - d && d * (a - 2) == d * a - 2 * d && d * (2 * a) == 2 * (d * a)
  {
  }

  /** Quotient and remainder are determined by their equation. */
  lemma QuotientIs(v: int, d: int, q: int, r: int)
    requires d > 0 && v == d * q + r && 0 <= r < d
    ensures v / d == q && v % d == r
  {
    var e := v / d;
    assert v == d * e + v % d;
    if e > q {
      Multiply(d, q + 1, e);
    } else if e < q {
      Multiply(d, e + 1, q);
    }
  }

  lemma QuotientBelow(v: int, d: int, bound: int)
    requires d > 0 && 0 <= v < d * bound
    ensures 0 <= v / d < bound
  {
    var q := v / d;
    assert v == d * q + v % d;
    if q >= bound {
      Multiply(d, bound, q);
    } else if q < 0 {
      Multiply(d, q, -1);
    }
  }

  lemma SameRemainder(x: int, y: int, d: int)
    requires d > 0 && x % d == y % d && 0 <= x - y < d
    ensures x == y
  {
    assert x == d * (x / d) + x % d && y == d * (y / d) + y % d;
    if x / d > y / d {
      Multiply(d, y / d + 1, x / d);
    } else if x / d < y / d {
      Multiply(d, x / d + 1, y / d);
    }
  }

  lemma WrapOnce(x: int, d: int)
    requires d > 0 && 0 <= x < 2 * d
    ensures x % d == if x < d then x else x - d
  {
    if x < d {
      QuotientIs(x, d, 0, x);
    } else {
      QuotientIs(x, d, 1, x - d);
    }
  }

  // ---------------------------------------------------------------- items and tags, dates and people

  lemma PairsApart(i: nat, j: nat, left: int, right: int)
    requires left > 0 && right > 0 && i < j < left * right
    ensures PairKey(i + 1, left, right) != PairKey(j + 1, left, right)
  {
    QuotientBelow(i, left, right);
    QuotientBelow(j, left, right);
    if i % left == j % left && (i / left + i % left) % right == (j / left + j % left) % right {
      if j / left >= i / left {
        SameRemainder(j / left + j % left, i / left + i % left, right);
      } else {
        SameRemainder(i / left + i % left, j / left + j % left, right);
      }
    }
  }

  /** After one full round the first key comes again. */
  lemma PairRepeats(left: int, right: int)
    requires left > 0 && right > 0
    ensures PairKey(left * right + 1, left, right) == PairKey(1, left, right)
  {
    QuotientIs(left * right, left, right, 0);
    QuotientIs(0, left, 0, 0);
    QuotientIs(right, right, 1, 0);
    QuotientIs(0, right, 0, 0);
  }

  /** The keys of links between two kinds of things are distinct exactly when there are no more links than pairs. */
  lemma PairKeysDistinct(left: int, right: int, links: nat)
    requires left > 0 && right > 0
    ensures Distinct(PairKeys(left, right, links)) <==> links <= left * right
  {
    var keys := PairKeys(left, right, links);
    if links <= left * right {
      forall i, j | 0 <= i < j < links ensures keys[i] != keys[j] {
        PairsApart(i, j, left, right);
      }
    } else {
      PairRepeats(left, right);
      assert left * right > 0;
      assert keys[0] == keys[left * right];
    }
  }

  /** The number after `x` when `1..n` is counted round and round. */
  function NextOf(x: int, n: int): int {
    if x == n then 1 else x + 1
  }

  lemma NextRemainder(x: nat, n: int)
    requires n > 0
    ensures 1 + (x + 1) % n == NextOf(1 + x % n, n)
  {
    var q := x / n;
    assert x == n * q + x % n;
    if x % n == n - 1 {
      Expand(n, q + 1);
      QuotientIs(x + 1, n, q + 1, 0);
    } else {
      QuotientIs(x + 1, n, q, x % n + 1);
    }
  }

  lemma PairIs(v: nat, left: int, right: int, q: nat, r: nat)
    requires right > 0 && r < left && v == left * q + r
    ensures PairKey(v + 1, left, right) == Pair(1 + r, 1 + (q + r) % right)
  {
    QuotientIs(v, left, q, r);
  }

  /** The pairs come in rounds: the first round joins the things on the left, one after the other, with those on the
      right in turn, and each further round joins everything with the next thing on the right. */
  lemma PairsInRounds(left: int, right: int, links: nat, k: nat)
    requires left > 0 && right > 0 && k < links
    ensures var keys := PairKeys(left, right, links);
            && (k == 0 ==> keys[k] == Pair(1, 1))
            && (0 < k < left ==> keys[k] == Pair(keys[k - 1].first + 1, NextOf(keys[k - 1].second, right)))
            && (k >= left ==> keys[k] == Pair(keys[k - left].first, NextOf(keys[k - left].second, right)))
  {
    if k == 0 {
      PairIs(0, left, right, 0, 0);
      QuotientIs(0, right, 0, 0);
    } else if k < left {
      PairIs(k, left, right, 0, k);
      PairIs(k - 1, left, right, 0, k - 1);
      NextRemainder(k - 1, right);
    } else {
      LaterRound(k, left, right);
    }
  }

  lemma LaterRound(k: nat, left: int, right: int)
    requires 0 < left <= k && right > 0
    ensures var key := PairKey(k - left + 1, left, right); PairKey(k + 1, left, right) == Pair(key.first, NextOf(key.second, right))
  {
    var earlier := k - left;
    var q, r := earlier / left, earlier % left;
    QuotientBelow(earlier, left, k + 1);
    Expand(left, q + 1);
    PairIs(earlier, left, right, q, r);
    PairIs(k, left, right, q + 1, r);
    NextRemainder(q + r, right);
  }

  // ---------------------------------------------------------------- relationships

  /** The pairs of people never repeat, and nobody is related to themselves. */
  predicate GoodPairs(keys: seq<Triple>) {
    && (forall i :: 0 <= i < |keys| ==> keys[i].low < keys[i].high)
    && (forall i, j :: 0 <= i < j < |keys| ==> Differ(keys[i], keys[j]))
  }

  predicate Differ(a: Triple, b: Triple) {
    a.low != b.low || a.high != b.high
  }

  /** Value `v + 1` relates person `s` to the person `o` places further on. */
  predicate Relates(v: nat, people: int, s: nat, o: nat) {
    people > 0 && o > 0 && s < people && v == people * (o - 1) + s
  }

  lemma RelatesParts(v: nat, people: int, s: nat, o: nat, kinds: int)
    requires Relates(v, people, s, o) && kinds > 0
    ensures var key := RelationshipKey(v + 1, people, kinds); var t := (s + o) % people;
            key.low == 1 + (if s < t then s else t) && key.high == 1 + (if s > t then s else t)
  {
    QuotientIs(v, people, o - 1, s);
  }

  /** The relationships come in rounds: each one joins every person with the one who is some places further round the
      circle, first the next one, then the one after that; and the types are used in turn. */
  lemma RelationshipsInRounds(people: int, kinds: int, relationships: nat, k: nat, s: nat, o: nat, turns: nat, t: nat)
    requires kinds > 0 && k < relationships && Relates(k, people, s, o) && s + o == people * turns + t && t < people
    ensures var keys := RelationshipKeys(people, kinds, relationships);
            && (keys[k].low, keys[k].high) == (if s < t then (s + 1, t + 1) else (t + 1, s + 1))
            && keys[k].kind == if k == 0 then 1 else NextOf(keys[k - 1].kind, kinds)
  {
    RelatesParts(k, people, s, o, kinds);
    QuotientIs(s + o, people, turns, t);
    if k == 0 {
      QuotientIs(0, kinds, 0, 0);
    } else {
      NextRemainder(k - 1, kinds);
    }
  }

  lemma PartsOf(v: nat, people: int) returns (s: nat, o: nat)
    requires people > 0
    ensures Relates(v, people, s, o)
  {
    s, o := v % people, 1 + v / people;
  }

  /** Within half of all ordered pairs the distance is at most half way around; at half way, only from the first half. */
  lemma HalfWay(v: nat, people: int, s: nat, o: nat)
    requires Relates(v, people, s, o) && 2 * v < people * (people - 1)
    ensures 2 * o <= people && (2 * o == people ==> 2 * s < people)
  {
    Expand(people, o - 1);
    Expand(people, people);
    assert people * (2 * (o - 1)) <= 2 * v < people * (people - 1);
    if 2 * o > people {
      Multiply(people, people - 1, 2 * (o - 1));
    }
  }

  lemma PairsOfPeopleApart(i: nat, j: nat, people: int, kinds: int)
    requires people > 0 && kinds > 0 && i < j && 2 * j < people * (people - 1)
    ensures Differ(RelationshipKey(i + 1, people, kinds), RelationshipKey(j + 1, people, kinds))
  {
    var s, o := PartsOf(i, people);
    var t, d := PartsOf(j, people);
    HalfWay(i, people, s, o);
    HalfWay(j, people, t, d);
    RelatesParts(i, people, s, o, kinds);
    RelatesParts(j, people, t, d, kinds);
    WrapOnce(s + o, people);
    WrapOnce(t + d, people);
    assert s == t && o == d ==> i == j;
  }

  lemma NotSelf(i: nat, people: int, kinds: int)
    requires people > 0 && kinds > 0 && 2 * i < people * (people - 1)
    ensures var key := RelationshipKey(i + 1, people, kinds); key.low < key.high
  {
    var s, o := PartsOf(i, people);
    HalfWay(i, people, s, o);
    RelatesParts(i, people, s, o, kinds);
    WrapOnce(s + o, people);
  }

  lemma EvenRounds(p: int, h: int)
    requires p == 2 * h && h > 0
    ensures 2 * (p * (h - 1) + h) == p * (p - 1) && p * (h - 1) >= 0
  {
    Multiply(p, 0, h - 1);
    Expand(p, h - 1);
    Expand(p, p);
    Expand(p, h);
  }

  lemma OddRounds(p: int, h: int)
    requires p == 2 * h + 1 && h > 0
    ensures 2 * (p * h) == p * (p - 1) && p * h == p * (h - 1) + p && p * (h - 1) >= 0
  {
    Multiply(p, 0, h - 1);
    Expand(p, h);
  }

  lemma EvenComesAgain(p: nat, h: nat, kinds: int) returns (i: nat, j: nat)
    requires p == 2 * h && h > 0 && kinds > 0
    ensures i < j && 2 * j == p * (p - 1)
    ensures !Differ(RelationshipKey(i + 1, p, kinds), RelationshipKey(j + 1, p, kinds))
  {
    EvenRounds(p, h);
    i := p * (h - 1);
    j := i + h;
    RelatesParts(i, p, 0, h, kinds);
    RelatesParts(j, p, h, h, kinds);
    WrapOnce(h, p);
    WrapOnce(p, p);
  }

  lemma OddComesAgain(p: nat, h: nat, kinds: int) returns (i: nat, j: nat)
    requires p == 2 * h + 1 && h > 0 && kinds > 0
    ensures i < j && 2 * j == p * (p - 1)
    ensures !Differ(RelationshipKey(i + 1, p, kinds), RelationshipKey(j + 1, p, kinds))
  {
    OddRounds(p, h);
    i := p * (h - 1) + h + 1;
    j := p * h;
    RelatesParts(i, p, h + 1, h, kinds);
    RelatesParts(j, p, 0, h + 1, kinds);
    WrapOnce(p, p);
    WrapOnce(h + 1, p);
  }

  /** One key more than there are pairs: the pair of that key has come before. */
  lemma PairComesAgain(people: int, kinds: int) returns (i: nat, j: nat)
    requires people > 1 && kinds > 0
    ensures i < j && 2 * j == people * (people - 1)
    ensures !Differ(RelationshipKey(i + 1, people, kinds), RelationshipKey(j + 1, people, kinds))
  {
    if people % 2 == 0 {
      i, j := EvenComesAgain(people, people / 2, kinds);
    } else {
      i, j := OddComesAgain(people, people / 2, kinds);
    }
  }

  /** Relationship keys never repeat a pair of people and never join a person to themselves, for any number of types,
      exactly when there are no more relationships than pairs of people. */
  lemma RelationshipKeysGood(people: int, kinds: int, relationships: nat)
    requires people > 0 && kinds > 0
    ensures GoodPairs(RelationshipKeys(people, kinds, relationships)) <==> 2 * relationships <= people * (people - 1)
  {
    var keys := RelationshipKeys(people, kinds, relationships);
    if 2 * relationships <= people * (people - 1) {
      forall i | 0 <= i < relationships ensures keys[i].low < keys[i].high {
        NotSelf(i, people, kinds);
      }
      forall i, j | 0 <= i < j < relationships ensures Differ(keys[i], keys[j]) {
        PairsOfPeopleApart(i, j, people, kinds);
      }
    } else if people == 1 {
      RelatesParts(0, 1, 0, 1, kinds);
      assert keys[0].low == keys[0].high;
    } else {
      var i, j := PairComesAgain(people, kinds);
      assert !Differ(keys[i], keys[j]);
    }
  }

  /** Fewer rounds than half the people, rounded up, are few enough. */
  lemma RoundsSuffice(people: int, kinds: int, relationships: nat)
    requires people > 0 && kinds > 0 && 2 * ((relationships + people - 1) / people) < people
    ensures GoodPairs(RelationshipKeys(people, kinds, relationships))
  {
    var rounds := (relationships + people - 1) / people;
    assert relationships + people - 1 == people * rounds + (relationships + people - 1) % people;
    Multiply(people, 2 * rounds, people - 1);
    Expand(people, rounds);
    RelationshipKeysGood(people, kinds, relationships);
  }
}
