/** Strings as the editor sees them: white space, trimming, joining, backslash
    escapes, and splitting on unescaped pipes. */
module Text {
  import opened Seqs

  datatype Option<+T> = None | Some(value: T) {
    function GetOr(default: T): T {
      match this
      case None => default
      case Some(v) => v
    }
  }

  /** The white space class `\s` of ECMAScript regular expressions, which `trim` shares. */
  predicate IsSpace(c: char) {
    c == ' ' || '\t' <= c <= '\r' || c == '\U{00A0}' || c == '\U{1680}' ||
    '\U{2000}' <= c <= '\U{200A}' || c == '\U{2028}' || c == '\U{2029}' ||
    c == '\U{202F}' || c == '\U{205F}' || c == '\U{3000}' || c == '\U{FEFF}'
  }

  predicate AllSpace(s: string) {
    forall i :: 0 <= i < |s| ==> IsSpace(s[i])
  }

  /** Length of the longest white space prefix. */
  function LeadingSpace(s: string): (n: nat)
    ensures n <= |s| && forall i :: 0 <= i < n ==> IsSpace(s[i])
    ensures n < |s| ==> !IsSpace(s[n])
  {
    if s == "" || !IsSpace(s[0]) then 0
    else
      var n := 1 + LeadingSpace(s[1..]);
      assert forall i :: 0 <= i < n ==> s[i] == if i == 0 then s[0] else s[1..][i - 1];
      n
  }

  /** Length of the longest white space suffix. */
  function TrailingSpace(s: string): (n: nat)
    ensures n <= |s| && forall i :: |s| - n <= i < |s| ==> IsSpace(s[i])
    ensures n < |s| ==> !IsSpace(s[|s| - n - 1])
  {
    if s == "" || !IsSpace(s[|s| - 1]) then 0
    else
      var k := |s| - 1;
      var n := 1 + TrailingSpace(s[..k]);
      assert forall i :: |s| - n <= i < |s| ==> s[i] == if i == k then s[k] else s[..k][i];
      n
  }

  /** End of the trimmed part; all white space counts as leading. */
  function TrimEnd(s: string): (n: nat)
    ensures LeadingSpace(s) <= n <= |s|
  {
    var lead, trail := LeadingSpace(s), TrailingSpace(s);
    if |s| - trail < lead then lead else |s| - trail
  }

  function Trim(s: string): string {
    s[LeadingSpace(s)..TrimEnd(s)]
  }

  /** The two counts are the only ones with their properties. */
  lemma LeadingUnique(s: string, n: nat)
    requires n <= |s| && forall i :: 0 <= i < n ==> IsSpace(s[i])
    requires n < |s| ==> !IsSpace(s[n])
    ensures LeadingSpace(s) == n
  {
  }

  lemma TrailingUnique(s: string, n: nat)
    requires n <= |s| && forall i :: |s| - n <= i < |s| ==> IsSpace(s[i])
    requires n < |s| ==> !IsSpace(s[|s| - n - 1])
    ensures TrailingSpace(s) == n
  {
  }

  predicate Trimmed(s: string) {
    s != "" ==> !IsSpace(s[0]) && !IsSpace(s[|s| - 1])
  }

  /** White space around a core that neither starts nor ends with white space:
      all three lengths are determined. */
  lemma {:induction false} TrimUnique(before: string, core: string, after: string)
    requires AllSpace(before) && AllSpace(after) && Trimmed(core)
    ensures Trim(before + core + after) == core
    ensures core != "" ==> LeadingSpace(before + core + after) == |before|
    ensures core != "" ==> TrimEnd(before + core + after) == |before + core|
    ensures core == "" ==> LeadingSpace(before + core + after) == |before + after|
  {
    var s := before + core + after;
    if core == "" {
      forall i | 0 <= i < |s| ensures IsSpace(s[i]) {
        assert s[i] == if i < |before| then before[i] else after[i - |before|];
      }
      LeadingUnique(s, |s|);
    } else {
      assert s[|before|] == core[0];
      assert s[|before| + |core| - 1] == core[|core| - 1];
      forall i | 0 <= i < |before| ensures IsSpace(s[i]) {
        assert s[i] == before[i];
      }
      forall i | |before + core| <= i < |s| ensures IsSpace(s[i]) {
        assert s[i] == after[i - |before + core|];
      }
      LeadingUnique(s, |before|);
      TrailingUnique(s, |after|);
      assert s[|before|..|before + core|] == core;
    }
  }

  lemma AllSpaceFrom(s: string, k: nat)
    requires k <= |s| && forall i :: k <= i < |s| ==> IsSpace(s[i])
    ensures AllSpace(s[k..])
  {
  }

  /** `i` and `j` cut the white space off both ends of `s`. */
  predicate TrimsAt(s: string, i: nat, j: nat) {
    && i <= j <= |s|
    && AllSpace(s[..i]) && AllSpace(s[j..]) && Trimmed(s[i..j])
  }

  lemma TrimBounds(s: string)
    ensures TrimsAt(s, LeadingSpace(s), TrimEnd(s))
  {
    var i, j := LeadingSpace(s), TrimEnd(s);
    AllSpaceFrom(s, j);
    if i < j {
      assert s[i..j][0] == s[i] && s[i..j][|s[i..j]| - 1] == s[j - 1];
    }
  }

  /** What `trim` removes is white space, and what it leaves is trimmed. */
  lemma TrimParts(s: string)
    ensures s == s[..LeadingSpace(s)] + Trim(s) + s[TrimEnd(s)..]
    ensures AllSpace(s[..LeadingSpace(s)]) && AllSpace(s[TrimEnd(s)..]) && Trimmed(Trim(s))
  {
    TrimBounds(s);
    CutAtTwo(s, LeadingSpace(s), TrimEnd(s));
  }

  lemma TrimOfTrimmed(s: string)
    requires Trimmed(s)
    ensures Trim(s) == s
  {
    assert "" + s + "" == s;
    TrimUnique("", s, "");
  }

  lemma AllSpaceConcat(a: string, b: string)
    ensures AllSpace(a + b) <==> AllSpace(a) && AllSpace(b)
  {
    assert forall i :: 0 <= i < |a| ==> (a + b)[i] == a[i];
    assert forall i :: 0 <= i < |b| ==> (a + b)[|a| + i] == b[i];
  }

  /** White space around a string does not change what it trims to. */
  lemma TrimAbsorbsSpace(before: string, s: string, after: string)
    requires AllSpace(before) && AllSpace(after)
    ensures Trim(before + s + after) == Trim(s)
  {
    TrimParts(s);
    var b, a := s[..LeadingSpace(s)], s[TrimEnd(s)..];
    AllSpaceConcat(before, b);
    AllSpaceConcat(a, after);
    Regroup5(before, b, Trim(s), a, after);
    TrimUnique(before + b, Trim(s), a + after);
  }

  // ---------------------------------------------------------------- joining

  function Join(parts: seq<string>, sep: string): string {
    if |parts| == 0 then ""
    else if |parts| == 1 then parts[0]
    else parts[0] + sep + Join(parts[1..], sep)
  }

  lemma {:induction false} JoinAppend(a: seq<string>, b: seq<string>, sep: string)
    requires a != [] && b != []
    ensures Join(a + b, sep) == Join(a, sep) + sep + Join(b, sep)
  {
    if |a| == 1 {
      assert (a + b)[1..] == b;
    } else {
      assert (a + b)[1..] == a[1..] + b;
      JoinAppend(a[1..], b, sep);
      assert Join(a + b, sep) == a[0] + sep + (Join(a[1..], sep) + sep + Join(b, sep));
      assert Join(a + b, sep) == a[0] + sep + Join(a[1..], sep) + sep + Join(b, sep);
    }
  }

  lemma {:induction false} JoinExtendLast(parts: seq<string>, sep: string, extra: string)
    requires parts != []
    ensures Join(ExtendLast(parts, extra), sep) == Join(parts, sep) + extra
  {
    var k := |parts| - 1;
    if k == 0 {
      assert parts[..0] + [parts[0] + extra] == [parts[0] + extra];
    } else {
      JoinAppend(parts[..k], [parts[k] + extra], sep);
      JoinAppend(parts[..k], [parts[k]], sep);
      assert parts == parts[..k] + [parts[k]];
      assert Join(parts[..k], sep) + sep + (parts[k] + extra) == Join(parts[..k], sep) + sep + parts[k] + extra;
    }
  }

  /** Where part `j` starts when the parts are joined by a separator of one character. */
  function PartStart(parts: seq<string>, j: nat): nat
    requires j <= |parts|
  {
    if j == 0 then 0 else PartStart(parts, j - 1) + |parts[j - 1]| + 1
  }

  lemma {:induction false} PartGap(parts: seq<string>, j: nat, k: nat)
    requires j < k <= |parts|
    ensures PartStart(parts, j) + |parts[j]| + 1 <= PartStart(parts, k)
    decreases k
  {
    if j + 1 < k {
      PartGap(parts, j, k - 1);
    }
  }

  lemma {:induction false} PartStartPrefix(parts: seq<string>, n: nat, j: nat)
    requires j <= n <= |parts|
    ensures PartStart(parts[..n], j) == PartStart(parts, j)
    decreases j
  {
    if j > 0 {
      PartStartPrefix(parts, n, j - 1);
    }
  }

  lemma {:induction false} JoinLength(parts: seq<string>, sep: string)
    requires parts != [] && |sep| == 1
    ensures |Join(parts, sep)| + 1 == PartStart(parts, |parts|)
    decreases |parts|
  {
    var k := |parts| - 1;
    if k > 0 {
      JoinLength(parts[..k], sep);
      JoinAppend(parts[..k], [parts[k]], sep);
      SplitSnoc(parts);
      PartStartPrefix(parts, k, k);
    }
  }

  function TextBefore(parts: seq<string>, j: nat, sep: string): string
    requires j < |parts|
  {
    if j == 0 then "" else Join(parts[..j], sep) + sep
  }

  function TextAfter(parts: seq<string>, j: nat, sep: string): string
    requires j < |parts|
  {
    if j + 1 == |parts| then "" else sep + Join(parts[j + 1..], sep)
  }

  lemma JoinCut(parts: seq<string>, j: nat, sep: string)
    requires j < |parts|
    ensures Join(parts, sep) == TextBefore(parts, j, sep) + parts[j] + TextAfter(parts, j, sep)
  {
    var left, tail := parts[..j], parts[j..];
    TakeDrop(parts, j);
    JoinTail(tail, sep);
    assert tail[1..] == parts[j + 1..];
    Assoc(TextBefore(parts, j, sep), parts[j], TextAfter(parts, j, sep));
    if j > 0 {
      JoinAppend(left, tail, sep);
    }
  }

  lemma JoinTail(parts: seq<string>, sep: string)
    requires parts != []
    ensures Join(parts, sep) == parts[0] + TextAfter(parts, 0, sep)
  {
    if |parts| > 1 {
      Assoc(parts[0], sep, Join(parts[1..], sep));
    } else {
      assert parts[0] + "" == parts[0];
    }
  }

  /** Replacing one part replaces its stretch of the joined text. */
  lemma JoinAround(parts: seq<string>, j: nat, sep: string, replacement: string)
    requires j < |parts| && |sep| == 1
    ensures var before, after := TextBefore(parts, j, sep), TextAfter(parts, j, sep);
            && Join(parts, sep) == before + parts[j] + after
            && Join(parts[j := replacement], sep) == before + replacement + after
            && |before| == PartStart(parts, j)
  {
    JoinCut(parts, j, sep);
    var changed := parts[j := replacement];
    JoinCut(changed, j, sep);
    assert changed[..j] == parts[..j] && changed[j + 1..] == parts[j + 1..];
    if j > 0 {
      JoinLength(parts[..j], sep);
      PartStartPrefix(parts, j, j);
    }
  }

  // ---------------------------------------------------------------- escapes

  /** Number of consecutive backslashes at the end. */
  function TailRun(s: string): nat {
    if s == "" || s[|s| - 1] != '\\' then 0 else 1 + TailRun(s[..|s| - 1])
  }

  /** A character that follows `s` is escaped. */
  predicate OddTail(s: string) {
    TailRun(s) % 2 == 1
  }

  lemma {:induction false} TailRunSnoc(s: string, c: char)
    ensures TailRun(s + [c]) == if c == '\\' then 1 + TailRun(s) else 0
  {
    assert (s + [c])[..|s|] == s;
  }

  /** A character that is not a backslash cuts the run. */
  lemma {:induction false} TailRunCut(a: string, c: char, b: string)
    requires c != '\\'
    ensures TailRun(a + [c] + b) == TailRun(b)
  {
    if b == "" {
      assert a + [c] + b == a + [c];
    } else {
      var k := |b| - 1;
      assert (a + [c] + b)[..|a + [c] + b| - 1] == a + [c] + b[..k];
      TailRunCut(a, c, b[..k]);
    }
  }

  lemma TailRunAfterSpace(before: string, s: string)
    requires AllSpace(before)
    ensures TailRun(before + s) == TailRun(s)
  {
    if before == "" {
      assert before + s == s;
    } else {
      var k := |before| - 1;
      assert before + s == before[..k] + [before[k]] + s;
      TailRunCut(before[..k], before[k], s);
    }
  }

  lemma TailRunOfSpace(s: string, after: string)
    requires AllSpace(after) && after != ""
    ensures TailRun(s + after) == 0
  {
    var k := |after| - 1;
    assert (s + after)[|s + after| - 1] == after[k];
  }

  /** The loop of isEscaped: it walks left over backslashes and tests the parity. */
  method IsEscaped(source: string, index: nat) returns (escaped: bool)
    requires index <= |source|
    ensures escaped == OddTail(source[..index])
  {
    var backslashes := 0;
    var current := index - 1;
    while current >= 0 && source[current] == '\\'
      invariant -1 <= current < index
      invariant backslashes == index - 1 - current
      invariant TailRun(source[..index]) == backslashes + TailRun(source[..current + 1])
    {
      assert source[..current + 1][..current] == source[..current];
      backslashes := backslashes + 1;
      current := current - 1;
    }
    escaped := backslashes % 2 == 1;
  }

  /** The loop of findLastNonWhitespace. */
  method FindLastNonWhitespace(value: string) returns (index: int)
    ensures index == |value| - TrailingSpace(value) - 1
    ensures -1 <= index < |value| && (index >= 0 ==> !IsSpace(value[index]))
    ensures forall i :: index < i < |value| ==> IsSpace(value[i])
  {
    index := |value| - 1;
    while index >= 0
      invariant -1 <= index < |value|
      invariant forall i :: index < i < |value| ==> IsSpace(value[i])
    {
      if !IsSpace(value[index]) {
        break;
      }
      index := index - 1;
    }
    TrailingUnique(value, |value| - index - 1);
  }

  // ---------------------------------------------------------------- splitting at unescaped pipes

  /** The segments between unescaped pipes. */
  function Split(s: string): (parts: seq<string>)
    ensures parts != []
  {
    if s == "" then [""]
    else
      var k := |s| - 1;
      var parts := Split(s[..k]);
      if s[k] == '|' && !OddTail(s[..k]) then parts + [""] else ExtendLast(parts, [s[k]])
  }

  function ExtendLast(parts: seq<string>, extra: string): seq<string>
    requires parts != []
  {
    parts[..|parts| - 1] + [parts[|parts| - 1] + extra]
  }

  lemma ExtendLastOfConcat(a: seq<string>, b: seq<string>, extra: string)
    requires b != []
    ensures ExtendLast(a + b, extra) == a + ExtendLast(b, extra)
  {
    assert (a + b)[..|a + b| - 1] == a + b[..|b| - 1];
  }

  lemma SplitStep(s: string, c: char)
    ensures Split(s + [c]) == if c == '|' && !OddTail(s) then Split(s) + [""] else ExtendLast(Split(s), [c])
  {
    assert (s + [c])[..|s|] == s;
  }

  /** No pipe of `s` is unescaped. */
  predicate Sealed(s: string) {
    forall i :: 0 <= i < |s| && s[i] == '|' ==> OddTail(s[..i])
  }

  /** A segment that can be followed by a separating pipe. */
  predicate Closed(s: string) {
    Sealed(s) && !OddTail(s)
  }

  lemma SealedPrefix(s: string, k: nat)
    requires Sealed(s) && k <= |s|
    ensures Sealed(s[..k])
  {
    forall i | 0 <= i < k && s[..k][i] == '|' ensures OddTail(s[..k][..i]) {
      assert s[..k][..i] == s[..i];
    }
  }

  lemma SealedSnoc(s: string, c: char)
    requires Sealed(s)
    ensures Sealed(s + [c]) <==> (c == '|' ==> OddTail(s))
  {
    var t := s + [c];
    assert t[..|s|] == s && t[|s|] == c;
    if c == '|' ==> OddTail(s) {
      forall i | 0 <= i < |t| && t[i] == '|' ensures OddTail(t[..i]) {
        if i < |s| {
          assert t[..i] == s[..i];
        }
      }
    }
  }

  lemma {:induction false} SplitCut(a: string, b: string)
    requires !OddTail(a)
    ensures Split(a + "|" + b) == Split(a) + Split(b)
  {
    if b == "" {
      SplitStep(a, '|');
      assert a + "|" + b == a + ['|'];
    } else {
      var k := |b| - 1;
      var left, right := Split(a), Split(b[..k]);
      SplitCut(a, b[..k]);
      TailRunCut(a, '|', b[..k]);
      SplitStep(a + "|" + b[..k], b[k]);
      SplitStep(b[..k], b[k]);
      SplitSnoc(b);
      Assoc(a + "|", b[..k], [b[k]]);
      CutStep(left, right, b[k], b[k] == '|' && !OddTail(b[..k]));
    }
  }

  lemma CutStep(left: seq<string>, right: seq<string>, c: char, cut: bool)
    requires right != []
    ensures (if cut then left + right + [""] else ExtendLast(left + right, [c]))
         == left + if cut then right + [""] else ExtendLast(right, [c])
  {
    if cut {
      Assoc(left, right, [""]);
    } else {
      ExtendLastOfConcat(left, right, [c]);
    }
  }

  lemma {:induction false} SplitSealed(s: string)
    requires Sealed(s)
    ensures Split(s) == [s]
  {
    if s != "" {
      var k := |s| - 1;
      SealedPrefix(s, k);
      SplitSealed(s[..k]);
      assert s == s[..k] + [s[k]];
    }
  }

  predicate GoodSegments(parts: seq<string>) {
    && parts != []
    && (forall i :: 0 <= i < |parts| ==> Sealed(parts[i]))
    && (forall i :: 0 <= i < |parts| - 1 ==> !OddTail(parts[i]))
  }

  /** Joining well-formed segments and splitting again gives the same segments. */
  lemma {:induction false} SplitOfJoin(parts: seq<string>)
    requires GoodSegments(parts)
    ensures Split(Join(parts, "|")) == parts
  {
    if |parts| == 1 {
      SplitSealed(parts[0]);
    } else {
      SplitSealed(parts[0]);
      SplitCut(parts[0], Join(parts[1..], "|"));
      SplitOfJoin(parts[1..]);
      assert [parts[0]] + parts[1..] == parts;
    }
  }

  /** Splitting loses nothing and yields well-formed segments; the last one carries the
      escape state of the whole string. */
  lemma {:induction false} SplitParts(s: string)
    ensures Join(Split(s), "|") == s
    ensures GoodSegments(Split(s))
    ensures TailRun(Split(s)[|Split(s)| - 1]) == TailRun(s)
  {
    var r := Split(s);
    if s != "" {
      var k := |s| - 1;
      var parts := Split(s[..k]);
      SplitParts(s[..k]);
      assert s == s[..k] + [s[k]];
      var m := |parts| - 1;
      if s[k] == '|' && !OddTail(s[..k]) {
        JoinAppend(parts, [""], "|");
        assert Join([""], "|") == "";
        assert Join(r, "|") == s[..k] + "|" + "";
      } else {
        JoinExtendLast(parts, "|", [s[k]]);
        SealedSnoc(parts[m], s[k]);
        TailRunSnoc(parts[m], s[k]);
        TailRunSnoc(s[..k], s[k]);
      }
    }
  }

  /** The loop of splitUnescaped. */
  method SplitUnescaped(source: string) returns (parts: seq<string>)
    ensures parts == Split(source)
    ensures GoodSegments(parts) && Join(parts, "|") == source
  {
    parts := [];
    var start := 0;
    var index := 0;
    while index < |source|
      invariant 0 <= start <= index <= |source|
      invariant parts + [source[start..index]] == Split(source[..index])
    {
      assert source[..index + 1][..index] == source[..index];
      var current := Split(source[..index]);
      assert current[..|current| - 1] == parts;
      var escaped := IsEscaped(source, index);
      if source[index] == '|' && !escaped {
        parts := parts + [source[start..index]];
        start := index + 1;
        assert source[start..index + 1] == "";
      } else {
        assert source[start..index + 1] == source[start..index] + [source[index]];
      }
      index := index + 1;
    }
    assert source[..index] == source;
    parts := parts + [source[start..]];
    assert source[start..index] == source[start..];
    SplitParts(source);
  }
}
