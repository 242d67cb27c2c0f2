/** The part of a table line that belongs to an enclosing block quote or list item. */
module Containers {
  import opened Seqs
  import opened Text

  datatype Prefixed = Prefixed(prefix: string, content: string)

  predicate IsBlank(c: char) {
    c == ' ' || c == '\t'
  }

  predicate IsDigit(c: char) {
    '0' <= c <= '9'
  }

  /** A character that the dot of a regular expression refuses. */
  predicate IsTerminator(c: char) {
    c == '\n' || c == '\r' || c == '\U{2028}' || c == '\U{2029}'
  }

  predicate OneLineFrom(s: string, k: nat) {
    forall i :: k <= i < |s| ==> !IsTerminator(s[i])
  }

  predicate OneLine(s: string) {
    OneLineFrom(s, 0)
  }

  function SkipBlanks(s: string, i: nat): (j: nat)
    requires i <= |s|
    ensures i <= j <= |s| && (forall k :: i <= k < j ==> IsBlank(s[k]))
    ensures j < |s| ==> !IsBlank(s[j])
    decreases |s| - i
  {
    if i < |s| && IsBlank(s[i]) then SkipBlanks(s, i + 1) else i
  }

  function SkipDigits(s: string, i: nat): (j: nat)
    requires i <= |s|
    ensures i <= j <= |s| && (forall k :: i <= k < j ==> IsDigit(s[k]))
    ensures j < |s| ==> !IsDigit(s[j])
    decreases |s| - i
  {
    if i < |s| && IsDigit(s[i]) then SkipDigits(s, i + 1) else i
  }

  /** End of a bullet `-`, `+`, `*` or an ordered number `\d+[.)]` starting at `i`. */
  function BulletEnd(s: string, i: nat): (e: Option<nat>)
    requires i <= |s|
    ensures e.Some? ==> i < e.value <= |s|
  {
    if i < |s| && s[i] in "-+*" then Some(i + 1)
    else
      var j := SkipDigits(s, i);
      if i < j < |s| && (s[j] == '.' || s[j] == ')') then Some(j + 1) else None
  }

  /** A bullet and the blanks that must follow it. */
  function MarkerEnd(s: string, i: nat): (e: Option<nat>)
    requires i <= |s|
    ensures e.Some? ==> i < e.value <= |s|
  {
    var b := BulletEnd(s, i);
    if b.Some? && SkipBlanks(s, b.value) > b.value then Some(SkipBlanks(s, b.value)) else None
  }

  /** End of the block quote markers from `i`: at most three blanks, `>`, then any blanks, repeatedly. */
  function QuoteEnd(s: string, i: nat): (e: nat)
    requires i <= |s|
    ensures i <= e <= |s|
    decreases |s| - i
  {
    var j := SkipBlanks(s, i);
    if j - i <= 3 && j < |s| && s[j] == '>' then QuoteEnd(s, SkipBlanks(s, j + 1)) else i
  }

  /** The block container pattern: quote markers and possibly one list marker. */
  function BlockEnd(line: string): (e: Option<nat>)
    ensures e.Some? ==> 0 < e.value <= |line|
  {
    var q := QuoteEnd(line, 0);
    if q == 0 then None
    else
      var m := MarkerEnd(line, q);
      var e := if m.Some? then m.value else q;
      if OneLineFrom(line, e) then Some(e) else None
  }

  /** The list container pattern: blanks and one list marker. */
  function ListEnd(line: string): (e: Option<nat>)
    ensures e.Some? ==> 0 < e.value <= |line|
  {
    var m := MarkerEnd(line, SkipBlanks(line, 0));
    if m.Some? && OneLineFrom(line, m.value) then m else None
  }

  function ContainerEnd(line: string): (e: nat)
    ensures e <= |line|
  {
    var block := BlockEnd(line);
    if block.Some? then block.value
    else
      var list := ListEnd(line);
      if list.Some? && (exists i :: list.value <= i < |line| && line[i] == '|') then list.value else 0
  }

  function SplitPrefix(line: string): (r: Prefixed)
    ensures r.prefix + r.content == line
  {
    var first := LeadingSpace(line);
    var k := if first < |line| && line[first] == '|' then first else ContainerEnd(line);
    TakeDrop(line, k);
    Prefixed(line[..k], line[k..])
  }

  // ---------------------------------------------------------------- stability of prefixes

  lemma SkipBlanksIs(s: string, i: nat, j: nat)
    requires i <= j <= |s| && (forall k :: i <= k < j ==> IsBlank(s[k]))
    requires j < |s| ==> !IsBlank(s[j])
    ensures SkipBlanks(s, i) == j
  {
  }

  lemma SkipDigitsIs(s: string, i: nat, j: nat)
    requires i <= j <= |s| && (forall k :: i <= k < j ==> IsDigit(s[k]))
    requires j < |s| ==> !IsDigit(s[j])
    ensures SkipDigits(s, i) == j
  {
  }

  /** `t` continues the first `k` characters of `s` with a pipe. */
  predicate CutByPipe(s: string, k: nat, t: string) {
    k <= |s| && k < |t| && t[k] == '|' && forall i :: 0 <= i < k ==> t[i] == s[i]
  }

  lemma SkipBlanksCut(s: string, k: nat, t: string, i: nat)
    requires CutByPipe(s, k, t) && i <= |s| && SkipBlanks(s, i) <= k
    ensures SkipBlanks(t, i) == SkipBlanks(s, i)
  {
    SkipBlanksIs(t, i, SkipBlanks(s, i));
  }

  lemma MarkerEndCut(s: string, k: nat, t: string, i: nat)
    requires CutByPipe(s, k, t) && i <= |s| && MarkerEnd(s, i) == Some(k)
    ensures MarkerEnd(t, i) == Some(k)
  {
    var b := BulletEnd(s, i).value;
    if s[i] !in "-+*" {
      SkipDigitsIs(t, i, SkipDigits(s, i));
    }
    assert BulletEnd(t, i) == Some(b);
    SkipBlanksCut(s, k, t, b);
  }

  lemma QuoteStep(s: string, i: nat, j: nat, n: nat)
    requires i <= j < n <= |s| && j - i <= 3 && s[j] == '>'
    requires SkipBlanks(s, i) == j && SkipBlanks(s, j + 1) == n
    ensures QuoteEnd(s, i) == QuoteEnd(s, n)
  {
  }

  lemma {:induction false} QuoteEndCut(s: string, k: nat, t: string, i: nat)
    requires CutByPipe(s, k, t) && i <= |s| && QuoteEnd(s, i) <= k
    requires QuoteEnd(s, i) < k ==> !IsBlank(s[QuoteEnd(s, i)])
    ensures QuoteEnd(t, i) == QuoteEnd(s, i)
    decreases |s| - i
  {
    var j := SkipBlanks(s, i);
    if j - i <= 3 && j < |s| && s[j] == '>' {
      var n := SkipBlanks(s, j + 1);
      QuoteStep(s, i, j, n);
      SkipBlanksCut(s, k, t, i);
      SkipBlanksCut(s, k, t, j + 1);
      QuoteStep(t, i, j, n);
      QuoteEndCut(s, k, t, n);
    } else {
      SkipBlanksIs(t, i, i);
    }
  }

  lemma BulletIsNotBlank(s: string, i: nat)
    requires i <= |s| && BulletEnd(s, i).Some?
    ensures i < |s| && !IsBlank(s[i]) && s[i] != '>' && !IsSpace(s[i]) && s[i] != '|'
  {
  }

  /** Cutting a line right after its container prefix and continuing with a pipe keeps the prefix. */
  lemma QuotedEndCut(s: string, t: string)
    requires var e := ContainerEnd(s); e > 0 && CutByPipe(s, e, t) && OneLineFrom(t, e) && BlockEnd(s).Some?
    ensures ContainerEnd(t) == ContainerEnd(s)
  {
    var e := ContainerEnd(s);
    var q := QuoteEnd(s, 0);
    QuoteEndCut(s, e, t, 0);
    if MarkerEnd(s, q).Some? {
      BulletIsNotBlank(s, q);
      MarkerEndCut(s, e, t, q);
    } else {
      assert t[q] == '|';
      assert MarkerEnd(t, q) == None;
    }
  }

  lemma ContainerEndCut(s: string, t: string)
    requires var e := ContainerEnd(s); e > 0 && CutByPipe(s, e, t) && OneLineFrom(t, e)
    ensures ContainerEnd(t) == ContainerEnd(s)
  {
    var e := ContainerEnd(s);
    if BlockEnd(s).Some? {
      QuotedEndCut(s, t);
    } else {
      var i := SkipBlanks(s, 0);
      BulletIsNotBlank(s, i);
      SkipBlanksIs(t, 0, i);
      MarkerEndCut(s, e, t, i);
      assert QuoteEnd(t, 0) == 0;
      assert t[e] == '|';
    }
  }

  // Scans that start before a pipe never pass it.

  predicate SameUpToPipe(s: string, t: string, k: nat) {
    k < |s| && k < |t| && s[k] == '|' && t[k] == '|' && forall i :: 0 <= i < k ==> s[i] == t[i]
  }

  lemma SkipsSame(s: string, t: string, k: nat, i: nat)
    requires SameUpToPipe(s, t, k) && i <= k
    ensures SkipBlanks(s, i) == SkipBlanks(t, i) <= k
    ensures SkipDigits(s, i) == SkipDigits(t, i) <= k
  {
    SkipBlanksIs(t, i, SkipBlanks(s, i));
    SkipDigitsIs(t, i, SkipDigits(s, i));
  }

  lemma MarkersSame(s: string, t: string, k: nat, i: nat)
    requires SameUpToPipe(s, t, k) && i <= k
    ensures MarkerEnd(s, i) == MarkerEnd(t, i)
    ensures MarkerEnd(s, i).Some? ==> MarkerEnd(s, i).value <= k
  {
    SkipsSame(s, t, k, i);
    assert BulletEnd(s, i) == BulletEnd(t, i);
    if BulletEnd(s, i).Some? {
      SkipsSame(s, t, k, BulletEnd(s, i).value);
    }
  }

  lemma {:induction false} QuotesSame(s: string, t: string, k: nat, i: nat)
    requires SameUpToPipe(s, t, k) && i <= k
    ensures QuoteEnd(s, i) == QuoteEnd(t, i) <= k
    decreases |s| - i
  {
    SkipsSame(s, t, k, i);
    var j := SkipBlanks(s, i);
    if j - i <= 3 && s[j] == '>' {
      SkipsSame(s, t, k, j + 1);
      QuotesSame(s, t, k, SkipBlanks(s, j + 1));
    }
  }

  /** What stands after the first pipe does not change the container prefix,
      as long as it is one line. */
  lemma ContainerEndSame(s: string, t: string, k: nat)
    requires SameUpToPipe(s, t, k) && OneLineFrom(s, k) && OneLineFrom(t, k)
    ensures ContainerEnd(s) == ContainerEnd(t) <= k
  {
    BlockEndSame(s, t, k);
    SkipsSame(s, t, k, 0);
    var i := SkipBlanks(s, 0);
    MarkersSame(s, t, k, i);
    if MarkerEnd(s, i).Some? {
      OneLineFromSame(s, t, k, MarkerEnd(s, i).value);
    }
  }

  lemma BlockEndSame(s: string, t: string, k: nat)
    requires SameUpToPipe(s, t, k) && OneLineFrom(s, k) && OneLineFrom(t, k)
    ensures BlockEnd(s) == BlockEnd(t)
    ensures BlockEnd(s).Some? ==> BlockEnd(s).value <= k
  {
    QuotesSame(s, t, k, 0);
    var q := QuoteEnd(s, 0);
    MarkersSame(s, t, k, q);
    OneLineFromSame(s, t, k, if MarkerEnd(s, q).Some? then MarkerEnd(s, q).value else q);
  }

  lemma OneLineFromSame(s: string, t: string, k: nat, e: nat)
    requires SameUpToPipe(s, t, k) && OneLineFrom(s, k) && OneLineFrom(t, k) && e <= k
    ensures OneLineFrom(s, e) <==> OneLineFrom(t, e)
  {
    assert forall i :: e <= i < k ==> s[i] == t[i];
  }

  /** A prefix, without a pipe, that a line `prefix | ...` is read back with: it is a container
      prefix followed by white space. */
  predicate StablePrefix(p: string) {
    '|' !in p && (AllSpace(p) || AllSpace(p[ContainerPart(p)..]))
  }

  function ContainerPart(p: string): (e: nat)
    ensures e <= |p|
  {
    var e := ContainerEnd(p + "|");
    if e <= |p| then e else 0
  }

  /** What is read of a line made of a stable prefix, a pipe and a rest. */
  lemma StablePrefixRead(p: string, rest: string)
    requires PrefixFits(p, rest)
    ensures ReadAs(p, rest, SplitPrefix(p + "|" + rest))
  {
    if AllSpace(p) {
      SpacePrefixRead(p, rest);
    } else {
      ContainerPrefixRead(p, rest);
    }
  }

  predicate ReadAs(p: string, rest: string, r: Prefixed) {
    exists e :: 0 <= e <= |p| && AllSpace(p[e..]) && r == Prefixed(p[..e], p[e..] + ("|" + rest))
  }

  lemma SpacePrefixRead(p: string, rest: string)
    requires AllSpace(p)
    ensures ReadAs(p, rest, SplitPrefix(p + "|" + rest))
  {
    var line := p + "|" + rest;
    assert line == p + ("|" + rest);
    assert forall i :: 0 <= i < |p| ==> line[i] == p[i];
    LeadingUnique(line, |p|);
    CutPrefix(p, "|" + rest, |p|);
    assert AllSpace(p[|p|..]);
  }

  lemma ContainerPrefixRead(p: string, rest: string)
    requires StablePrefix(p) && !AllSpace(p) && OneLine(rest)
    ensures ReadAs(p, rest, SplitPrefix(p + "|" + rest))
  {
    var line := p + "|" + rest;
    assert line == p + ("|" + rest);
    var e := ContainerPart(p);
    assert AllSpace(p[e..]);
    LeadingBeforePipe(line, p);
    StableContainerEnd(p, rest);
    CutPrefix(p, "|" + rest, e);
    assert SplitPrefix(line) == Prefixed(p[..e], p[e..] + ("|" + rest));
  }

  lemma StableContainerEnd(p: string, rest: string)
    requires StablePrefix(p) && !AllSpace(p) && OneLine(rest)
    ensures ContainerEnd(p + "|" + rest) == ContainerPart(p)
  {
    var line := p + "|" + rest;
    var short := p + "|";
    forall i | |p| <= i < |line| ensures !IsTerminator(line[i]) {
      if i > |p| {
        assert line[i] == rest[i - |p| - 1];
      }
    }
    ContainerEndSame(line, short, |p|);
  }

  lemma CutPrefix(p: string, rest: string, e: nat)
    requires e <= |p|
    ensures (p + rest)[..e] == p[..e] && (p + rest)[e..] == p[e..] + rest
  {
  }

  /** A line that starts with something else than white space before its first pipe. */
  lemma LeadingBeforePipe(line: string, p: string)
    requires p <= line && '|' !in p && !AllSpace(p)
    ensures LeadingSpace(line) < |p| && line[LeadingSpace(line)] != '|'
  {
    assert forall i :: 0 <= i < |p| ==> p[i] == line[i];
  }

  lemma PrefixHasNoPipe(line: string)
    ensures '|' !in SplitPrefix(line).prefix
  {
    ContainerHasNoPipe(line);
    assert !IsSpace('|');
  }

  lemma MarkerHasNoPipe(s: string, i: nat)
    requires i <= |s| && MarkerEnd(s, i).Some?
    ensures forall k :: i <= k < MarkerEnd(s, i).value ==> s[k] != '|'
  {
  }

  lemma {:induction false} QuoteHasNoPipe(s: string, i: nat)
    requires i <= |s|
    ensures forall k :: i <= k < QuoteEnd(s, i) ==> s[k] != '|'
    decreases |s| - i
  {
    var j := SkipBlanks(s, i);
    if j - i <= 3 && j < |s| && s[j] == '>' {
      QuoteHasNoPipe(s, SkipBlanks(s, j + 1));
    }
  }

  lemma ContainerHasNoPipe(line: string)
    ensures forall k :: 0 <= k < ContainerEnd(line) ==> line[k] != '|'
  {
    QuoteHasNoPipe(line, 0);
    var q := QuoteEnd(line, 0);
    if MarkerEnd(line, q).Some? {
      MarkerHasNoPipe(line, q);
    }
    var i := SkipBlanks(line, 0);
    if MarkerEnd(line, i).Some? {
      MarkerHasNoPipe(line, i);
    }
  }

  lemma ContainerRestOneLine(line: string)
    requires ContainerEnd(line) > 0
    ensures OneLineFrom(line, ContainerEnd(line))
  {
  }

  /** A prefix that can be printed before a pipe and `rest`. */
  predicate PrefixFits(p: string, rest: string) {
    StablePrefix(p) && (AllSpace(p) || OneLine(rest))
  }

  /** What reading any line guarantees of its two parts: the prefix is stable, also together with
      the white space that stands before a leading pipe. */
  predicate SplitFits(split: Prefixed) {
    var k := LeadingSpace(split.content);
    && PrefixFits(split.prefix, split.content)
    && (k < |split.content| && split.content[k] == '|' ==>
          PrefixFits(split.prefix + split.content[..k], split.content[k + 1..]))
  }

  lemma SplitPrefixFits(line: string)
    ensures SplitFits(SplitPrefix(line))
  {
    var split := SplitPrefix(line);
    var k := LeadingSpace(split.content);
    PrefixStable(line);
    if k < |split.content| && split.content[k] == '|' {
      PrefixBeforePipeStable(line, split, k);
    }
  }

  /** The prefix of any line is stable. */
  lemma PrefixStable(line: string)
    ensures PrefixFits(SplitPrefix(line).prefix, SplitPrefix(line).content)
  {
    PrefixHasNoPipe(line);
    var p := SplitPrefix(line).prefix;
    if !AllSpace(p) {
      var e := ContainerEnd(line);
      assert p == line[..e];
      ContainerRestOneLine(line);
      ContainerEndCut(line, p + "|");
      assert p[ContainerPart(p)..] == "";
    }
  }

  /** So is the prefix together with white space that stands before a pipe. */
  lemma PrefixBeforePipeStable(line: string, split: Prefixed, k: nat)
    requires split == SplitPrefix(line) && k == LeadingSpace(split.content) < |split.content|
    requires split.content[k] == '|'
    ensures PrefixFits(split.prefix + split.content[..k], split.content[k + 1..])
  {
    PrefixHasNoPipe(line);
    var p, w, rest := split.prefix, split.content[..k], split.content[k + 1..];
    assert !IsSpace('|');
    AllSpaceConcat(p, w);
    if !AllSpace(p + w) {
      CutAtPipe(split.content, k);
      Assoc(p, w, "|" + rest);
      assert line == (p + w) + ("|" + rest);
      LeadingBeforePipe(line, p + w);
      assert |p| == ContainerEnd(line) > 0;
      ContainerRestOneLine(line);
      ContainerWithSpace(line, p, w, rest);
    }
  }

  lemma CutAtPipe(s: string, k: nat)
    requires k < |s| && s[k] == '|'
    ensures s == s[..k] + ("|" + s[k + 1..])
  {
  }

  lemma ContainerWithSpace(line: string, p: string, w: string, rest: string)
    requires line == (p + w) + ("|" + rest) && '|' !in p + w && AllSpace(w)
    requires ContainerEnd(line) == |p| && OneLineFrom(line, |p|)
    ensures PrefixFits(p + w, rest)
  {
    assert forall i :: 0 <= i < |rest| ==> rest[i] == line[|p + w| + 1 + i];
    ContainerEndSame(line, (p + w) + "|", |p + w|);
    CutConcat(p, w);
    assert (p + w)[ContainerPart(p + w)..] == w;
  }
}
