/** Which beginnings of a line are block quote and list prefixes. */
module ContainerRules {
  import opened Seqs
  import opened Text
  import opened Containers

  predicate AllBlank(s: string) {
    forall i :: 0 <= i < |s| ==> IsBlank(s[i])
  }

  predicate AllDigits(s: string) {
    forall i :: 0 <= i < |s| ==> IsDigit(s[i])
  }

  /** `-`, `+`, `*`, or a number with a dot or a parenthesis. */
  predicate IsBullet(b: string) {
    || b == "-" || b == "+" || b == "*"
    || (|b| >= 2 && AllDigits(b[..|b| - 1]) && (b[|b| - 1] == '.' || b[|b| - 1] == ')'))
  }

  predicate StartsSolid(s: string) {
    s != "" ==> !IsBlank(s[0])
  }

  /** `part` stands in `s` from `i` on. */
  predicate PartAt(s: string, i: nat, part: string) {
    i + |part| <= |s| && s[i..i + |part|] == part
  }

  lemma PartChars(s: string, i: nat, part: string)
    requires PartAt(s, i, part)
    ensures forall k :: 0 <= k < |part| ==> s[i + k] == part[k]
  {
    forall k | 0 <= k < |part| ensures s[i + k] == part[k] {
      assert s[i..i + |part|][k] == s[i + k];
    }
  }

  lemma BlanksSkipped(s: string, i: nat, blanks: string)
    requires PartAt(s, i, blanks) && AllBlank(blanks) && (i + |blanks| < |s| ==> !IsBlank(s[i + |blanks|]))
    ensures SkipBlanks(s, i) == i + |blanks|
  {
    PartChars(s, i, blanks);
    assert forall k :: i <= k < i + |blanks| ==> s[k] == blanks[k - i];
    SkipBlanksIs(s, i, i + |blanks|);
  }

  lemma BulletFound(s: string, i: nat, bullet: string)
    requires IsBullet(bullet) && PartAt(s, i, bullet)
    ensures BulletEnd(s, i) == Some(i + |bullet|)
  {
    PartChars(s, i, bullet);
    if bullet != "-" && bullet != "+" && bullet != "*" {
      var n := |bullet| - 1;
      forall k | i <= k < i + n ensures IsDigit(s[k]) {
        assert s[k] == bullet[k - i] && IsDigit(bullet[..n][k - i]);
      }
      assert s[i + n] == bullet[n];
      SkipDigitsIs(s, i, i + n);
    }
  }

  /** A bullet and at least one blank. */
  lemma MarkerFound(s: string, i: nat, bullet: string, blanks: string)
    requires IsBullet(bullet) && blanks != "" && AllBlank(blanks) && PartAt(s, i, bullet) && PartAt(s, i + |bullet|, blanks)
    requires var e := i + |bullet| + |blanks|; e < |s| ==> !IsBlank(s[e])
    ensures MarkerEnd(s, i) == Some(i + |bullet| + |blanks|)
  {
    BulletFound(s, i, bullet);
    BlanksSkipped(s, i + |bullet|, blanks);
  }

  lemma BulletStart(bullet: string)
    requires IsBullet(bullet)
    ensures bullet != "" && !IsBlank(bullet[0]) && bullet[0] != '>' && bullet[0] != '|' && !IsSpace(bullet[0])
  {
    if |bullet| >= 2 {
      assert IsDigit(bullet[..|bullet| - 1][0]);
    }
  }

  lemma {:induction false} ListParts(line: string, indent: string, bullet: string, blanks: string, rest: string)
    requires line == indent + bullet + blanks + rest
    ensures PartAt(line, 0, indent) && PartAt(line, |indent|, bullet) && PartAt(line, |indent + bullet|, blanks)
    ensures line[|indent + bullet + blanks|..] == rest && line[..|indent + bullet + blanks|] == indent + bullet + blanks
  {
  }

  lemma {:induction false} ListMarkerFound(line: string, indent: string, bullet: string, blanks: string, rest: string)
    requires line == indent + bullet + blanks + rest && AllBlank(indent) && IsBullet(bullet) && blanks != "" && AllBlank(blanks)
    requires StartsSolid(rest)
    ensures SkipBlanks(line, 0) == |indent| && MarkerEnd(line, |indent|) == Some(|indent + bullet + blanks|)
    ensures QuoteEnd(line, 0) == 0
  {
    ListParts(line, indent, bullet, blanks, rest);
    BulletStart(bullet);
    PartChars(line, |indent|, bullet);
    BlanksSkipped(line, 0, indent);
    assert rest != "" ==> line[|indent + bullet + blanks|] == rest[0];
    MarkerFound(line, |indent|, bullet, blanks);
  }

  lemma {:induction false} FirstVisible(line: string, indent: string, solid: string)
    requires line == indent + solid && AllBlank(indent) && solid != "" && !IsSpace(solid[0])
    ensures LeadingSpace(line) == |indent| && line[|indent|] == solid[0]
  {
    assert AllSpace(line[..|indent|]) by {
      assert line[..|indent|] == indent;
    }
    LeadingUnique(line, |indent|);
  }

  /** The prefix ends there if the line does not start with a pipe. */
  lemma {:induction false} SplitAtEnd(line: string, first: nat, e: nat)
    requires LeadingSpace(line) == first < |line| && line[first] != '|' && ContainerEnd(line) == e
    ensures SplitPrefix(line) == Prefixed(line[..e], line[e..])
  {
  }

  lemma {:induction false} ListEndIs(line: string, i: nat, e: nat)
    requires SkipBlanks(line, 0) == i && MarkerEnd(line, i) == Some(e) && QuoteEnd(line, 0) == 0
    requires e <= |line| && OneLineFrom(line, e)
    ensures ContainerEnd(line) == if '|' in line[e..] then e else 0
  {
    if '|' in line[e..] {
      var k :| 0 <= k < |line[e..]| && line[e..][k] == '|';
      assert line[e + k] == '|';
    }
    assert forall k :: e <= k < |line| ==> line[k] == line[e..][k - e];
  }

  lemma RestStart(line: string, e: nat, rest: string)
    requires e <= |line| && line[e..] == rest
    ensures rest != "" <==> e < |line|
    ensures rest != "" ==> line[e] == rest[0]
  {
  }

  lemma RestOneLine(line: string, e: nat, rest: string)
    requires e <= |line| && line[e..] == rest && OneLine(rest)
    ensures OneLineFrom(line, e)
  {
    assert forall i :: e <= i < |line| ==> line[i] == rest[i - e];
  }

  /** A list marker is split off a line that has a pipe behind it, whatever blanks stand around the marker. */
  lemma {:induction false} ListPrefixRead(line: string, indent: string, bullet: string, blanks: string, rest: string)
    requires line == indent + bullet + blanks + rest && AllBlank(indent) && IsBullet(bullet) && blanks != "" && AllBlank(blanks)
    requires StartsSolid(rest) && OneLine(rest)
    ensures SplitPrefix(line) == if '|' in rest then Prefixed(indent + bullet + blanks, rest) else Prefixed("", line)
  {
    var e := |indent + bullet + blanks|;
    ListMarkerFound(line, indent, bullet, blanks, rest);
    ListParts(line, indent, bullet, blanks, rest);
    BulletStart(bullet);
    Assoc4(indent, bullet, blanks, rest);
    FirstVisible(line, indent, bullet + blanks + rest);
    RestOneLine(line, e, rest);
    ListEndIs(line, |indent|, e);
    SplitAtEnd(line, |indent|, if '|' in rest then e else 0);
  }

  // ---------------------------------------------------------------- block quotes

  /** Quote marks with any blanks between and behind them. */
  predicate AllQuotes(s: string) {
    forall i :: 0 <= i < |s| ==> s[i] == '>' || IsBlank(s[i])
  }

  lemma {:induction false} SolidStops(s: string, i: nat, e: nat)
    requires i <= e <= |s| && (e < |s| ==> !IsBlank(s[e]))
    ensures SkipBlanks(s, i) <= e
    decreases e - i
  {
    if i < e {
      SolidStops(s, i + 1, e);
    }
  }

  lemma {:induction false} QuotesEnd(s: string, i: nat, e: nat)
    requires i <= e <= |s| && (forall k :: i <= k < e ==> s[k] == '>' || IsBlank(s[k]))
    requires i == e || s[i] == '>'
    requires e < |s| ==> s[e] != '>' && !IsBlank(s[e])
    ensures QuoteEnd(s, i) == e
    decreases e - i
  {
    if i < e {
      var n := SkipBlanks(s, i + 1);
      assert SkipBlanks(s, i) == i;
      SolidStops(s, i + 1, e);
      QuoteStep(s, i, i, n);
      QuotesEnd(s, n, e);
    } else {
      SkipBlanksIs(s, i, i);
    }
  }

  /** Quote marks behind at most three blanks. */
  lemma {:induction false} QuoteParts(line: string, indent: string, quotes: string, rest: string)
    requires line == indent + quotes + rest && AllBlank(indent) && |indent| <= 3
    requires quotes != "" && quotes[0] == '>' && AllQuotes(quotes) && StartsSolid(rest) && (rest != "" ==> rest[0] != '>')
    ensures QuoteEnd(line, 0) == |indent + quotes| && LeadingSpace(line) == |indent| && line[|indent|] == '>'
  {
    var j, e := |indent|, |indent + quotes|;
    Assoc(indent, quotes, rest);
    FirstVisible(line, indent, quotes + rest);
    assert PartAt(line, 0, indent);
    BlanksSkipped(line, 0, indent);
    forall k | j <= k < e ensures line[k] == '>' || IsBlank(line[k]) {
      assert line[k] == quotes[k - j];
    }
    assert rest != "" ==> line[e] == rest[0];
    var n := SkipBlanks(line, j + 1);
    SolidStops(line, j + 1, e);
    QuoteStep(line, 0, j, n);
    QuotesEnd(line, n, e);
  }

  lemma {:induction false} QuotedEndIs(line: string, q: nat, e: nat)
    requires QuoteEnd(line, 0) == q > 0 && e <= |line| && OneLineFrom(line, e)
    requires MarkerEnd(line, q) == if e == q then None else Some(e)
    ensures ContainerEnd(line) == e
  {
  }

  /** Block quote marks are split off. */
  lemma {:induction false} QuotePrefixRead(line: string, indent: string, quotes: string, rest: string)
    requires line == indent + quotes + rest && AllBlank(indent) && |indent| <= 3
    requires quotes != "" && quotes[0] == '>' && AllQuotes(quotes) && StartsSolid(rest) && OneLine(rest)
    requires rest != "" ==> rest[0] !in ">-+*" && !IsDigit(rest[0])
    ensures SplitPrefix(line) == Prefixed(indent + quotes, rest)
  {
    var e := |indent + quotes|;
    QuoteParts(line, indent, quotes, rest);
    assert line[e..] == rest && line[..e] == indent + quotes;
    RestOneLine(line, e, rest);
    NoMarker(line, e, rest);
    QuotedEndIs(line, e, e);
    SplitAtEnd(line, |indent|, e);
  }

  lemma NoMarker(line: string, e: nat, rest: string)
    requires e <= |line| && line[e..] == rest && (rest != "" ==> rest[0] !in "-+*" && !IsDigit(rest[0]))
    ensures MarkerEnd(line, e) == None
  {
    assert rest != "" ==> line[e] == rest[0];
  }

  lemma {:induction false} MarkerBehind(line: string, head: string, bullet: string, blanks: string, rest: string, e: nat)
    requires line == head + bullet + blanks + rest && e == |head + bullet + blanks|
    requires IsBullet(bullet) && blanks != "" && AllBlank(blanks) && StartsSolid(rest) && OneLine(rest)
    ensures e <= |line| && line[..e] == head + bullet + blanks && line[e..] == rest
    ensures MarkerEnd(line, |head|) == Some(e) && OneLineFrom(line, e)
  {
    ListParts(line, head, bullet, blanks, rest);
    RestStart(line, e, rest);
    MarkerFound(line, |head|, bullet, blanks);
    RestOneLine(line, e, rest);
  }

  lemma {:induction false} MarkerBehindQuotes(line: string, head: string, first: nat, bullet: string, blanks: string, rest: string)
    requires line == head + bullet + blanks + rest && head != "" && QuoteEnd(line, 0) == |head|
    requires LeadingSpace(line) == first < |line| && line[first] != '|'
    requires IsBullet(bullet) && blanks != "" && AllBlank(blanks) && StartsSolid(rest) && OneLine(rest)
    ensures SplitPrefix(line) == Prefixed(head + bullet + blanks, rest)
  {
    var e := |head + bullet + blanks|;
    MarkerBehind(line, head, bullet, blanks, rest, e);
    QuotedEndIs(line, |head|, e);
    SplitAtEnd(line, first, e);
  }

  /** So is one list marker behind them, also if no pipe follows. */
  lemma {:induction false} QuotedListRead(line: string, indent: string, quotes: string, bullet: string, blanks: string, rest: string)
    requires line == indent + quotes + bullet + blanks + rest && AllBlank(indent) && |indent| <= 3
    requires quotes != "" && quotes[0] == '>' && AllQuotes(quotes) && IsBullet(bullet) && blanks != "" && AllBlank(blanks)
    requires StartsSolid(rest) && OneLine(rest)
    ensures SplitPrefix(line) == Prefixed(indent + quotes + bullet + blanks, rest)
  {
    BulletStart(bullet);
    Assoc4(indent + quotes, bullet, blanks, rest);
    var tail := bullet + blanks + rest;
    assert tail[0] == bullet[0];
    QuoteParts(line, indent, quotes, tail);
    MarkerBehindQuotes(line, indent + quotes, |indent|, bullet, blanks, rest);
  }

  /** A line that starts with anything else has no prefix. */
  lemma {:induction false} NoPrefixRead(line: string, indent: string, rest: string)
    requires line == indent + rest && AllBlank(indent) && rest != "" && !IsSpace(rest[0]) && rest[0] != '|'
    requires (rest[0] != '>' || |indent| > 3) && rest[0] !in "-+*" && !IsDigit(rest[0])
    ensures SplitPrefix(line) == Prefixed("", line)
  {
    FirstVisible(line, indent, rest);
    assert PartAt(line, 0, indent);
    BlanksSkipped(line, 0, indent);
    assert line[|indent|..] == rest;
    NoMarker(line, |indent|, rest);
    assert ContainerEnd(line) == 0;
    SplitAtEnd(line, |indent|, 0);
  }
}
