/** Which lines below a table are rows of it, and where its layout ends. */
module ProseRows {
  import opened Text
  import opened Lines
  import opened Containers
  import opened MarkdownTable
  import opened TableText
  import opened DocumentLayout

  /** A pipe that no backslash escapes stands in the part of the line behind the container prefix. */
  predicate HasBarePipe(line: string) {
    var content := SplitPrefix(line).content;
    exists i :: 0 <= i < |content| && IsBarePipe(content, i)
  }

  lemma SealedIff(s: string)
    ensures |Split(s)| == 1 <==> !exists i :: 0 <= i < |s| && IsBarePipe(s, i)
  {
    SplitParts(s);
    if |Split(s)| == 1 {
      assert Sealed(Split(s)[0]) && Split(s)[0] == s;
    } else if Sealed(s) {
      SplitSealed(s);
    } else {
      var i :| 0 <= i < |s| && s[i] == '|' && !OddTail(s[..i]);
      assert IsBarePipe(s, i);
    }
  }

  /** Something is cut off or separated exactly if there is a bare pipe. */
  lemma {:induction false} CutIff(split: Prefixed, head: Leading, tail: Trailing)
    requires head == CutLeadingPipe(split) && tail == CutTrailingPipe(head.inner)
    ensures head.present || tail.present || |Split(tail.cells)| > 1
       <==> exists i :: 0 <= i < |split.content| && IsBarePipe(split.content, i)
  {
    if head.present {
      assert IsBarePipe(split.content, LeadingSpace(split.content));
    } else if tail.present {
      assert IsBarePipe(split.content, |split.content| - TrailingSpace(split.content) - 1);
    } else {
      SealedIff(split.content);
    }
  }

  /** A line below the delimiter row is a row of the table exactly if it has a bare pipe. */
  lemma {:induction false} RowIffBarePipe(line: string)
    ensures IsExplicitBodyRow(ParseRow(line)) <==> HasBarePipe(line)
  {
    var head := CutLeadingPipe(SplitPrefix(line));
    CutIff(SplitPrefix(line), head, CutTrailingPipe(head.inner));
  }

  lemma {:induction false} BodyRowIs(t: Table, lines: seq<string>, i: nat)
    requires Rows(t) == ParseRows(lines) && i < |t.body|
    ensures |lines| == 2 + |t.body| && (IsExplicitBodyRow(t.body[i]) <==> HasBarePipe(lines[i + 2]))
  {
    assert t.body[i] == Rows(t)[i + 2];
    RowIffBarePipe(lines[i + 2]);
  }

  /** Of these lines the first `n` are table rows, and the next one, if any, is not. */
  predicate EndsAtProse(lines: seq<string>, n: int) {
    && 2 <= n <= |lines| && (forall i :: 2 <= i < n ==> HasBarePipe(lines[i]))
    && (n < |lines| ==> !HasBarePipe(lines[n]))
  }

  lemma {:induction false} FirstProseLine(t: Table, lines: seq<string>, k: nat)
    requires Rows(t) == ParseRows(lines) && k == FirstProseRow(t.body)
    ensures EndsAtProse(lines, 2 + k)
  {
    assert |Rows(t)| == |lines|;
    forall i | 2 <= i < 2 + k ensures HasBarePipe(lines[i]) {
      BodyRowIs(t, lines, i - 2);
    }
    if k < |t.body| {
      BodyRowIs(t, lines, k);
    }
  }

  lemma {:induction false} ParsedLines(source: string) returns (t: Table, lines: seq<string>)
    requires ParseTable(source).Some?
    ensures ParseTable(source) == Some(t) && lines == ReadLines(source) && Rows(t) == ParseRows(lines)
  {
    ParsedParts(source);
    t, lines := ParseTable(source).value, ReadLines(source);
  }

  lemma {:induction false} LayoutLength(doc: string, from: nat, t: Table)
    requires from <= |doc|
    ensures |LayoutOfTable(doc, from, ExplicitPart(t)).rows| == 2 + FirstProseRow(t.body)
  {
  }

  lemma {:induction false} LayoutIs(doc: string, from: nat, to: nat, t: Table)
    requires from <= to <= |doc| && ParseTable(doc[from..to]) == Some(t)
    ensures LayoutOf(doc, from, to) == Some(LayoutOfTable(doc, from, ExplicitPart(t)))
  {
  }

  /** In any document the layout has a row for each line of the node up to the first one below the delimiter row that
      has no bare pipe. */
  lemma {:induction false} LaidOutLines(doc: string, from: nat, to: nat) returns (lines: seq<string>, n: nat)
    requires from <= to <= |doc| && LayoutOf(doc, from, to).Some?
    ensures lines == ReadLines(doc[from..to]) && n == |LayoutOf(doc, from, to).value.rows|
    ensures EndsAtProse(lines, n)
  {
    var t;
    t, lines := ParsedLines(doc[from..to]);
    LayoutIs(doc, from, to, t);
    LayoutLength(doc, from, t);
    n := 2 + FirstProseRow(t.body);
    FirstProseLine(t, lines, n - 2);
  }
}
