/** Line endings: detection, normalisation, splitting into lines and joining again. */
module Lines {
  import opened Seqs
  import opened Text

  predicate HasCrlf(s: string) {
    exists i :: 0 <= i < |s| - 1 && s[i] == '\r' && s[i + 1] == '\n'
  }

  /** A line feed that is not the second half of a CRLF pair. */
  predicate HasBareLf(s: string) {
    exists i :: 0 <= i < |s| && s[i] == '\n' && (i == 0 || s[i - 1] != '\r')
  }

  /** Either every line ends with CRLF or none does. */
  predicate UniformEndings(s: string) {
    !HasCrlf(s) || !HasBareLf(s)
  }

  predicate EndsWithLf(s: string) {
    s != "" && s[|s| - 1] == '\n'
  }

  /** `replace(/\r\n/g, '\n')` */
  function Normalize(s: string): string {
    if s == "" then ""
    else if |s| >= 2 && s[0] == '\r' && s[1] == '\n' then "\n" + Normalize(s[2..])
    else [s[0]] + Normalize(s[1..])
  }

  /** `split('\n')` */
  function SplitLines(s: string): (lines: seq<string>)
    ensures lines != []
  {
    if s == "" then [""]
    else
      var rest := SplitLines(s[1..]);
      if s[0] == '\n' then [""] + rest else [[s[0]] + rest[0]] + rest[1..]
  }

  /** The lines of a source text; the empty piece after a final newline is dropped. */
  function ReadLines(source: string): seq<string> {
    var lines := SplitLines(Normalize(source));
    if EndsWithLf(source) then lines[..|lines| - 1] else lines
  }

  function Terminate(lines: seq<string>, ending: string, trailing: bool): string {
    Join(lines, ending) + if trailing then ending else ""
  }

  /** A final carriage return is lost when a line feed follows it. */
  function Chomp(s: string): string {
    if s != "" && s[|s| - 1] == '\r' then s[..|s| - 1] else s
  }

  // ---------------------------------------------------------------- splitting

  lemma {:induction false} SplitLinesCut(a: string, b: string)
    requires '\n' !in a
    ensures SplitLines(a + "\n" + b) == [a] + SplitLines(b)
  {
    var s := a + "\n" + b;
    if a == "" {
      assert s[1..] == b;
    } else {
      assert s[1..] == a[1..] + "\n" + b;
      SplitLinesCut(a[1..], b);
      assert a == [a[0]] + a[1..];
      var rest := SplitLines(s[1..]);
      assert rest[0] == a[1..] && rest[1..] == SplitLines(b);
    }
  }

  lemma {:induction false} SplitLinesSingle(a: string)
    requires '\n' !in a
    ensures SplitLines(a) == [a]
  {
    if a != "" {
      SplitLinesSingle(a[1..]);
      assert a == [a[0]] + a[1..];
    }
  }

  lemma {:induction false} SplitLinesPieces(s: string)
    ensures forall i :: 0 <= i < |SplitLines(s)| ==> '\n' !in SplitLines(s)[i]
  {
    if s != "" {
      SplitLinesPieces(s[1..]);
    }
  }

  /** Replace every line feed by the given ending. */
  function Expand(s: string, ending: string): string {
    if s == "" then "" else (if s[0] == '\n' then ending else [s[0]]) + Expand(s[1..], ending)
  }

  lemma {:induction false} JoinSplitLines(s: string, ending: string)
    ensures Join(SplitLines(s), ending) == Expand(s, ending)
  {
    if s != "" {
      var rest := SplitLines(s[1..]);
      JoinSplitLines(s[1..], ending);
      if s[0] == '\n' {
        assert ([""] + rest)[1..] == rest;
      } else {
        var lines := [[s[0]] + rest[0]] + rest[1..];
        if |rest| == 1 {
          assert lines == [[s[0]] + rest[0]];
        } else {
          assert lines[1..] == rest[1..];
          assert [s[0]] + rest[0] + ending + Join(rest[1..], ending) == [s[0]] + (rest[0] + ending + Join(rest[1..], ending));
        }
      }
    }
  }

  lemma {:induction false} ExpandIdentity(s: string)
    ensures Expand(s, "\n") == s
  {
    if s != "" {
      ExpandIdentity(s[1..]);
    }
  }

  lemma {:induction false} SplitLinesLast(s: string)
    requires s == "" || s[|s| - 1] == '\n'
    ensures SplitLines(s)[|SplitLines(s)| - 1] == ""
  {
    if |s| > 1 {
      assert s[1..][|s[1..]| - 1] == s[|s| - 1];
      SplitLinesLast(s[1..]);
      var rest := SplitLines(s[1..]);
      if s[0] != '\n' && |rest| == 1 {
        assert SplitLines(s[1..]) == [""];
        JoinSplitLines(s[1..], "\n");
        ExpandIdentity(s[1..]);
        assert false;
      }
    } else if |s| == 1 {
      assert s[1..] == "";
    }
  }

  // ---------------------------------------------------------------- normalising

  lemma NormalizeKeepsLastLf(s: string)
    ensures EndsWithLf(Normalize(s)) <==> EndsWithLf(s)
  {
    if s != "" {
      if |s| >= 2 && s[0] == '\r' && s[1] == '\n' {
        NormalizeKeepsLastLf(s[2..]);
        NormalizeEmpty(s[2..]);
      } else {
        NormalizeKeepsLastLf(s[1..]);
        NormalizeEmpty(s[1..]);
      }
    }
  }

  lemma NormalizeEmpty(s: string)
    ensures Normalize(s) == "" <==> s == ""
  {
  }

  lemma {:induction false} NormalizeWithoutCrlf(s: string)
    requires !HasCrlf(s)
    ensures Normalize(s) == s
  {
    if s != "" {
      assert forall i :: 0 <= i < |s| - 1 ==> s[1..][i] == s[i + 1];
      if |s| >= 2 {
        assert !(s[0] == '\r' && s[0 + 1] == '\n');
      }
      NormalizeWithoutCrlf(s[1..]);
    }
  }

  predicate HasBareLfRec(s: string) {
    s != "" &&
    if |s| >= 2 && s[0] == '\r' && s[1] == '\n' then HasBareLfRec(s[2..])
    else s[0] == '\n' || HasBareLfRec(s[1..])
  }

  lemma {:induction false} BareLfAgree(s: string)
    ensures HasBareLfRec(s) <==> HasBareLf(s)
  {
    if s != "" {
      if |s| >= 2 && s[0] == '\r' && s[1] == '\n' {
        var t := s[2..];
        BareLfAgree(t);
        assert forall i :: 0 <= i < |t| ==> t[i] == s[i + 2];
        if HasBareLf(t) {
          var i :| 0 <= i < |t| && t[i] == '\n' && (i == 0 || t[i - 1] != '\r');
          assert s[i + 2] == '\n' && s[i + 1] != '\r';
        }
        if HasBareLf(s) {
          var i :| 0 <= i < |s| && s[i] == '\n' && (i == 0 || s[i - 1] != '\r');
          assert t[i - 2] == '\n' && (i == 2 || t[i - 3] != '\r');
        }
      } else {
        var t := s[1..];
        BareLfAgree(t);
        assert forall i :: 0 <= i < |t| ==> t[i] == s[i + 1];
        if HasBareLf(t) {
          var i :| 0 <= i < |t| && t[i] == '\n' && (i == 0 || t[i - 1] != '\r');
          assert s[i + 1] == '\n' && s[i] != '\r';
        }
        if HasBareLf(s) && s[0] != '\n' {
          var i :| 0 <= i < |s| && s[i] == '\n' && (i == 0 || s[i - 1] != '\r');
          assert t[i - 1] == '\n' && (i == 1 || t[i - 2] != '\r');
        }
      }
    }
  }

  /** Normalising and writing CRLF everywhere gives the text back exactly when no line feed was bare. */
  lemma {:induction false} ExpandNormalize(s: string)
    ensures Expand(Normalize(s), "\r\n") == s <==> !HasBareLfRec(s)
  {
    if s != "" {
      if |s| >= 2 && s[0] == '\r' && s[1] == '\n' {
        ExpandNormalize(s[2..]);
        var n := Normalize(s[2..]);
        assert ("\n" + n)[1..] == n;
        assert s == "\r\n" + s[2..];
        assert Expand(Normalize(s), "\r\n")[2..] == Expand(n, "\r\n");
      } else {
        ExpandNormalize(s[1..]);
        var n := Normalize(s[1..]);
        assert ([s[0]] + n)[1..] == n;
        assert s == [s[0]] + s[1..];
        if s[0] == '\n' {
          assert Expand(Normalize(s), "\r\n")[0] == '\r';
        } else {
          assert Expand(Normalize(s), "\r\n")[1..] == Expand(n, "\r\n");
        }
      }
    }
  }

  /** A text is recovered from its lines exactly when its line endings are uniform. */
  lemma RejoinReadLines(source: string)
    requires source != ""
    ensures var ending := if HasCrlf(source) then "\r\n" else "\n";
            Terminate(ReadLines(source), ending, EndsWithLf(source)) == source <==> UniformEndings(source)
  {
    var ending := if HasCrlf(source) then "\r\n" else "\n";
    var text := Normalize(source);
    var lines := SplitLines(text);
    JoinSplitLines(text, ending);
    NormalizeKeepsLastLf(source);
    if EndsWithLf(source) {
      SplitLinesLast(text);
      var k := |lines| - 1;
      assert lines == lines[..k] + [""];
      if k == 0 {
        JoinSplitLines(text, "\n");
        ExpandIdentity(text);
        assert false;
      }
      JoinAppend(lines[..k], [""], ending);
      assert Join([""], ending) == "";
      assert Join(lines, ending) == Join(lines[..k], ending) + ending;
    }
    assert Terminate(ReadLines(source), ending, EndsWithLf(source)) == Expand(text, ending);
    if HasCrlf(source) {
      ExpandNormalize(source);
      BareLfAgree(source);
    } else {
      NormalizeWithoutCrlf(source);
      ExpandIdentity(source);
    }
  }

  // ---------------------------------------------------------------- reading printed lines

  /** Reading one line and its ending. */
  lemma {:induction false} NormalizeCut(line: string, rest: string, crlf: bool)
    requires '\n' !in line
    ensures Normalize(line + (if crlf then "\r\n" else "\n") + rest)
         == (if crlf then line else Chomp(line)) + "\n" + Normalize(rest)
  {
    var ending := if crlf then "\r\n" else "\n";
    var s := line + ending + rest;
    if line == "" {
      assert s == ending + rest;
      CutConcat(ending, rest);
    } else {
      TailConcat(line, ending);
      TailConcat(line + ending, rest);
      NormalizeCut(line[1..], rest, crlf);
      NormalizeStep(line, ending + rest, s, crlf);
    }
  }

  /** One character of a line, followed by a line ending and a rest. */
  lemma {:induction false} NormalizeStep(line: string, tail: string, s: string, crlf: bool)
    requires line != "" && '\n' !in line && s == line + tail
    requires (if crlf then "\r\n" else "\n") <= tail
    requires Normalize(s[1..]) == (if crlf then line[1..] else Chomp(line[1..])) + "\n" + Normalize(tail[if crlf then 2 else 1..])
    ensures Normalize(s) == (if crlf then line else Chomp(line)) + "\n" + Normalize(tail[if crlf then 2 else 1..])
  {
    var rest := Normalize(tail[if crlf then 2 else 1..]);
    if |line| == 1 && !crlf && line[0] == '\r' {
      assert s[2..] == tail[1..];
    } else {
      assert s[1] == if |line| == 1 then tail[0] else line[1];
      assert (if crlf then line else Chomp(line)) == [line[0]] + if crlf then line[1..] else Chomp(line[1..]);
      Assoc4([line[0]], if crlf then line[1..] else Chomp(line[1..]), "\n", rest);
    }
  }

  lemma {:induction false} NormalizeLine(line: string)
    requires '\n' !in line
    ensures Normalize(line) == line
  {
    if line != "" {
      NormalizeLine(line[1..]);
    }
  }

  /** What is read back of a printed line: its final carriage return is lost
      only if a bare line feed follows. */
  function ReadBackLine(lines: seq<string>, i: nat, crlf: bool, trailing: bool): string
    requires i < |lines|
  {
    if crlf || (i == |lines| - 1 && !trailing) then lines[i] else Chomp(lines[i])
  }

  function ReadBackLines(lines: seq<string>, crlf: bool, trailing: bool): seq<string> {
    seq(|lines|, i requires 0 <= i < |lines| => ReadBackLine(lines, i, crlf, trailing))
  }

  lemma ReadBackLinesCons(lines: seq<string>, crlf: bool, trailing: bool)
    requires |lines| > 1
    ensures ReadBackLines(lines, crlf, trailing)
         == [ReadBackLine(lines, 0, crlf, trailing)] + ReadBackLines(lines[1..], crlf, trailing)
  {
    var all, rest := ReadBackLines(lines, crlf, trailing), ReadBackLines(lines[1..], crlf, trailing);
    forall i | 0 <= i < |rest| ensures rest[i] == all[i + 1] {
      assert lines[1..][i] == lines[i + 1];
    }
  }

  lemma {:induction false} ReadPrintedLines(lines: seq<string>, crlf: bool, trailing: bool)
    requires lines != [] && forall i :: 0 <= i < |lines| ==> '\n' !in lines[i]
    ensures SplitLines(Normalize(Terminate(lines, if crlf then "\r\n" else "\n", trailing)))
         == ReadBackLines(lines, crlf, trailing) + (if trailing then [""] else [])
  {
    var ending := if crlf then "\r\n" else "\n";
    var text := Terminate(lines, ending, trailing);
    var first := ReadBackLine(lines, 0, crlf, trailing);
    assert '\n' !in lines[0] && '\n' !in first;
    if |lines| == 1 && !trailing {
      assert text == lines[0];
      NormalizeLine(lines[0]);
      SplitLinesSingle(lines[0]);
    } else {
      var rest := if |lines| == 1 then "" else Terminate(lines[1..], ending, trailing);
      assert text == lines[0] + ending + rest;
      NormalizeCut(lines[0], rest, crlf);
      SplitLinesCut(first, Normalize(rest));
      if |lines| > 1 {
        ReadPrintedLines(lines[1..], crlf, trailing);
        ReadBackLinesCons(lines, crlf, trailing);
      } else {
        assert Normalize(rest) == "";
        assert ReadBackLines(lines, crlf, trailing) == [first];
      }
    }
  }

  /** A printed text ends with a line feed exactly when it was given a trailing newline. */
  lemma PrintedEnd(lines: seq<string>, crlf: bool, trailing: bool)
    requires lines != [] && forall i :: 0 <= i < |lines| ==> '\n' !in lines[i] && lines[i] != ""
    ensures EndsWithLf(Terminate(lines, if crlf then "\r\n" else "\n", trailing)) <==> trailing
  {
    var k := |lines| - 1;
    var ending := if crlf then "\r\n" else "\n";
    if k > 0 {
      JoinAppend(lines[..k], [lines[k]], ending);
      assert lines == lines[..k] + [lines[k]];
    }
    assert '\n' !in lines[k];
    assert lines[k][|lines[k]| - 1] != '\n';
    assert Join(lines, ending)[|Join(lines, ending)| - 1] == lines[k][|lines[k]| - 1];
  }

  /** Reading what was printed gives the lines back, up to carriage returns swallowed by a line feed. */
  lemma ReadBack(lines: seq<string>, crlf: bool, trailing: bool)
    requires lines != [] && forall i :: 0 <= i < |lines| ==> '\n' !in lines[i] && lines[i] != ""
    ensures ReadLines(Terminate(lines, if crlf then "\r\n" else "\n", trailing))
         == ReadBackLines(lines, crlf, trailing)
  {
    ReadPrintedLines(lines, crlf, trailing);
    PrintedEnd(lines, crlf, trailing);
  }

  lemma CrlfInPart(a: string, b: string, c: string)
    requires HasCrlf(b)
    ensures HasCrlf(a + b + c)
  {
    var s := a + b + c;
    var i :| 0 <= i < |b| - 1 && b[i] == '\r' && b[i + 1] == '\n';
    assert s[|a| + i] == '\r' && s[|a| + i + 1] == '\n';
  }

  lemma NoCrlfWhenChomped(lines: seq<string>, trailing: bool)
    requires lines != [] && forall i :: 0 <= i < |lines| ==> '\n' !in lines[i] && Chomp(lines[i]) == lines[i]
    ensures !HasCrlf(Terminate(lines, "\n", trailing))
  {
    var text := Terminate(lines, "\n", trailing);
    var rest := if |lines| == 1 then "" else Terminate(lines[1..], "\n", trailing);
    if |lines| > 1 {
      NoCrlfWhenChomped(lines[1..], trailing);
    }
    var line := lines[0];
    assert '\n' !in line && Chomp(line) == line;
    forall i | 0 <= i < |text| - 1 ensures !(text[i] == '\r' && text[i + 1] == '\n') {
      if |lines| == 1 && !trailing {
        assert text == line;
      } else {
        assert text == line + "\n" + rest;
        if i > |line| {
          assert text[i] == rest[i - |line| - 1] && text[i + 1] == rest[i - |line|];
        }
      }
    }
  }

  // ---------------------------------------------------------------- the lines of a document

  /** Start and end of the line that holds a position. */
  function LineFrom(doc: string, p: nat): (from: nat)
    requires p <= |doc|
    ensures from <= p
  {
    if p == 0 || doc[p - 1] == '\n' then p else LineFrom(doc, p - 1)
  }

  function LineTo(doc: string, p: nat): (to: nat)
    requires p <= |doc|
    ensures p <= to <= |doc|
    decreases |doc| - p
  {
    if p == |doc| || doc[p] == '\n' then p else LineTo(doc, p + 1)
  }

  lemma {:induction false} LineToIs(doc: string, p: nat, to: nat)
    requires p <= to <= |doc| && '\n' !in doc[p..to] && (to == |doc| || doc[to] == '\n')
    ensures LineTo(doc, p) == to
    decreases |doc| - p
  {
    if p < to {
      assert doc[p..to][0] == doc[p];
      assert doc[p + 1..to] == doc[p..to][1..];
      LineToIs(doc, p + 1, to);
    }
  }
}
