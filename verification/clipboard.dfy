/** Copying cells as tab-separated text and pasting text into a table. */
module Clipboard {
  import opened Seqs
  import opened Text

  // ---------------------------------------------------------------- escaping pipes

  /** A backslash is put before every pipe that is not escaped. */
  function EscapeCell(s: string): string {
    if s == "" then ""
    else
      var k := |s| - 1;
      EscapeCell(s[..k]) + if s[k] == '|' && TailRun(s[..k]) % 2 == 0 then "\\|" else [s[k]]
  }

  /** The loop of escapeMarkdownTableCell. */
  method EscapeMarkdownTableCell(value: string) returns (result: string)
    ensures result == EscapeCell(value)
  {
    result := "";
    var precedingBackslashes := 0;
    for i := 0 to |value|
      invariant result == EscapeCell(value[..i])
      invariant precedingBackslashes == TailRun(value[..i])
    {
      var character := value[i];
      assert value[..i + 1][..i] == value[..i];
      if character == '|' {
        if precedingBackslashes % 2 == 0 {
          result := result + "\\";
        }
        result := result + [character];
        precedingBackslashes := 0;
      } else {
        result := result + [character];
        precedingBackslashes := if character == '\\' then precedingBackslashes + 1 else 0;
      }
    }
    assert value[..|value|] == value;
  }

  /** `replace(/\\\|/g, '|')`: the backslash right before a pipe is dropped. Matches end with a pipe
      and start with a backslash, so they cannot overlap and may be read from the right. */
  function UnescapePipes(s: string): string {
    if s == "" then ""
    else
      var k := |s| - 1;
      if s[k] == '|' && k > 0 && s[k - 1] == '\\' then UnescapePipes(s[..k - 1]) + "|"
      else UnescapePipes(s[..k]) + [s[k]]
  }

  lemma {:induction false} EscapeKeepsTail(s: string)
    ensures TailRun(EscapeCell(s)) == TailRun(s)
  {
    if s != "" {
      var k := |s| - 1;
      EscapeKeepsTail(s[..k]);
      var e := EscapeCell(s[..k]);
      if s[k] == '|' && TailRun(s[..k]) % 2 == 0 {
        Assoc(e, "\\", "|");
        TailRunSnoc(e + "\\", '|');
      } else {
        TailRunSnoc(e, s[k]);
      }
    }
  }

  /** An escaped text has no unescaped pipe: it is a single segment. */
  lemma {:induction false} EscapeSeals(s: string)
    ensures Sealed(EscapeCell(s))
    ensures Split(EscapeCell(s)) == [EscapeCell(s)]
  {
    if s != "" {
      var k := |s| - 1;
      EscapeSeals(s[..k]);
      EscapeKeepsTail(s[..k]);
      if s[k] == '|' && TailRun(s[..k]) % 2 == 0 {
        SealedPair(EscapeCell(s[..k]));
      } else {
        SealedSnoc(EscapeCell(s[..k]), s[k]);
      }
    }
    SplitSealed(EscapeCell(s));
  }

  lemma SealedPair(e: string)
    requires Sealed(e) && !OddTail(e)
    ensures Sealed(e + "\\|")
  {
    SealedSnoc(e, '\\');
    TailRunSnoc(e, '\\');
    SealedSnoc(e + ['\\'], '|');
    PairAppended(e);
  }

  lemma PairAppended(e: string)
    ensures e + "\\|" == e + ['\\'] + ['|']
  {
  }

  lemma {:induction false} EscapeSealed(s: string)
    requires Sealed(s)
    ensures EscapeCell(s) == s
  {
    if s != "" {
      var k := |s| - 1;
      SealedPrefix(s, k);
      EscapeSealed(s[..k]);
      SplitSnoc(s);
    }
  }

  /** Escaping twice is escaping once. */
  lemma EscapeIdempotent(s: string)
    ensures EscapeCell(EscapeCell(s)) == EscapeCell(s)
  {
    EscapeSeals(s);
    EscapeSealed(EscapeCell(s));
  }

  lemma UnescapeSnoc(s: string, c: char)
    requires c != '|' || s == "" || s[|s| - 1] != '\\'
    ensures UnescapePipes(s + [c]) == UnescapePipes(s) + [c]
  {
    Snoc(s, c);
  }

  lemma {:induction false} UnescapeKeepsTail(s: string)
    ensures TailRun(UnescapePipes(s)) == TailRun(s)
  {
    if s != "" {
      var k := |s| - 1;
      if s[k] == '|' && k > 0 && s[k - 1] == '\\' {
        TailRunSnoc(UnescapePipes(s[..k - 1]), '|');
      } else {
        UnescapeKeepsTail(s[..k]);
        TailRunSnoc(UnescapePipes(s[..k]), s[k]);
      }
    }
  }

  lemma EscapeSnoc(s: string, c: char)
    ensures EscapeCell(s + [c]) == EscapeCell(s) + if c == '|' && TailRun(s) % 2 == 0 then "\\|" else [c]
  {
    Snoc(s, c);
  }

  /** On the text of a cell, escaping undoes unescaping. */
  lemma {:induction false} EscapeUndoesUnescape(s: string)
    requires Sealed(s)
    ensures EscapeCell(UnescapePipes(s)) == s
  {
    if s != "" {
      var k := |s| - 1;
      if s[k] == '|' && k > 0 && s[k - 1] == '\\' {
        var init := s[..k - 1];
        SealedPrefix(s, k - 1);
        EscapeUndoesUnescape(init);
        EvenBeforePair(s, k);
        EscapeUndoesPair(init, s);
      } else {
        SealedPrefix(s, k);
        EscapeUndoesUnescape(s[..k]);
        UnescapeKeepsTail(s[..k]);
        EscapeSnoc(UnescapePipes(s[..k]), s[k]);
        assert s[k] == '|' ==> OddTail(s[..k]);
        SplitSnoc(s);
      }
    }
  }

  lemma {:induction false} EscapeUndoesPair(init: string, s: string)
    requires EscapeCell(UnescapePipes(init)) == init && TailRun(init) % 2 == 0
    requires |s| == |init| + 2 && s[..|init|] == init && s[|init|] == '\\' && s[|init| + 1] == '|'
    ensures EscapeCell(UnescapePipes(s)) == s
  {
    assert s == init + "\\" + "|";
    UnescapePair(init);
    UnescapeKeepsTail(init);
    EscapeSnoc(UnescapePipes(init), '|');
  }

  lemma EvenBeforePair(s: string, k: nat)
    requires Sealed(s) && 0 < k < |s| && s[k] == '|' && s[k - 1] == '\\'
    ensures TailRun(s[..k - 1]) % 2 == 0
  {
    assert s[..k][..k - 1] == s[..k - 1];
    assert OddTail(s[..k]);
  }

  // ---------------------------------------------------------------- line breaks in cells

  /** Length of a match of the pattern `<br\s*\/?>`, in any letter case, at the start; 0 if there is none. */
  function BreakLength(s: string): (n: nat)
    ensures n <= |s| && (n > 0 ==> n >= 4 && s[0] == '<' && s[n - 1] == '>')
  {
    if |s| >= 4 && s[0] == '<' && (s[1] == 'b' || s[1] == 'B') && (s[2] == 'r' || s[2] == 'R') then
      var i := 3 + LeadingSpace(s[3..]);
      var j := if i < |s| && s[i] == '/' then i + 1 else i;
      if j < |s| && s[j] == '>' then j + 1 else 0
    else 0
  }

  /** A line break as it may be written in a cell: `<br`, in any letter case, white space, perhaps a slash, `>`. */
  predicate IsBreak(text: string, b: char, r: char, space: string, slash: string) {
    && (b == 'b' || b == 'B') && (r == 'r' || r == 'R') && AllSpace(space) && (slash == "" || slash == "/")
    && text == "<" + [b] + [r] + space + slash + ">"
  }

  lemma {:induction false} LeadingOf(space: string, rest: string)
    requires AllSpace(space) && (rest == "" || !IsSpace(rest[0]))
    ensures LeadingSpace(space + rest) == |space|
  {
    LeadingUnique(space + rest, |space|);
  }

  /** Every such text at the start is found. */
  lemma BreakFound(text: string, b: char, r: char, space: string, slash: string, rest: string)
    requires IsBreak(text, b, r, space, slash)
    ensures BreakLength(text + rest) == |text|
  {
    var s := text + rest;
    var tail := slash + ">" + rest;
    assert s == "<" + [b] + [r] + (space + tail);
    assert s[3..] == space + tail;
    LeadingOf(space, tail);
  }

  /** And nothing else is. */
  lemma BreakIs(s: string) returns (b: char, r: char, space: string, slash: string)
    requires BreakLength(s) > 0
    ensures IsBreak(s[..BreakLength(s)], b, r, space, slash)
  {
    var n := BreakLength(s);
    var k := LeadingSpace(s[3..]);
    b, r, space := s[1], s[2], s[3..][..k];
    slash := if s[3 + k] == '/' then "/" else "";
    assert s[..n] == [s[0]] + [b] + [r] + s[3..3 + k] + slash + [s[n - 1]];
  }

  function BreaksToNewlines(s: string): string
    decreases |s|
  {
    if s == "" then ""
    else if BreakLength(s) > 0 then "\n" + BreaksToNewlines(s[BreakLength(s)..])
    else [s[0]] + BreaksToNewlines(s[1..])
  }

  function NewlinesToBreaks(s: string): string {
    if s == "" then "" else (if s[0] == '\n' then "<br>" else [s[0]]) + NewlinesToBreaks(s[1..])
  }

  /** `replace(/\r?\n/g, '<br>')` */
  function LineEndsToBreaks(s: string): string
    decreases |s|
  {
    if s == "" then ""
    else if |s| >= 2 && s[0] == '\r' && s[1] == '\n' then "<br>" + LineEndsToBreaks(s[2..])
    else (if s[0] == '\n' then "<br>" else [s[0]]) + LineEndsToBreaks(s[1..])
  }

  /** Every line break of the text is spelled `<br>`. */
  predicate PlainBreaks(s: string)
    decreases |s|
  {
    s == "" ||
    if BreakLength(s) > 0 then BreakLength(s) == 4 && s[..4] == "<br>" && PlainBreaks(s[4..])
    else PlainBreaks(s[1..])
  }

  /** Turning breaks into line feeds and back gives the text exactly when all breaks are spelled `<br>`. */
  lemma {:induction false} BreaksReturn(s: string)
    requires '\n' !in s
    ensures NewlinesToBreaks(BreaksToNewlines(s)) == s <==> PlainBreaks(s)
    decreases |s|
  {
    if s != "" {
      var n := BreakLength(s);
      if n > 0 {
        var rest := BreaksToNewlines(s[n..]);
        BreaksReturn(s[n..]);
        assert ("\n" + rest)[1..] == rest;
        BreakSpelling(s, NewlinesToBreaks(rest));
      } else {
        var rest := BreaksToNewlines(s[1..]);
        BreaksReturn(s[1..]);
        CutConcat([s[0]], rest);
        CutConcat([s[0]], NewlinesToBreaks(rest));
        Uncons(s);
        assert [s[0]] + NewlinesToBreaks(rest) == s <==> NewlinesToBreaks(rest) == s[1..];
      }
    }
  }

  lemma BreakSpelling(s: string, rest: string)
    requires BreakLength(s) > 0
    ensures "<br>" + rest == s <==> BreakLength(s) == 4 && s[..4] == "<br>" && rest == s[4..]
  {
    if "<br>" + rest == s {
      assert s[3] == '>' && s[3..][0] == '>';
      assert LeadingSpace(s[3..]) == 0;
      CutConcat("<br>", rest);
    }
    TakeDrop(s, 4);
  }

  /** What is copied of a cell. */
  function ClipboardCellValue(markdown: string): string {
    UnescapePipes(BreaksToNewlines(markdown))
  }

  function NormalizeImportedCell(value: string): string {
    EscapeCell(NewlinesToBreaks(value))
  }

  lemma {:induction false} NewlinesAppend(a: string, b: string)
    ensures NewlinesToBreaks(a + b) == NewlinesToBreaks(a) + NewlinesToBreaks(b)
  {
    if a == "" {
      assert a + b == b;
    } else {
      TailConcat(a, b);
      NewlinesAppend(a[1..], b);
      Assoc(if a[0] == '\n' then "<br>" else [a[0]], NewlinesToBreaks(a[1..]), NewlinesToBreaks(b));
    }
  }

  lemma NewlinesSnoc(s: string, c: char)
    ensures NewlinesToBreaks(s + [c]) == NewlinesToBreaks(s) + if c == '\n' then "<br>" else [c]
  {
    NewlinesAppend(s, [c]);
    assert [c][1..] == "";
  }

  lemma UnescapeAfterBreak(s: string)
    ensures UnescapePipes(s + "<br>") == UnescapePipes(s) + "<br>"
  {
    UnescapeSnoc(s, '<');
    UnescapeSnoc(s + "<", 'b');
    UnescapeSnoc(s + "<" + "b", 'r');
    UnescapeSnoc(s + "<" + "b" + "r", '>');
    assert s + "<br>" == s + "<" + "b" + "r" + ">";
    assert UnescapePipes(s) + "<" + "b" + "r" + ">" == UnescapePipes(s) + "<br>";
  }

  lemma NewlinesLast(s: string)
    ensures s != "" ==> NewlinesToBreaks(s) != ""
    ensures s != "" ==> (s[|s| - 1] == '\\' <==> NewlinesToBreaks(s)[|NewlinesToBreaks(s)| - 1] == '\\')
    ensures s == "" ==> NewlinesToBreaks(s) == ""
  {
    if s != "" {
      SplitSnoc(s);
      NewlinesSnoc(s[..|s| - 1], s[|s| - 1]);
    }
  }

  /** Unescaping pipes and spelling line breaks do not interfere. */
  lemma {:induction false} UnescapeCommutes(s: string)
    ensures NewlinesToBreaks(UnescapePipes(s)) == UnescapePipes(NewlinesToBreaks(s))
  {
    if s != "" {
      var k := |s| - 1;
      SplitSnoc(s);
      if s[k] == '|' && k > 0 && s[k - 1] == '\\' {
        var init := s[..k - 1];
        assert s[..k] == init + "\\";
        UnescapeCommutes(init);
        NewlinesSnoc(UnescapePipes(init), '|');
        NewlinesSnoc(init, '\\');
        NewlinesSnoc(s[..k], '|');
        UnescapePair(NewlinesToBreaks(init));
      } else {
        var init := s[..k];
        UnescapeCommutes(init);
        NewlinesSnoc(UnescapePipes(init), s[k]);
        NewlinesSnoc(init, s[k]);
        NewlinesLast(init);
        if s[k] == '\n' {
          UnescapeAfterBreak(NewlinesToBreaks(init));
        } else {
          UnescapeSnoc(NewlinesToBreaks(init), s[k]);
        }
      }
    }
  }

  lemma UnescapePair(t: string)
    ensures UnescapePipes(t + "\\" + "|") == UnescapePipes(t) + "|"
  {
    var s := t + "\\" + "|";
    assert s[..|s| - 2] == t;
  }

  lemma {:induction false} NoNewlinesLeft(s: string)
    ensures '\n' !in NewlinesToBreaks(s) && ('\n' !in s ==> NewlinesToBreaks(s) == s && LineEndsToBreaks(s) == s)
  {
    if s != "" {
      NoNewlinesLeft(s[1..]);
      Uncons(s);
    }
  }

  lemma {:induction false} EscapeKeepsNewlines(s: string)
    ensures '\n' in EscapeCell(s) <==> '\n' in s
    ensures '\r' in EscapeCell(s) <==> '\r' in s
  {
    if s != "" {
      EscapeKeepsNewlines(s[..|s| - 1]);
      SplitSnoc(s);
    }
  }

  /** One cell through the clipboard: it comes back unchanged exactly when its line breaks
      are spelled `<br>`. */
  lemma CellRoundTrip(markdown: string)
    requires Sealed(markdown) && '\n' !in markdown
    ensures NormalizeImportedCell(ClipboardCellValue(markdown)) == markdown <==> PlainBreaks(markdown)
  {
    var x := BreaksToNewlines(markdown);
    var y := NewlinesToBreaks(x);
    UnescapeCommutes(x);
    BreaksReturn(markdown);
    BreaksKeepSealed(markdown);
    EscapeUndoesUnescape(y);
  }

  /** Respelling line breaks keeps every pipe escaped: `prefix + s` is the old text, `p` what
      has become of `prefix`. */
  lemma {:induction false} RespelledTail(prefix: string, p: string, s: string)
    requires Sealed(prefix + s) && '\n' !in s && Sealed(p) && TailRun(p) == TailRun(prefix)
    ensures Sealed(p + NewlinesToBreaks(BreaksToNewlines(s)))
    decreases |s|
  {
    if s == "" {
      assert p + "" == p;
    } else {
      var n := BreakLength(s);
      var m := if n > 0 then n else 1;
      var piece := if n > 0 then "<br>" else [s[0]];
      var rest := BreaksToNewlines(s[m..]);
      assert NewlinesToBreaks(BreaksToNewlines(s)) == piece + NewlinesToBreaks(rest) by {
        CutConcat(if n > 0 then "\n" else [s[0]], rest);
      }
      TakeDrop(s, m);
      Assoc(prefix, s[..m], s[m..]);
      Assoc(p, piece, NewlinesToBreaks(rest));
      RespelledPiece(prefix, p, s, n);
      RespelledTail(prefix + s[..m], p + piece, s[m..]);
    }
  }

  lemma RespelledPiece(prefix: string, p: string, s: string, n: nat)
    requires s != "" && n <= |s| && (n > 0 ==> s[n - 1] == '>')
    requires Sealed(prefix + s) && Sealed(p) && TailRun(p) == TailRun(prefix)
    ensures n > 0 ==> Sealed(p + "<br>") && TailRun(p + "<br>") == TailRun(prefix + s[..n])
    ensures n == 0 ==> Sealed(p + [s[0]]) && TailRun(p + [s[0]]) == TailRun(prefix + s[..1])
  {
    if n > 0 {
      BreakAppended(p);
      assert prefix + s[..n] == prefix + s[..n - 1] + [s[n - 1]];
      TailRunSnoc(prefix + s[..n - 1], s[n - 1]);
    } else {
      assert s[..1] == [s[0]];
      assert (prefix + s)[..|prefix|] == prefix && (prefix + s)[|prefix|] == s[0];
      SealedSnoc(p, s[0]);
      TailRunSnoc(prefix, s[0]);
      TailRunSnoc(p, s[0]);
    }
  }

  lemma BreakAppended(p: string)
    requires Sealed(p)
    ensures Sealed(p + "<br>") && TailRun(p + "<br>") == 0
  {
    SealedSnoc(p, '<');
    SealedSnoc(p + "<", 'b');
    SealedSnoc(p + "<" + "b", 'r');
    SealedSnoc(p + "<" + "b" + "r", '>');
    assert p + "<br>" == p + "<" + "b" + "r" + ">";
    TailRunSnoc(p + "<" + "b" + "r", '>');
  }

  lemma BreaksKeepSealed(markdown: string)
    requires Sealed(markdown) && '\n' !in markdown
    ensures Sealed(NewlinesToBreaks(BreaksToNewlines(markdown)))
  {
    assert "" + markdown == markdown;
    RespelledTail("", "", markdown);
    assert "" + NewlinesToBreaks(BreaksToNewlines(markdown)) == NewlinesToBreaks(BreaksToNewlines(markdown));
    assert Sealed("");
  }
}
