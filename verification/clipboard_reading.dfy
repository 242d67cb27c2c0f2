/** Clipboard texts that are no delimiter-separated grid, and line endings inside of pasted values. */
module ClipboardReading {
  import opened Seqs
  import opened Text
  import opened Lines
  import opened Delimited
  import opened Clipboard
  import opened Paste

  function OnePerLine(lines: seq<string>): (grid: TextGrid)
    ensures |grid| == |lines|
  {
    seq(|lines|, i requires 0 <= i < |lines| => [NormalizeImportedCell(lines[i])])
  }

  lemma {:induction false} NotSeen(text: string, delimiter: char, quoted: bool)
    requires delimiter !in text
    ensures !UnquotedFrom(text, delimiter, quoted)
    decreases |text|
  {
    if text != "" {
      NotSeen(text[1..], delimiter, quoted);
      NotSeen(text[1..], delimiter, !quoted);
      if |text| > 1 {
        NotSeen(text[2..], delimiter, quoted);
      }
    }
  }

  lemma {:induction false} SplitJoined(lines: seq<string>)
    requires lines != [] && forall i :: 0 <= i < |lines| ==> '\n' !in lines[i]
    ensures SplitLines(Join(lines, "\n")) == lines
  {
    if |lines| == 1 {
      SplitLinesSingle(lines[0]);
    } else {
      SplitJoined(lines[1..]);
      SplitLinesCut(lines[0], Join(lines[1..], "\n"));
      Uncons(lines);
    }
  }

  lemma {:induction false} NotJoined(lines: seq<string>, c: char)
    requires c != '\n' && forall i :: 0 <= i < |lines| ==> c !in lines[i]
    ensures c !in Join(lines, "\n")
  {
    if |lines| > 1 {
      NotJoined(lines[1..], c);
    }
  }

  predicate SimpleLine(line: string) {
    '\n' !in line && '\r' !in line && '\t' !in line && ',' !in line
  }

  /** Lines without tabs and commas are read one cell per line, whatever the line endings, quotes included. */
  lemma {:induction false} LinesRead(lines: seq<string>, ending: string)
    requires lines != [] && IsEnding(ending) && forall i :: 0 <= i < |lines| ==> SimpleLine(lines[i])
    ensures ParseClipboard(Terminate(lines, ending, true)) == OnePerLine(lines)
    ensures |lines| == 1 || lines[|lines| - 1] != "" ==> ParseClipboard(Terminate(lines, ending, false)) == OnePerLine(lines)
  {
    TerminatedRead(lines, ending, true);
    TerminatedRead(lines, ending, false);
    TrailingJoin(lines, "\n");
    assert Join(lines, "\n") + "" == Join(lines, "\n");
    assert (lines + [""])[..|lines|] == lines;
    JoinedRead(lines + [""], lines);
    if |lines| == 1 || lines[|lines| - 1] != "" {
      JoinedRead(lines, lines);
    }
  }

  lemma {:induction false} JoinedRead(lines: seq<string>, kept: seq<string>)
    requires lines != [] && forall i :: 0 <= i < |lines| ==> SimpleLine(lines[i])
    requires kept == if |lines| > 1 && lines[|lines| - 1] == "" then lines[..|lines| - 1] else lines
    ensures forall text :: NormalizeReturns(text) == Join(lines, "\n") ==> ParseClipboard(text) == OnePerLine(kept)
  {
    SplitJoined(lines);
    NotJoined(lines, '\t');
    NotJoined(lines, ',');
    NotSeen(Join(lines, "\n"), '\t', false);
    NotSeen(Join(lines, "\n"), ',', false);
  }

  // ---------------------------------------------------------------- quotes that do not fit

  lemma {:induction false} StaysInvalid(text: string, delimiter: char, st: Scan)
    requires !st.valid
    ensures !ScanText(text, delimiter, st).valid
    decreases |text|
  {
    if text != "" {
      if st.quoted && text[0] == '"' && |text| > 1 && text[1] == '"' {
        StaysInvalid(text[2..], delimiter, st.(value := st.value + "\""));
      } else if st.quoted && text[0] == '"' {
        StaysInvalid(text[1..], delimiter, st.(quoted := false, quoteClosed := true));
      } else if st.quoted {
        StaysInvalid(text[1..], delimiter, st.(value := st.value + [text[0]]));
      } else {
        StaysInvalid(text[1..], delimiter, Plain(st, text[0], delimiter));
      }
    }
  }

  /** Text behind a closing quote makes the comma reader give up. */
  lemma {:induction false} BehindQuoteInvalid(value: string, c: char, rest: string)
    requires c != ',' && c != '\n' && c != '"'
    ensures !ParseDelimited("\"" + DoubleQuotes(value) + "\"" + [c] + rest, ',').valid
  {
    var tail := [c] + rest;
    var body := DoubleQuotes(value) + ("\"" + tail);
    var text := "\"" + DoubleQuotes(value) + "\"" + [c] + rest;
    assert text == "\"" + body;
    assert ("\"" + body)[1..] == body;
    var inside := START.(quoted := true);
    ScanQuoted(value, tail, ',', inside);
    var closed := inside.(value := inside.value + value, quoted := false, quoteClosed := true);
    assert tail[1..] == rest;
    StaysInvalid(rest, ',', Plain(closed, c, ','));
  }

  /** Such a line is read as it stands, although it has a comma. */
  lemma {:induction false} MisquotedRead(value: string, c: char, rest: string, line: string)
    requires c != ',' && c != '"' && line == "\"" + DoubleQuotes(value) + "\"" + [c] + rest
    requires '\n' !in line && '\r' !in line && '\t' !in line
    ensures ParseClipboard(line) == [[NormalizeImportedCell(line)]]
  {
    assert line[|"\"" + DoubleQuotes(value) + "\""|] == c;
    BehindQuoteInvalid(value, c, rest);
    NoReturns(line);
    NotSeen(line, '\t', false);
    SplitLinesSingle(line);
  }

  // ---------------------------------------------------------------- line endings inside of values

  /** A line break inside of a pasted value is written `<br>`, in either style. */
  lemma {:induction false} ValueBreaks(s: string)
    requires '\r' !in s
    ensures PastedText(Expand(s, "\r\n")) == PastedText(s) == EscapeCell(NewlinesToBreaks(s))
  {
    BreaksOf(s);
  }

  lemma {:induction false} BreaksOf(s: string)
    requires '\r' !in s
    ensures LineEndsToBreaks(Expand(s, "\r\n")) == LineEndsToBreaks(s) == NewlinesToBreaks(s)
  {
    if s != "" {
      BreaksOf(s[1..]);
      var rest := Expand(s[1..], "\r\n");
      if s[0] == '\n' {
        assert ("\r\n" + rest)[2..] == rest;
      } else {
        assert ([s[0]] + rest)[1..] == rest;
      }
    }
  }
}
