/** Rows without one of their outer pipes: when a blank cell at that end is lost. */
module RowEnds {
  import opened Seqs
  import opened Text
  import opened Containers
  import opened MarkdownTable
  import opened TableText
  import opened TableEdits

  // ---------------------------------------------------------------- visible text at the ends

  /** The pipes of a sealed part stay escaped behind a pipe or at the start of a text. */
  lemma {:induction false} SealedBehindPipe(head: string, s: string, k: nat, at: nat)
    requires Sealed(s) && k < |s| && at == |head| + 1 + k
    ensures !IsBarePipe(head + "|" + s, at)
  {
    var t := head + "|" + s;
    assert t[at] == s[k];
    assert t[..at] == head + ['|'] + s[..k];
    TailRunCut(head, '|', s[..k]);
  }

  /** A text that ends with white space right behind `core` ends, visibly, with the last character of `core`. */
  lemma LastVisible(head: string, s: string)
    requires Trim(s) != ""
    ensures TrailingSpace(head + s) == TrailingSpace(s) < |s|
  {
    TrimBounds(s);
    var t, n := head + s, TrailingSpace(s);
    VisibleSomewhere(s);
    forall i | |t| - n <= i < |t| ensures IsSpace(t[i]) {
      assert t[i] == s[i - |head|];
    }
    assert t[|t| - n - 1] == s[|s| - n - 1];
    TrailingUnique(t, n);
  }

  lemma VisibleSomewhere(s: string)
    requires Trim(s) != ""
    ensures LeadingSpace(s) < |s| && TrailingSpace(s) < |s|
  {
  }

  lemma FirstVisible(s: string, rest: string)
    requires Trim(s) != ""
    ensures LeadingSpace(s + rest) == LeadingSpace(s) < |s|
  {
    VisibleSomewhere(s);
    var t, n := s + rest, LeadingSpace(s);
    forall i | 0 <= i < n ensures IsSpace(t[i]) {
      assert t[i] == s[i];
    }
    LeadingUnique(t, n);
  }

  lemma BlankIsSpace(s: string)
    requires Trim(s) == ""
    ensures AllSpace(s)
  {
    TrimParts(s);
    AllSpaceConcat(s[..LeadingSpace(s)], s[TrimEnd(s)..]);
    assert s[..LeadingSpace(s)] + "" + s[TrimEnd(s)..] == s[..LeadingSpace(s)] + s[TrimEnd(s)..];
  }

  /** A sealed text that ends visibly has no trailing pipe, also behind other cells. */
  lemma NoTrailingPipe(s: string)
    requires Sealed(s) && Trim(s) != ""
    ensures CutTrailingPipe(s) == Trailing(s, false, "")
  {
    VisibleSomewhere(s);
  }

  lemma {:induction false} NoTrailingPipeBehind(head: string, s: string)
    requires Sealed(s) && Trim(s) != ""
    ensures CutTrailingPipe(head + "|" + s) == Trailing(head + "|" + s, false, "")
  {
    var t := head + "|" + s;
    LastVisible(head + "|", s);
    var k, last := |s| - TrailingSpace(s) - 1, |t| - TrailingSpace(t) - 1;
    SealedBehindPipe(head, s, k, last);
  }

  lemma BlankHasNoPipe(s: string)
    requires AllSpace(s)
    ensures CutTrailingPipe(s) == Trailing(s, false, "") && Split(s) == [s]
  {
    TrailingUnique(s, |s|);
    assert forall i :: 0 <= i < |s| ==> IsSpace(s[i]);
    SplitSealed(s);
  }

  // ---------------------------------------------------------------- the cells read from the inner text

  /** The last part stands behind the others and a pipe. */
  lemma JoinLast(parts: seq<string>)
    requires |parts| > 1
    ensures var m := |parts| - 1; Join(parts, "|") == Join(parts[..m], "|") + "|" + parts[m]
  {
    var m := |parts| - 1;
    JoinAppend(parts[..m], [parts[m]], "|");
    SplitSnoc(parts);
    assert Join([parts[m]], "|") == parts[m];
  }

  lemma GoodInit(parts: seq<string>)
    requires GoodSegments(parts) && |parts| > 1
    ensures GoodSegments(parts[..|parts| - 1]) && !OddTail(Join(parts[..|parts| - 1], "|"))
  {
    var init := parts[..|parts| - 1];
    SplitOfJoin(init);
    SplitParts(Join(init, "|"));
    assert init[|init| - 1] == parts[|init| - 1];
  }

  /** The parts that are read of a row that has no trailing pipe. */
  function ReadOpenEnd(parts: seq<string>): seq<string>
    requires parts != []
  {
    var m := |parts| - 1;
    if m == 0 || Trim(parts[m]) != "" then parts else parts[..m]
  }

  lemma PartsRead(parts: seq<string>)
    requires GoodSegments(parts)
    ensures Split(CutTrailingPipe(Join(parts, "|")).cells) == ReadOpenEnd(parts)
  {
    var m := |parts| - 1;
    var last := parts[m];
    SplitOfJoin(parts);
    if m == 0 {
      if Trim(last) != "" {
        NoTrailingPipe(last);
      } else {
        BlankIsSpace(last);
        BlankHasNoPipe(last);
      }
    } else {
      var head := Join(parts[..m], "|");
      JoinLast(parts);
      GoodInit(parts);
      if Trim(last) != "" {
        NoTrailingPipeBehind(head, last);
      } else {
        BlankIsSpace(last);
        BodyEnd(head, last);
        SplitOfJoin(parts[..m]);
      }
    }
  }

  // ---------------------------------------------------------------- rows without a trailing pipe

  /** Of a row without a trailing pipe all cells are read back, but for a blank last one behind other cells. */
  lemma OpenEndCells(row: Row)
    requires row.leadingPipe && !row.trailingPipe && row.suffix == "" && GoodSegments(Raws(row.cells))
    requires PrefixFits(row.prefix, Join(Raws(row.cells), "|"))
    ensures ParseRow(SerializeRow(row)).cells == ParseCells(ReadOpenEnd(Raws(row.cells)))
  {
    var body := Join(Raws(row.cells), "|");
    var line := row.prefix + "|" + body;
    assert SerializeRow(row) == line;
    StablePrefixRead(row.prefix, body);
    HeadAfterPrefix(row.prefix, body, SplitPrefix(line));
    PartsRead(Raws(row.cells));
  }

  lemma HeadAfterPrefix(prefix: string, rest: string, split: Prefixed)
    requires ReadAs(prefix, rest, split)
    ensures CutLeadingPipe(split) == Leading(prefix, true, rest)
  {
    var e :| 0 <= e <= |prefix| && AllSpace(prefix[e..]) && split == Prefixed(prefix[..e], prefix[e..] + ("|" + rest));
    LeadingPipeRead(prefix[..e], prefix[e..], rest);
    TakeDrop(prefix, e);
  }

  /** The number of cells is kept if and only if the last cell is not blank, or is the only one. */
  lemma LastCellKeptIff(row: Row)
    requires row.leadingPipe && !row.trailingPipe && row.suffix == "" && GoodSegments(Raws(row.cells))
    requires PrefixFits(row.prefix, Join(Raws(row.cells), "|"))
    ensures |ParseRow(SerializeRow(row)).cells| == |row.cells|
       <==> |row.cells| == 1 || Trim(Raw(row.cells[|row.cells| - 1])) != ""
  {
    OpenEndCells(row);
  }

  // ---------------------------------------------------------------- rows without a leading pipe

  /** How a line is split: at its first visible character if that is a pipe, else behind the container. */
  predicate SplitsAt(line: string, c: nat, split: Prefixed) {
    && c <= |line| && '|' !in line[..c]
    && var first := LeadingSpace(line);
       var k := if first < |line| && line[first] == '|' then first else c;
       split == Prefixed(line[..k], line[k..])
  }

  lemma {:induction false} SplitsAtContainer(line: string)
    ensures SplitsAt(line, ContainerEnd(line), SplitPrefix(line))
  {
    ContainerHasNoPipe(line);
  }

  /** A blank first cell turns the pipe behind it into the leading pipe. */
  lemma {:induction false} BlankHead(line: string, split: Prefixed, p: string, blank: string, rest: string)
    requires line == p + (blank + ("|" + rest)) && SplitsAt(line, |p|, split) && AllSpace(blank)
    ensures CutLeadingPipe(split) == Leading(p + blank, true, rest)
  {
    var first := LeadingSpace(line);
    CutConcat(p, blank + ("|" + rest));
    if first < |line| && line[first] == '|' {
      FirstPipe(line, p, blank, rest);
      Assoc(p, blank, "|" + rest);
      CutConcat(p + blank, "|" + rest);
      LeadingPipeRead(p + blank, "", rest);
      assert split == Prefixed(p + blank, "" + ("|" + rest));
      assert p + blank + "" == p + blank;
    } else {
      assert split == Prefixed(p, blank + ("|" + rest));
      LeadingPipeRead(p, blank, rest);
    }
  }

  lemma {:induction false} FirstPipe(line: string, p: string, blank: string, rest: string)
    requires line == p + (blank + ("|" + rest)) && AllSpace(blank) && '|' !in line[..|p|]
    requires var first := LeadingSpace(line); first < |line| && line[first] == '|'
    ensures LeadingSpace(line) == |p + blank|
  {
    var first := LeadingSpace(line);
    assert forall i :: 0 <= i < |p| ==> line[i] == line[..|p|][i];
    assert forall i :: |p| <= i < |p| + |blank| ==> line[i] == blank[i - |p|];
    assert line[|p| + |blank|] == '|';
  }

  /** A pipe that is the first visible character of the line is that of the text. */
  lemma {:induction false} PipeIsBare(line: string, p: string, text: string)
    requires line == p + text && '|' !in line[..|p|]
    requires var first := LeadingSpace(line); first < |line| && line[first] == '|'
    ensures IsBarePipe(text, LeadingSpace(text))
  {
    var first := LeadingSpace(line);
    assert forall i :: 0 <= i < |p| ==> line[i] == line[..|p|][i];
    var k := first - |p|;
    assert forall i :: 0 <= i < k ==> text[i] == line[|p| + i];
    assert text[k] == line[first];
    LeadingUnique(text, k);
    TailRunAfterSpace(text[..k], "");
    assert text[..k] + "" == text[..k];
  }

  /** A visible first cell leaves the prefix as it is. */
  lemma {:induction false} VisibleHead(line: string, split: Prefixed, p: string, text: string)
    requires line == p + text && SplitsAt(line, |p|, split) && !IsBarePipe(text, LeadingSpace(text))
    ensures CutLeadingPipe(split) == Leading(p, false, text)
  {
    var first := LeadingSpace(line);
    CutConcat(p, text);
    if first < |line| && line[first] == '|' {
      PipeIsBare(line, p, text);
    }
  }

  /** The first part stands before the others. */
  lemma {:induction false} VisibleStart(parts: seq<string>, tail: string)
    requires GoodSegments(parts) && Trim(parts[0]) != ""
    ensures var text := Join(parts, "|") + tail; !IsBarePipe(text, LeadingSpace(text))
  {
    var first := parts[0];
    var rest := TextAfter(parts, 0, "|") + tail;
    var text := Join(parts, "|") + tail;
    JoinTail(parts, "|");
    assert text == first + rest;
    FirstVisible(first, rest);
    var k := LeadingSpace(first);
    assert text[..k] == first[..k] && text[k] == first[k];
  }

  lemma RegroupStart<T>(a: seq<T>, b: seq<T>, c: seq<T>, d: seq<T>)
    ensures a + b + c + d == a + (b + (c + d))
  {
  }

  lemma {:induction false} BlankStart(parts: seq<string>, suffix: string)
    requires |parts| > 1
    ensures Join(parts, "|") + ("|" + suffix) == parts[0] + ("|" + (Join(parts[1..], "|") + ("|" + suffix)))
  {
    JoinAppend([parts[0]], parts[1..], "|");
    Uncons(parts);
    assert Join([parts[0]], "|") == parts[0];
    RegroupStart(parts[0], "|", Join(parts[1..], "|"), "|" + suffix);
  }

  lemma GoodTail(parts: seq<string>)
    requires GoodSegments(parts) && |parts| > 1
    ensures GoodSegments(parts[1..])
  {
  }

  /** The parts before a trailing pipe are all read. */
  lemma {:induction false} ClosedPartsRead(parts: seq<string>, suffix: string)
    requires GoodSegments(parts) && !OddTail(parts[|parts| - 1]) && AllSpace(suffix)
    ensures Split(CutTrailingPipe(Join(parts, "|") + ("|" + suffix)).cells) == parts
  {
    SplitOfJoin(parts);
    SplitParts(Join(parts, "|"));
    Assoc(Join(parts, "|"), "|", suffix);
    BodyEnd(Join(parts, "|"), suffix);
  }

  /** The parts that are read of a row that has no leading pipe. */
  function ReadOpenStart(parts: seq<string>, suffix: string): seq<string>
    requires parts != []
  {
    if Trim(parts[0]) != "" then parts else if |parts| == 1 then [suffix] else parts[1..]
  }

  /** The parts that are read behind the prefix. */
  function InnerParts(split: Prefixed): seq<string> {
    Split(CutTrailingPipe(CutLeadingPipe(split).inner).cells)
  }

  lemma {:induction false} CellsRead(line: string, split: Prefixed, parts: seq<string>)
    requires split == SplitPrefix(line) && parts == InnerParts(split)
    ensures ParseRow(line).cells == ParseCells(parts)
  {
  }

  lemma {:induction false} OpenStartParts(line: string, split: Prefixed, p: string, parts: seq<string>, suffix: string)
    requires GoodSegments(parts) && !OddTail(parts[|parts| - 1]) && AllSpace(suffix)
    requires line == p + (Join(parts, "|") + ("|" + suffix)) && SplitsAt(line, |p|, split)
    ensures InnerParts(split) == ReadOpenStart(parts, suffix)
  {
    if Trim(parts[0]) != "" {
      VisibleStart(parts, "|" + suffix);
      VisibleHead(line, split, p, Join(parts, "|") + ("|" + suffix));
      ClosedPartsRead(parts, suffix);
    } else {
      BlankIsSpace(parts[0]);
      if |parts| == 1 {
        BlankHead(line, split, p, parts[0], suffix);
        BlankHasNoPipe(suffix);
      } else {
        BlankStart(parts, suffix);
        BlankHead(line, split, p, parts[0], Join(parts[1..], "|") + ("|" + suffix));
        GoodTail(parts);
        ClosedPartsRead(parts[1..], suffix);
      }
    }
  }

  /** A row that is written without a leading pipe. */
  predicate OpenStart(row: Row) {
    && !row.leadingPipe && row.trailingPipe && AllSpace(row.suffix) && GoodSegments(Raws(row.cells))
    && !OddTail(Raw(row.cells[|row.cells| - 1]))
  }

  lemma PrintedOpenStart(row: Row)
    requires !row.leadingPipe && row.trailingPipe
    ensures SerializeRow(row) == row.prefix + (Join(Raws(row.cells), "|") + ("|" + row.suffix))
  {
  }

  /** Of a row without a leading pipe, whose prefix is the container part of its line, all cells are read back,
      but for a blank first one before other cells. */
  lemma {:induction false} OpenStartCells(row: Row)
    requires OpenStart(row) && ContainerEnd(SerializeRow(row)) == |row.prefix|
    ensures ParseRow(SerializeRow(row)).cells == ParseCells(ReadOpenStart(Raws(row.cells), row.suffix))
  {
    PrintedOpenStart(row);
    OpenStartRead(SerializeRow(row), row.prefix, Raws(row.cells), row.suffix);
  }

  lemma {:induction false} OpenStartRead(line: string, p: string, parts: seq<string>, suffix: string)
    requires GoodSegments(parts) && !OddTail(parts[|parts| - 1]) && AllSpace(suffix)
    requires line == p + (Join(parts, "|") + ("|" + suffix)) && ContainerEnd(line) == |p|
    ensures ParseRow(line).cells == ParseCells(ReadOpenStart(parts, suffix))
  {
    var split := SplitPrefix(line);
    SplitsAtContainer(line);
    OpenStartParts(line, split, p, parts, suffix);
    CellsRead(line, split, ReadOpenStart(parts, suffix));
  }

  /** The number of cells is kept if and only if the first cell is not blank, or is the only one. */
  lemma {:induction false} FirstCellKeptIff(row: Row)
    requires OpenStart(row) && ContainerEnd(SerializeRow(row)) == |row.prefix|
    ensures |ParseRow(SerializeRow(row)).cells| == |row.cells|
       <==> |row.cells| == 1 || Trim(Raw(row.cells[0])) != ""
  {
    OpenStartCells(row);
  }

  // ---------------------------------------------------------------- rows without either pipe

  /** The parts that are read of a row that has neither outer pipe. */
  function ReadOpenBoth(parts: seq<string>): seq<string>
    requires parts != []
  {
    ReadOpenEnd(if |parts| == 1 || Trim(parts[0]) != "" then parts else parts[1..])
  }

  lemma JoinHead(parts: seq<string>)
    requires |parts| > 1
    ensures Join(parts, "|") == parts[0] + ("|" + Join(parts[1..], "|"))
  {
    JoinAppend([parts[0]], parts[1..], "|");
    Uncons(parts);
    Assoc(parts[0], "|", Join(parts[1..], "|"));
    assert Join([parts[0]], "|") == parts[0];
  }

  lemma {:induction false} OpenParts(line: string, split: Prefixed, p: string, parts: seq<string>)
    requires GoodSegments(parts) && line == p + Join(parts, "|") && SplitsAt(line, |p|, split)
    ensures InnerParts(split) == ReadOpenBoth(parts)
  {
    var text := Join(parts, "|");
    assert text + "" == text;
    if Trim(parts[0]) != "" {
      VisibleStart(parts, "");
      VisibleHead(line, split, p, text);
      PartsRead(parts);
    } else {
      BlankIsSpace(parts[0]);
      if |parts| == 1 {
        LeadingUnique(text, |text|);
        VisibleHead(line, split, p, text);
        PartsRead(parts);
      } else {
        JoinHead(parts);
        BlankHead(line, split, p, parts[0], Join(parts[1..], "|"));
        GoodTail(parts);
        PartsRead(parts[1..]);
      }
    }
  }

  /** Of a row without either pipe, whose prefix is the container part of its line, all cells are read back, but for
      a blank first one and a blank last one beside other cells. */
  lemma {:induction false} OpenBothCells(row: Row)
    requires !row.leadingPipe && !row.trailingPipe && row.suffix == "" && GoodSegments(Raws(row.cells))
    requires ContainerEnd(SerializeRow(row)) == |row.prefix|
    ensures ParseRow(SerializeRow(row)).cells == ParseCells(ReadOpenBoth(Raws(row.cells)))
  {
    PrintedOpen(row);
    OpenBothRead(SerializeRow(row), row.prefix, Raws(row.cells));
  }

  lemma PrintedOpen(row: Row)
    requires !row.leadingPipe && !row.trailingPipe && row.suffix == ""
    ensures SerializeRow(row) == row.prefix + Join(Raws(row.cells), "|")
  {
  }

  lemma {:induction false} OpenBothRead(line: string, p: string, parts: seq<string>)
    requires GoodSegments(parts) && line == p + Join(parts, "|") && ContainerEnd(line) == |p|
    ensures ParseRow(line).cells == ParseCells(ReadOpenBoth(parts))
  {
    var split := SplitPrefix(line);
    SplitsAtContainer(line);
    OpenParts(line, split, p, parts);
    CellsRead(line, split, ReadOpenBoth(parts));
  }

  /** The number of cells is kept if and only if neither the first nor the last cell is blank, or there is one cell. */
  lemma {:induction false} BothCellsKeptIff(row: Row)
    requires !row.leadingPipe && !row.trailingPipe && row.suffix == "" && GoodSegments(Raws(row.cells))
    requires ContainerEnd(SerializeRow(row)) == |row.prefix|
    ensures |ParseRow(SerializeRow(row)).cells| == |row.cells|
       <==> |row.cells| == 1 || (Trim(Raw(row.cells[0])) != "" && Trim(Raw(row.cells[|row.cells| - 1])) != "")
  {
    OpenBothCells(row);
    CountOpenBoth(Raws(row.cells));
  }

  lemma {:induction false} CountOpenBoth(parts: seq<string>)
    requires parts != []
    ensures |ReadOpenBoth(parts)| == |parts|
       <==> |parts| == 1 || (Trim(parts[0]) != "" && Trim(parts[|parts| - 1]) != "")
  {
  }

  // ---------------------------------------------------------------- one row of each kind

  lemma PlainParts(a: string, b: string)
    requires '|' !in a && '\\' !in a && '|' !in b && '\\' !in b
    ensures GoodSegments([a, b]) && !OddTail(b)
  {
  }

  lemma BlankTwo()
    ensures AllSpace("  ") && Trim("  ") == ""
  {
    LeadingUnique("  ", 2);
  }

  /** Without the trailing pipe a blank last cell is read back as a missing one. */
  lemma {:induction false} BlankCellNeedsOuterPipe()
    ensures var row := Row("", true, false, "", [CanonicalCell("a"), CanonicalCell("")]);
            |ParseRow(SerializeRow(row)).cells| == 1
  {
    var row := Row("", true, false, "", [CanonicalCell("a"), CanonicalCell("")]);
    BlankTwo();
    PlainParts(" a ", "  ");
    var parts := Raws(row.cells);
    assert |parts| == 2 && parts[0] == " a " && parts[1] == "  ";
    assert parts == [" a ", "  "];
    OpenEndCells(row);
  }

  /** And without the leading pipe a blank first cell. */
  lemma {:induction false} BlankCellNeedsLeadingPipe()
    ensures var row := Row("", false, true, "", [CanonicalCell(""), CanonicalCell("a")]);
            |ParseRow(SerializeRow(row)).cells| == 1
  {
    var row := Row("", false, true, "", [CanonicalCell(""), CanonicalCell("a")]);
    BlankTwo();
    PlainParts("  ", " a ");
    var parts := Raws(row.cells);
    assert |parts| == 2 && parts[0] == "  " && parts[1] == " a ";
    assert parts == ["  ", " a "];
    var line := SerializeRow(row);
    PrintedOpenStart(row);
    NoContainer(line);
    OpenStartRead(line, "", parts, "");
  }

  lemma {:induction false} NoContainer(line: string)
    requires |line| > 2 && line[0] == ' ' && line[1] == ' ' && line[2] == '|'
    ensures ContainerEnd(line) == 0
  {
    SkipBlanksIs(line, 0, 2);
  }
}
