/** Copying a selection that is one column wide and pasting it in place. */
module ColumnPaste {
  import opened Seqs
  import opened Text
  import opened Lines
  import opened MarkdownTable
  import opened TableEdits
  import opened Delimited
  import opened Clipboard
  import opened Paste

  // ---------------------------------------------------------------- the copied text

  /** The value is put in quotes when it is copied. */
  predicate Quoted(v: string) {
    NeedsQuotes(v, '\t')
  }

  function ColumnGrid(values: seq<string>): (grid: TextGrid)
    ensures |grid| == |values|
  {
    seq(|values|, i requires 0 <= i < |values| => [values[i]])
  }

  function Column(values: seq<string>): string {
    WriteGrid(ColumnGrid(values), '\t')
  }

  lemma ColumnOne(v: string)
    ensures Column([v]) == QuoteCell(v, '\t')
  {
    assert WriteRows(ColumnGrid([v]), '\t') == [WriteRow([v], '\t')];
  }

  lemma ColumnCons(values: seq<string>)
    requires |values| > 1
    ensures Column(values) == QuoteCell(values[0], '\t') + ("\n" + Column(values[1..]))
  {
    assert ColumnGrid(values)[1..] == ColumnGrid(values[1..]);
    WriteGridCons(ColumnGrid(values), '\t');
  }

  /** The tab reader is never chosen: a written value shows no tab. */
  lemma SkipCell(v: string, tail: string)
    requires tail == "" || tail[0] != '"'
    ensures UnquotedFrom(QuoteCell(v, '\t') + tail, '\t', false) == UnquotedFrom(tail, '\t', false)
  {
    if Quoted(v) {
      var body := DoubleQuotes(v) + ("\"" + tail);
      Assoc("\"" + DoubleQuotes(v), "\"", tail);
      Assoc("\"", DoubleQuotes(v), "\"" + tail);
      assert QuoteCell(v, '\t') + tail == "\"" + body;
      assert ("\"" + body)[1..] == body;
      SkipQuoted(v, tail, '\t');
    } else {
      SkipPlain(v, tail, '\t');
    }
  }

  lemma {:induction false} NoTabSeen(values: seq<string>)
    requires values != []
    ensures !UnquotedFrom(Column(values), '\t', false)
  {
    if |values| == 1 {
      ColumnOne(values[0]);
      assert values == [values[0]];
      SkipCell(values[0], "");
      assert QuoteCell(values[0], '\t') + "" == QuoteCell(values[0], '\t');
    } else {
      ColumnCons(values);
      NoTabSeen(values[1..]);
      SkipCell(values[0], "\n" + Column(values[1..]));
      assert ("\n" + Column(values[1..]))[1..] == Column(values[1..]);
    }
  }

  // ---------------------------------------------------------------- what the comma reader makes of it

  function SplitCommas(v: string): (parts: seq<string>)
    ensures parts != []
  {
    if v == "" then [""]
    else
      var rest := SplitCommas(v[1..]);
      if v[0] == ',' then [""] + rest else [[v[0]] + rest[0]] + rest[1..]
  }

  function Commas(v: string): nat {
    if v == "" then 0 else (if v[0] == ',' then 1 else 0) + Commas(v[1..])
  }

  predicate Plain(v: string) {
    '"' !in v && '\n' !in v
  }

  lemma {:induction false} CommaParts(v: string)
    requires Plain(v)
    ensures |SplitCommas(v)| == Commas(v) + 1 && Join(SplitCommas(v), ",") == v
    ensures forall i :: 0 <= i < |SplitCommas(v)| ==> Plain(SplitCommas(v)[i]) && ',' !in SplitCommas(v)[i]
    ensures SplitCommas(v) == [""] <==> v == ""
  {
    if v != "" {
      CommaParts(v[1..]);
      var rest := SplitCommas(v[1..]);
      Uncons(v);
      if v[0] == ',' {
        assert ([""] + rest)[1..] == rest;
      } else {
        var parts := [[v[0]] + rest[0]] + rest[1..];
        assert parts[1..] == rest[1..];
        if |rest| > 1 {
          Assoc4([v[0]], rest[0], ",", Join(rest[1..], ","));
          Assoc([v[0]], rest[0], ",");
        }
      }
    }
  }

  /** The values that the comma reader makes of a line. */
  function Fields(v: string): (fields: seq<string>)
    ensures fields != []
  {
    if Quoted(v) then [v] else SplitCommas(v)
  }

  lemma PlainLine(v: string)
    requires !Quoted(v)
    ensures WriteRow(Fields(v), ',') == QuoteCell(v, '\t')
  {
    CommaParts(v);
    var parts := SplitCommas(v);
    forall i | 0 <= i < |parts| ensures QuoteCells(parts, ',')[i] == parts[i] {
      assert Plain(parts[i]) && ',' !in parts[i];
    }
    assert QuoteCells(parts, ',') == parts;
  }

  /** A quoted value is read back whatever the delimiter. */
  lemma ScanQuotedCell(v: string, tail: string, st: Scan)
    requires Fresh(st) && (tail == "" || tail[0] == '\n')
    ensures ScanText("\"" + DoubleQuotes(v) + "\"" + tail, ',', st) == ScanText(tail, ',', st.(value := v, quoteClosed := true))
  {
    var body := DoubleQuotes(v) + ("\"" + tail);
    Assoc("\"" + DoubleQuotes(v), "\"", tail);
    Assoc("\"", DoubleQuotes(v), "\"" + tail);
    TailConcat("\"", body);
    assert "\""[1..] + body == body;
    assert "" + v == v;
    ScanQuoted(v, tail, ',', st.(quoted := true));
  }

  lemma ScanLineThen(v: string, rest: string, st: Scan)
    requires Fresh(st)
    ensures ScanText(QuoteCell(v, '\t') + ("\n" + rest), ',', st)
         == ScanText(rest, ',', Scan(AppendValues(st.rows, Fields(v)) + [[]], "", false, false, st.valid))
  {
    if Quoted(v) {
      ScanQuotedCell(v, "\n" + rest, st);
      assert ("\n" + rest)[1..] == rest;
      assert PushValue(st.rows, v) == AppendValues(st.rows, [v]);
    } else {
      PlainLine(v);
      ScanRowThen(Fields(v), rest, ',', st);
    }
  }

  lemma ScanLastLine(v: string, st: Scan)
    requires Fresh(st)
    ensures var r := ScanText(QuoteCell(v, '\t'), ',', st);
            !r.quoted && r.valid == st.valid && PushValue(r.rows, r.value) == AppendValues(st.rows, Fields(v))
  {
    if Quoted(v) {
      ScanQuotedCell(v, "", st);
      assert QuoteCell(v, '\t') == "\"" + DoubleQuotes(v) + "\"" + "";
    } else {
      PlainLine(v);
      ScanLastRow(Fields(v), ',', st);
    }
  }

  function FieldRows(values: seq<string>): (rows: TextGrid)
    ensures |rows| == |values|
  {
    seq(|values|, i requires 0 <= i < |values| => Fields(values[i]))
  }

  lemma FieldRowsCons(values: seq<string>)
    requires values != []
    ensures FieldRows(values) == [Fields(values[0])] + FieldRows(values[1..])
  {
  }

  lemma {:induction false} ScanColumn(done: TextGrid, values: seq<string>)
    requires values != []
    ensures var r := ScanText(Column(values), ',', Scan(done + [[]], "", false, false, true));
            !r.quoted && r.valid && PushValue(r.rows, r.value) == done + FieldRows(values)
    decreases |values|
  {
    var st := Scan(done + [[]], "", false, false, true);
    Snoc(done, []);
    NothingBefore(Fields(values[0]));
    var fields := Fields(values[0]);
    if |values| == 1 {
      assert values == [values[0]];
      ColumnOne(values[0]);
      ScanLastLine(values[0], st);
      assert FieldRows(values) == [fields];
    } else {
      ColumnCons(values);
      ScanLineThen(values[0], Column(values[1..]), st);
      ScanColumn(done + [fields], values[1..]);
      FieldRowsCons(values);
      Assoc(done, [fields], FieldRows(values[1..]));
    }
  }

  /** An empty last value is dropped, unless it is the only one. */
  function Kept(values: seq<string>): (kept: seq<string>)
    ensures values != [] ==> kept != []
    ensures |kept| <= |values| && forall i :: 0 <= i < |kept| ==> kept[i] == values[i]
  {
    if |values| > 1 && values[|values| - 1] == "" then values[..|values| - 1] else values
  }

  lemma EmptyField(v: string)
    ensures Fields(v) == [""] <==> v == ""
  {
    if !Quoted(v) {
      CommaParts(v);
    }
  }

  lemma {:induction false} KeptRows(values: seq<string>)
    requires values != []
    ensures var rows := FieldRows(values);
            FieldRows(Kept(values)) == if |rows| > 1 && rows[|rows| - 1] == [""] then rows[..|rows| - 1] else rows
  {
    EmptyField(values[|values| - 1]);
    assert FieldRows(values)[..|values| - 1] == FieldRows(values[..|values| - 1]);
  }

  lemma {:induction false} CommaReading(values: seq<string>)
    requires values != []
    ensures ParseDelimited(Column(values), ',') == ParsedText(true, FieldRows(Kept(values)))
  {
    var none: TextGrid := [];
    ScanColumn(none, values);
    NothingBefore(START.rows);
    NothingBefore(FieldRows(values));
    KeptRows(values);
  }

  /** The copied lines look like comma-separated text: none is quoted, and all have the same number of commas. */
  predicate LooksLikeCsv(values: seq<string>)
    requires values != []
  {
    var kept := Kept(values);
    Commas(kept[0]) > 0 && forall i :: 0 <= i < |kept| ==> !Quoted(kept[i]) && Commas(kept[i]) == Commas(kept[0])
  }

  lemma {:induction false} CommaSeen(v: string, tail: string)
    requires Plain(v) && Commas(v) > 0
    ensures UnquotedFrom(v + tail, ',', false)
  {
    TailConcat(v, tail);
    if v[0] != ',' {
      CommaSeen(v[1..], tail);
    }
  }

  lemma ColumnShowsComma(values: seq<string>)
    requires values != [] && !Quoted(values[0]) && Commas(values[0]) > 0
    ensures UnquotedFrom(Column(values), ',', false)
  {
    if |values| == 1 {
      assert values == [values[0]];
      ColumnOne(values[0]);
      CommaSeen(values[0], "");
      assert values[0] + "" == values[0];
    } else {
      ColumnCons(values);
      CommaSeen(values[0], "\n" + Column(values[1..]));
    }
  }

  lemma FieldCount(v: string)
    ensures |Fields(v)| == if Quoted(v) then 1 else Commas(v) + 1
  {
    if !Quoted(v) {
      CommaParts(v);
    }
  }

  predicate Wide(rows: TextGrid) {
    rows != [] && |rows[0]| > 1 && forall i :: 0 <= i < |rows| ==> |rows[i]| == |rows[0]|
  }

  lemma WideIffCsv(values: seq<string>)
    requires values != []
    ensures Wide(FieldRows(Kept(values))) <==> LooksLikeCsv(values)
  {
    var kept := Kept(values);
    var rows := FieldRows(kept);
    forall i | 0 <= i < |kept| ensures |rows[i]| == if Quoted(kept[i]) then 1 else Commas(kept[i]) + 1 {
      FieldCount(kept[i]);
    }
    if Wide(rows) {
      forall i | 0 <= i < |kept| ensures !Quoted(kept[i]) && Commas(kept[i]) == Commas(kept[0]) {
        assert |rows[i]| == |rows[0]|;
      }
    }
    if LooksLikeCsv(values) {
      forall i | 0 <= i < |rows| ensures |rows[i]| == |rows[0]| {
        assert !Quoted(kept[i]) && !Quoted(kept[0]);
      }
    }
  }

  /** One cell per line, as they stand. */
  function LineGrid(text: string): TextGrid {
    var lines := Kept(SplitLines(text));
    seq(|lines|, i requires 0 <= i < |lines| => [NormalizeImportedCell(lines[i])])
  }

  /** How a copied column is read: as comma-separated text if it looks like it, and line by line otherwise. */
  lemma ColumnReading(values: seq<string>)
    requires values != [] && forall i :: 0 <= i < |values| ==> '\r' !in values[i]
    ensures ParseClipboard(Column(values))
         == if LooksLikeCsv(values) then ImportGrid(FieldRows(Kept(values))) else LineGrid(Column(values))
  {
    var text := Column(values);
    GridNoReturn(ColumnGrid(values));
    NoReturns(text);
    NoTabSeen(values);
    CommaReading(values);
    WideIffCsv(values);
    if LooksLikeCsv(values) {
      assert Kept(values)[0] == values[0];
      ColumnShowsComma(values);
    }
  }

  // ---------------------------------------------------------------- lines that no value was quoted in

  lemma {:induction false} PlainLines(values: seq<string>)
    requires values != [] && forall i :: 0 <= i < |values| ==> !Quoted(values[i])
    ensures SplitLines(Column(values)) == values
  {
    var v := values[0];
    assert !Quoted(v);
    if |values| == 1 {
      assert values == [v];
      ColumnOne(v);
      SplitLinesSingle(v);
    } else {
      ColumnCons(values);
      PlainLines(values[1..]);
      SplitLinesCut(v, Column(values[1..]));
      Assoc(v, "\n", Column(values[1..]));
      Uncons(values);
    }
  }

  // ---------------------------------------------------------------- quotes at the start of a text

  /** The text starts with `n` quotation marks. */
  predicate StartsQuoted(s: string, n: nat) {
    n <= |s| && forall i :: 0 <= i < n ==> s[i] == '"'
  }

  function LeadingQuotes(s: string): (n: nat)
    ensures StartsQuoted(s, n) && !StartsQuoted(s, n + 1)
  {
    if s == "" || s[0] != '"' then 0
    else
      var n := LeadingQuotes(s[1..]);
      StartsUncons(s, n);
      StartsUncons(s, n + 1);
      n + 1
  }

  lemma StartsUncons(s: string, n: nat)
    requires s != "" && s[0] == '"'
    ensures StartsQuoted(s, n + 1) <==> StartsQuoted(s[1..], n)
  {
    assert StartsQuoted(s[1..], n) ==> forall i :: 1 <= i < n + 1 ==> s[i] == s[1..][i - 1];
  }

  lemma StartsTail(s: string, n: nat)
    requires StartsQuoted(s, n) && n > 0
    ensures s[0] == '"' && StartsQuoted(s[1..], n - 1)
  {
  }

  lemma StartsCons(s: string, n: nat)
    requires StartsQuoted(s, n)
    ensures StartsQuoted("\"" + s, n + 1)
  {
  }

  lemma {:induction false} BreaksKeepQuotes(s: string, n: nat)
    requires StartsQuoted(s, n)
    ensures StartsQuoted(BreaksToNewlines(s), n) && StartsQuoted(NewlinesToBreaks(s), n) && StartsQuoted(LineEndsToBreaks(s), n)
  {
    if n > 0 {
      StartsTail(s, n);
      BreaksKeepQuotes(s[1..], n - 1);
      StartsCons(BreaksToNewlines(s[1..]), n - 1);
      StartsCons(NewlinesToBreaks(s[1..]), n - 1);
      StartsCons(LineEndsToBreaks(s[1..]), n - 1);
    }
  }

  lemma {:induction false} PipesKeepQuotes(s: string, n: nat)
    requires StartsQuoted(s, n)
    ensures StartsQuoted(UnescapePipes(s), n) && StartsQuoted(EscapeCell(s), n)
  {
    var k := |s| - 1;
    if n < |s| {
      PipesKeepQuotes(s[..k], n);
      if s[k] == '|' && k > 0 && s[k - 1] == '\\' {
        PipesKeepQuotes(s[..k - 1], n);
      }
    } else if n > 0 {
      PipesKeepQuotes(s[..k], n - 1);
      QuotesOnly(s);
    }
  }

  lemma {:induction false} QuotesOnly(s: string)
    requires StartsQuoted(s, |s|)
    ensures UnescapePipes(s) == s && EscapeCell(s) == s
  {
    if s != "" {
      QuotesOnly(s[..|s| - 1]);
      SplitSnoc(s);
    }
  }

  lemma {:induction false} DoublingQuotes(v: string, n: nat, tail: string)
    requires StartsQuoted(v, n)
    ensures StartsQuoted(DoubleQuotes(v) + tail, 2 * n)
  {
    if n > 0 {
      StartsTail(v, n);
      DoublingQuotes(v[1..], n - 1, tail);
      var rest := DoubleQuotes(v[1..]) + tail;
      Assoc("\"\"", DoubleQuotes(v[1..]), tail);
      StartsCons(rest, 2 * n - 2);
      StartsCons("\"" + rest, 2 * n - 1);
      assert "\"\"" + rest == "\"" + ("\"" + rest);
    }
  }

  lemma {:induction false} FirstLineKeepsQuotes(text: string, n: nat)
    requires StartsQuoted(text, n)
    ensures StartsQuoted(SplitLines(text)[0], n)
  {
    if n > 0 {
      StartsTail(text, n);
      FirstLineKeepsQuotes(text[1..], n - 1);
      StartsCons(SplitLines(text[1..])[0], n - 1);
    }
  }

  /** The first line of a quoted value has more quotation marks in front than the value. */
  lemma QuotedLine(v: string, tail: string)
    requires Quoted(v)
    ensures StartsQuoted(SplitLines(QuoteCell(v, '\t') + tail)[0], LeadingQuotes(v) + 1)
  {
    var n := LeadingQuotes(v);
    var text := QuoteCell(v, '\t') + tail;
    DoublingQuotes(v, n, "\"" + tail);
    StartsCons(DoubleQuotes(v) + ("\"" + tail), 2 * n);
    Assoc("\"" + DoubleQuotes(v), "\"", tail);
    Assoc("\"", DoubleQuotes(v), "\"" + tail);
    FirstLineKeepsQuotes(text, n + 1);
  }

  lemma {:induction false} QuotedLineAt(values: seq<string>, k: nat)
    requires k < |values| && Quoted(values[k]) && forall i :: 0 <= i < k ==> !Quoted(values[i])
    ensures k < |SplitLines(Column(values))|
    ensures StartsQuoted(SplitLines(Column(values))[k], LeadingQuotes(values[k]) + 1)
  {
    if |values| == 1 {
      assert values == [values[0]];
      ColumnOne(values[0]);
      QuotedLine(values[0], "");
      assert QuoteCell(values[0], '\t') + "" == QuoteCell(values[0], '\t');
    } else {
      ColumnCons(values);
      if k == 0 {
        QuotedLine(values[0], "\n" + Column(values[1..]));
      } else {
        assert !Quoted(values[0]);
        QuotedLineAt(values[1..], k - 1);
        Assoc(values[0], "\n", Column(values[1..]));
        SplitLinesCut(values[0], Column(values[1..]));
      }
    }
  }

  /** A quoted line is not what the cell held before. */
  lemma QuotedLineDiffers(s: string, line: string)
    requires StartsQuoted(line, LeadingQuotes(ClipboardCellValue(s)) + 1)
    ensures PastedText(NormalizeImportedCell(line)) != s
  {
    var n := LeadingQuotes(ClipboardCellValue(s)) + 1;
    BreaksKeepQuotes(line, n);
    PipesKeepQuotes(NewlinesToBreaks(line), n);
    var imported := NormalizeImportedCell(line);
    BreaksKeepQuotes(imported, n);
    PipesKeepQuotes(LineEndsToBreaks(imported), n);
    if PastedText(imported) == s {
      BreaksKeepQuotes(s, n);
      PipesKeepQuotes(BreaksToNewlines(s), n);
    }
  }

  // ---------------------------------------------------------------- commas

  lemma {:induction false} CommaCopied(s: string)
    requires ',' !in s
    ensures ',' !in BreaksToNewlines(s) && ',' !in NewlinesToBreaks(s) && ',' !in LineEndsToBreaks(s)
    decreases |s|
  {
    if s != "" {
      CommaCopied(s[1..]);
      if BreakLength(s) > 0 {
        CommaCopied(s[BreakLength(s)..]);
      }
      if |s| >= 2 {
        CommaCopied(s[2..]);
      }
    }
  }

  lemma {:induction false} CommaEscaped(s: string)
    requires ',' !in s
    ensures ',' !in UnescapePipes(s) && ',' !in EscapeCell(s)
  {
    if s != "" {
      var k := |s| - 1;
      CommaEscaped(s[..k]);
      if s[k] == '|' && k > 0 && s[k - 1] == '\\' {
        CommaEscaped(s[..k - 1]);
      }
    }
  }

  lemma {:induction false} NoCommas(v: string)
    ensures Commas(v) > 0 <==> ',' in v
  {
    if v != "" {
      NoCommas(v[1..]);
    }
  }

  /** A part between commas is not what the cell held before. */
  lemma CommaPartDiffers(s: string, part: string)
    requires ',' !in part && Commas(ClipboardCellValue(s)) > 0
    ensures PastedText(NormalizeImportedCell(part)) != s
  {
    NoCommas(ClipboardCellValue(s));
    CommaCopied(part);
    CommaEscaped(NewlinesToBreaks(part));
    CommaCopied(NormalizeImportedCell(part));
    CommaEscaped(LineEndsToBreaks(NormalizeImportedCell(part)));
    if ',' !in s {
      CommaCopied(s);
      CommaEscaped(BreaksToNewlines(s));
    }
  }

  // ---------------------------------------------------------------- cells without line breaks

  lemma {:induction false} UnescapeKeepsNewlines(s: string)
    ensures '\n' in UnescapePipes(s) <==> '\n' in s
  {
    if s != "" {
      var k := |s| - 1;
      SplitSnoc(s);
      if s[k] == '|' && k > 0 && s[k - 1] == '\\' {
        UnescapeKeepsNewlines(s[..k - 1]);
        assert s == s[..k - 1] + "\\|";
      } else {
        UnescapeKeepsNewlines(s[..k]);
      }
    }
  }

  lemma {:induction false} NoBreakPlain(s: string)
    requires '\n' !in BreaksToNewlines(s)
    ensures PlainBreaks(s)
  {
    if s != "" {
      assert BreakLength(s) == 0;
      NoBreakPlain(s[1..]);
    }
  }

  /** A value that is not quoted comes back as it was. */
  lemma UnquotedReturns(s: string)
    requires Copyable(s) && !Quoted(ClipboardCellValue(s))
    ensures PastedText(NormalizeImportedCell(ClipboardCellValue(s))) == s
  {
    UnescapeKeepsNewlines(BreaksToNewlines(s));
    NoBreakPlain(s);
    CellRoundTrip(s);
    RespelledPastes(s);
  }

  // ---------------------------------------------------------------- pasting the column in place

  /** A selection that is one column wide. */
  predicate OneColumn(t: Table, b: Bounds) {
    Shaped(t) && 0 <= b.minRow <= b.maxRow < |SemanticRows(t)| && 0 <= b.minColumn == b.maxColumn < t.columnCount
  }

  /** The text of the selected cell `i`, counted from the first selected row. */
  function SelectedCell(t: Table, b: Bounds, i: nat): string
    requires OneColumn(t, b) && i <= b.maxRow - b.minRow
  {
    CellText(SemanticRows(t)[b.minRow + i], b.minColumn)
  }

  function CopiedValues(t: Table, b: Bounds): (values: seq<string>)
    requires OneColumn(t, b)
    ensures |values| == b.maxRow - b.minRow + 1
  {
    seq(b.maxRow - b.minRow + 1, i requires 0 <= i <= b.maxRow - b.minRow => ClipboardCellValue(SelectedCell(t, b, i)))
  }

  /** The copied values survive being read: none was quoted, and the lines do not look like comma-separated text. */
  predicate ReadsBack(values: seq<string>)
    requires values != []
  {
    (forall i :: 0 <= i < |values| ==> !Quoted(values[i])) && !LooksLikeCsv(values)
  }

  lemma CopiedColumn(t: Table, b: Bounds)
    requires OneColumn(t, b) && CopyableSelection(t, b)
    ensures SelectionToTsv(t, b) == Column(CopiedValues(t, b))
    ensures forall i :: 0 <= i < |CopiedValues(t, b)| ==> '\r' !in CopiedValues(t, b)[i]
  {
    var values, grid := CopiedValues(t, b), CopiedGrid(t, b);
    CopiedNoReturn(t, b);
    forall i | 0 <= i < |values| ensures grid[i] == [values[i]] && '\r' !in values[i] {
      assert grid[i] == CopiedRow(SemanticRows(t)[b.minRow + i], b.minColumn, b.maxColumn);
      assert grid[i][0] == values[i];
    }
    assert grid == ColumnGrid(values);
  }

  lemma WidthOfFirst(grid: TextGrid)
    requires grid != [] && grid[0] != []
    ensures GridWidth(grid) > 0
  {
  }

  lemma FrontText(t: Table, result: Table, grid: TextGrid, r: nat, c: nat, i: nat, row: nat)
    requires row < |SemanticRows(result)| && c < result.columnCount && PastedRow(t, result, grid, r, c, row)
    requires i < |grid| && grid[i] != [] && row == r + i
    ensures CellText(SemanticRows(result)[row], c) == PastedText(grid[i][0])
  {
    assert InPasted(grid, r, c, row, c);
  }

  lemma {:induction false} PastedFront(t: Table, r: nat, c: nat, grid: TextGrid, result: Table, i: nat, row: nat)
    requires Shaped(t) && result == Pasted(t, r, c, grid) && i < |grid| && grid[0] != [] && grid[i] != [] && row == r + i < |SemanticRows(t)| && c < t.columnCount
    ensures |SemanticRows(result)| >= |SemanticRows(t)| && result.columnCount >= t.columnCount
    ensures CellText(SemanticRows(result)[row], c) == PastedText(grid[i][0])
  {
    WidthOfFirst(grid);
    PasteSpec(t, r, c, grid, r, c);
    FrontText(t, result, grid, r, c, i, row);
  }

  lemma SameTextAt(a: Table, t: Table, row: nat, c: nat)
    requires SameMeaning(a, t) && row < |SemanticRows(t)| && c < t.columnCount
    ensures |SemanticRows(a)| == |SemanticRows(t)| && CellText(SemanticRows(a)[row], c) == CellText(SemanticRows(t)[row], c)
  {
    assert Grid(a)[row][c] == Grid(t)[row][c];
  }

  /** If pasting a grid changes nothing, each of its first cells is what the selected cell holds. */
  lemma {:induction false} PastedCell(t: Table, b: Bounds, grid: TextGrid, result: Table, i: nat)
    requires OneColumn(t, b) && i < |grid| && i <= b.maxRow - b.minRow && grid[0] != [] && grid[i] != []
    requires result == Pasted(t, b.minRow, b.minColumn, grid) && SameMeaning(result, t)
    ensures PastedText(grid[i][0]) == SelectedCell(t, b, i)
  {
    var row := b.minRow + i;
    PastedFront(t, b.minRow, b.minColumn, grid, result, i, row);
    SameTextAt(result, t, row, b.minColumn);
  }

  /** Pasting a grid of single cells. */
  lemma {:induction false} SingleCellsText(t: Table, grid: TextGrid, r: nat, c: nat, i: nat, j: nat)
    requires HasWidth(grid, 1)
    ensures TextAfterPaste(t, grid, r, c, i, j) == if r <= i < r + |grid| && j == c then PastedText(grid[i - r][0]) else TextAt(t, i, j)
  {
  }

  lemma {:induction false} SameRowTexts(a: Table, t: Table, i: nat)
    requires i < |SemanticRows(a)| == |SemanticRows(t)| && a.columnCount == t.columnCount
    requires forall j :: 0 <= j < t.columnCount ==> CellText(SemanticRows(a)[i], j) == CellText(SemanticRows(t)[i], j)
    ensures Grid(a)[i] == Grid(t)[i]
  {
  }

  lemma {:induction false} PastedRowSame(t: Table, b: Bounds, grid: TextGrid, result: Table, i: nat)
    requires OneColumn(t, b) && |grid| <= b.maxRow - b.minRow + 1 && HasWidth(grid, 1)
    requires forall k :: 0 <= k < |grid| ==> PastedText(grid[k][0]) == SelectedCell(t, b, k)
    requires i < |SemanticRows(result)| == |SemanticRows(t)| && result.columnCount == t.columnCount
    requires PastedRow(t, result, grid, b.minRow, b.minColumn, i)
    ensures Grid(result)[i] == Grid(t)[i]
  {
    forall j | 0 <= j < t.columnCount ensures CellText(SemanticRows(result)[i], j) == CellText(SemanticRows(t)[i], j) {
      SingleCellsText(t, grid, b.minRow, b.minColumn, i, j);
      if b.minRow <= i < b.minRow + |grid| && j == b.minColumn {
        var k := i - b.minRow;
        assert PastedText(grid[k][0]) == SelectedCell(t, b, k);
      }
    }
    SameRowTexts(result, t, i);
  }

  /** Pasting back one cell per row changes nothing if each of them is what the selected cell holds. */
  lemma {:induction false} PastedBackSame(t: Table, b: Bounds, grid: TextGrid)
    requires OneColumn(t, b) && 0 < |grid| <= b.maxRow - b.minRow + 1 && HasWidth(grid, 1)
    requires forall i :: 0 <= i < |grid| ==> PastedText(grid[i][0]) == SelectedCell(t, b, i)
    ensures SameMeaning(Pasted(t, b.minRow, b.minColumn, grid), t)
  {
    UniformWidth(grid, 1);
    PasteSpec(t, b.minRow, b.minColumn, grid, b.minRow, b.minColumn);
    var result := Pasted(t, b.minRow, b.minColumn, grid);
    forall i | 0 <= i < |SemanticRows(t)| ensures Grid(result)[i] == Grid(t)[i] {
      PastedRowSame(t, b, grid, result, i);
    }
    assert result.alignments == t.alignments;
  }

  lemma {:induction false} ReadBackSame(t: Table, b: Bounds)
    requires OneColumn(t, b) && CopyableSelection(t, b) && ReadsBack(CopiedValues(t, b))
    ensures SameMeaning(CopyPasted(t, b), t)
  {
    var values := CopiedValues(t, b);
    CopiedColumn(t, b);
    ColumnReading(values);
    PlainLines(values);
    var grid := LineGrid(Column(values));
    forall i | 0 <= i < |grid| ensures |grid[i]| == 1 && PastedText(grid[i][0]) == SelectedCell(t, b, i) {
      assert grid[i][0] == NormalizeImportedCell(values[i]);
      assert Copyable(SelectedCell(t, b, i)) && !Quoted(values[i]);
      UnquotedReturns(SelectedCell(t, b, i));
    }
    PastedBackSame(t, b, grid);
  }

  lemma {:induction false} CsvDiffers(t: Table, b: Bounds)
    requires OneColumn(t, b) && CopyableSelection(t, b) && LooksLikeCsv(CopiedValues(t, b))
    ensures !SameMeaning(CopyPasted(t, b), t)
  {
    var values := CopiedValues(t, b);
    CopiedColumn(t, b);
    ColumnReading(values);
    var first := Kept(values)[0];
    var grid := ImportGrid(FieldRows(Kept(values)));
    assert !Quoted(first);
    CommaParts(first);
    assert grid[0][0] == NormalizeImportedCell(SplitCommas(first)[0]);
    CommaPartDiffers(SelectedCell(t, b, 0), SplitCommas(first)[0]);
    if SameMeaning(CopyPasted(t, b), t) {
      PastedCell(t, b, grid, CopyPasted(t, b), 0);
    }
  }

  lemma FirstQuoted(values: seq<string>, i: nat) returns (k: nat)
    requires i < |values| && Quoted(values[i])
    ensures k < |values| && Quoted(values[k]) && forall j :: 0 <= j < k ==> !Quoted(values[j])
  {
    if j :| 0 <= j < i && Quoted(values[j]) {
      k := FirstQuoted(values, j);
    } else {
      k := i;
    }
  }

  lemma LineGridAt(text: string, k: nat, line: string)
    requires k < |SplitLines(text)| && line == SplitLines(text)[k] && line != ""
    ensures k < |LineGrid(text)| && LineGrid(text)[0] != [] && LineGrid(text)[k] == [NormalizeImportedCell(line)]
  {
  }

  lemma {:induction false} QuotedLineGrid(values: seq<string>, k: nat) returns (line: string)
    requires k < |values| && Quoted(values[k]) && forall i :: 0 <= i < k ==> !Quoted(values[i])
    ensures var grid := LineGrid(Column(values));
            k < |grid| && grid[0] != [] && grid[k] == [NormalizeImportedCell(line)]
    ensures StartsQuoted(line, LeadingQuotes(values[k]) + 1)
  {
    QuotedLineAt(values, k);
    line := SplitLines(Column(values))[k];
    LineGridAt(Column(values), k, line);
  }

  lemma {:induction false} QuotedDiffers(t: Table, b: Bounds, values: seq<string>, grid: TextGrid, k: nat)
    requires OneColumn(t, b) && CopyableSelection(t, b) && values == CopiedValues(t, b)
    requires grid == ParseClipboard(SelectionToTsv(t, b)) == LineGrid(Column(values))
    requires k < |values| && Quoted(values[k]) && forall i :: 0 <= i < k ==> !Quoted(values[i])
    ensures !SameMeaning(CopyPasted(t, b), t)
  {
    var line := QuotedLineGrid(values, k);
    QuotedLineDiffers(SelectedCell(t, b, k), line);
    if SameMeaning(CopyPasted(t, b), t) {
      PastedCell(t, b, grid, CopyPasted(t, b), k);
    }
  }

  lemma LineOfQuotes(text: string)
    requires StartsQuoted(text, |text|)
    ensures LineGrid(text) == [[text]]
  {
    SplitLinesSingle(text);
    NoNewlinesLeft(text);
    QuotesOnly(text);
  }

  lemma QuotedQuote(v: string)
    requires v == "\""
    ensures Column([v]) == "\"\"\"\"" && Quoted(v)
  {
    ColumnOne(v);
    assert DoubleQuotes(v) == "\"\"";
  }

  lemma {:induction false} QuoteReading(v: string)
    requires v == "\""
    ensures ParseClipboard(Column([v])) == [["\"\"\"\""]]
  {
    QuotedQuote(v);
    ColumnReading([v]);
    assert Kept([v]) == [v];
    LineOfQuotes(Column([v]));
  }

  /** A copied quotation mark comes back as four. */
  lemma {:induction false} QuoteNotReadBack()
    ensures ParseClipboard(Column(["\""])) == [["\"\"\"\""]]
  {
    QuoteReading("\"");
  }

  /** Copying part of one column and pasting it in place leaves all cell texts and alignments as they are exactly
      when no copied value is quoted (it has a tab, a quotation mark or a line break) and the copied lines do
      not all have the same positive number of commas. */
  lemma {:induction false} ColumnPasteIdentity(t: Table, b: Bounds)
    requires OneColumn(t, b) && CopyableSelection(t, b)
    ensures SameMeaning(CopyPasted(t, b), t) <==> ReadsBack(CopiedValues(t, b))
  {
    var values := CopiedValues(t, b);
    if LooksLikeCsv(values) {
      CsvDiffers(t, b);
    } else if i :| 0 <= i < |values| && Quoted(values[i]) {
      var k := FirstQuoted(values, i);
      CopiedColumn(t, b);
      ColumnReading(values);
      QuotedDiffers(t, b, values, LineGrid(Column(values)), k);
    } else {
      ReadBackSame(t, b);
    }
  }
}
