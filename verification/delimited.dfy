/** Delimiter-separated text with double quotes: the writer, the reader and the scanner for
    unquoted delimiters (quoting as in section 2 of RFC 4180). */
module Delimited {
  import opened Seqs
  import opened Text

  // ---------------------------------------------------------------- writing

  function DoubleQuotes(value: string): string {
    if value == "" then "" else (if value[0] == '"' then "\"\"" else [value[0]]) + DoubleQuotes(value[1..])
  }

  predicate NeedsQuotes(value: string, delimiter: char) {
    delimiter in value || '\n' in value || '"' in value
  }

  function QuoteCell(value: string, delimiter: char): string {
    if NeedsQuotes(value, delimiter) then "\"" + DoubleQuotes(value) + "\"" else value
  }

  function QuoteCells(values: seq<string>, delimiter: char): (r: seq<string>)
    ensures |r| == |values|
  {
    seq(|values|, i requires 0 <= i < |values| => QuoteCell(values[i], delimiter))
  }

  function WriteRow(values: seq<string>, delimiter: char): string {
    Join(QuoteCells(values, delimiter), [delimiter])
  }

  function WriteRows(rows: seq<seq<string>>, delimiter: char): (lines: seq<string>)
    ensures |lines| == |rows|
  {
    seq(|rows|, i requires 0 <= i < |rows| => WriteRow(rows[i], delimiter))
  }

  function WriteGrid(rows: seq<seq<string>>, delimiter: char): string {
    Join(WriteRows(rows, delimiter), "\n")
  }

  // ---------------------------------------------------------------- reading

  /** The reader between two characters. */
  datatype Scan = Scan(rows: seq<seq<string>>, value: string, quoted: bool, quoteClosed: bool, valid: bool)

  datatype ParsedText = ParsedText(valid: bool, rows: seq<seq<string>>)

  function PushValue(rows: seq<seq<string>>, value: string): seq<seq<string>> {
    if rows == [] then [[value]]
    else rows[..|rows| - 1] + [rows[|rows| - 1] + [value]]
  }

  /** The value is complete. */
  function EndValue(st: Scan): Scan {
    st.(rows := PushValue(st.rows, st.value), value := "", quoteClosed := false)
  }

  function EndRow(st: Scan): Scan {
    var ended := EndValue(st);
    ended.(rows := ended.rows + [[]])
  }

  /** A character outside of quotes. */
  function Plain(st: Scan, c: char, delimiter: char): Scan {
    if st.quoteClosed && c != delimiter && c != '\n' then
      st.(valid := false, value := st.value + [c], quoteClosed := false)
    else if c == '"' && st.value == "" then st.(quoted := true)
    else if c == delimiter then EndValue(st)
    else if c == '\n' then EndRow(st)
    else st.(value := st.value + [c])
  }

  function ScanText(text: string, delimiter: char, st: Scan): Scan
    decreases |text|
  {
    if text == "" then st
    else if st.quoted && text[0] == '"' && |text| > 1 && text[1] == '"' then
      ScanText(text[2..], delimiter, st.(value := st.value + "\""))
    else if st.quoted && text[0] == '"' then
      ScanText(text[1..], delimiter, st.(quoted := false, quoteClosed := true))
    else if st.quoted then
      ScanText(text[1..], delimiter, st.(value := st.value + [text[0]]))
    else ScanText(text[1..], delimiter, Plain(st, text[0], delimiter))
  }

  const START := Scan([[]], "", false, false, true)

  /** An unclosed quote is invalid; an empty last line is dropped. */
  function Finish(st: Scan): ParsedText {
    var rows := PushValue(st.rows, st.value);
    ParsedText(st.valid && !st.quoted,
               if |rows| > 1 && rows[|rows| - 1] == [""] then rows[..|rows| - 1] else rows)
  }

  function ParseDelimited(text: string, delimiter: char): ParsedText {
    Finish(ScanText(text, delimiter, START))
  }

  /** The loop of parseDelimitedText. */
  method ParseDelimitedText(text: string, delimiter: char) returns (valid: bool, rows: seq<seq<string>>)
    ensures ParsedText(valid, rows) == ParseDelimited(text, delimiter)
  {
    rows := [[]];
    var value := "";
    var quoted := false;
    var quoteClosed := false;
    valid := true;
    var index := 0;
    while index < |text|
      invariant 0 <= index <= |text|
      invariant rows != []
      invariant ScanText(text[index..], delimiter, Scan(rows, value, quoted, quoteClosed, valid))
             == ScanText(text, delimiter, START)
    {
      var character := text[index];
      assert text[index..][1..] == text[index + 1..];
      assert |text[index..]| > 1 ==> text[index..][1] == text[index + 1] && text[index..][2..] == text[index + 2..];
      if quoted {
        if character == '"' {
          if index + 1 < |text| && text[index + 1] == '"' {
            value := value + "\"";
            index := index + 1;
          } else {
            quoted := false;
            quoteClosed := true;
          }
        } else {
          value := value + [character];
        }
      } else if quoteClosed && character != delimiter && character != '\n' {
        valid := false;
        value := value + [character];
        quoteClosed := false;
      } else if character == '"' && value == "" {
        quoted := true;
      } else if character == delimiter {
        rows := PushValue(rows, value);
        value := "";
        quoteClosed := false;
      } else if character == '\n' {
        rows := PushValue(rows, value) + [[]];
        value := "";
        quoteClosed := false;
      } else {
        value := value + [character];
      }
      index := index + 1;
    }
    assert text[index..] == "";
    if quoted {
      valid := false;
    }
    rows := PushValue(rows, value);
    if |rows| > 1 && rows[|rows| - 1] == [""] {
      rows := rows[..|rows| - 1];
    }
  }

  /** Whether the delimiter occurs outside of quotes, from a given state. */
  predicate UnquotedFrom(text: string, delimiter: char, quoted: bool)
    decreases |text|
  {
    text != "" &&
    if text[0] == '"' then
      if quoted && |text| > 1 && text[1] == '"' then UnquotedFrom(text[2..], delimiter, quoted)
      else UnquotedFrom(text[1..], delimiter, !quoted)
    else (!quoted && text[0] == delimiter) || UnquotedFrom(text[1..], delimiter, quoted)
  }

  /** The loop of containsUnquotedDelimiter. */
  method ContainsUnquotedDelimiter(text: string, delimiter: char) returns (found: bool)
    ensures found == UnquotedFrom(text, delimiter, false)
  {
    var quoted := false;
    var index := 0;
    while index < |text|
      invariant 0 <= index <= |text|
      invariant UnquotedFrom(text[index..], delimiter, quoted) == UnquotedFrom(text, delimiter, false)
    {
      assert text[index..][1..] == text[index + 1..];
      assert |text[index..]| > 1 ==> text[index..][1] == text[index + 1] && text[index..][2..] == text[index + 2..];
      if text[index] == '"' {
        if quoted && index + 1 < |text| && text[index + 1] == '"' {
          index := index + 1;
        } else {
          quoted := !quoted;
        }
      } else if !quoted && text[index] == delimiter {
        return true;
      }
      index := index + 1;
    }
    assert text[index..] == "";
    return false;
  }

  // ---------------------------------------------------------------- reading what was written

  /** A state in which a new value starts. */
  predicate Fresh(st: Scan) {
    st.value == "" && !st.quoted && !st.quoteClosed && st.rows != []
  }

  predicate EndsValue(tail: string, delimiter: char) {
    tail == "" || tail[0] == delimiter || tail[0] == '\n'
  }

  lemma {:induction false} ScanPlain(value: string, tail: string, delimiter: char, st: Scan)
    requires !NeedsQuotes(value, delimiter) && !st.quoted && !st.quoteClosed
    ensures ScanText(value + tail, delimiter, st) == ScanText(tail, delimiter, st.(value := st.value + value))
  {
    if value == "" {
      assert value + tail == tail;
      assert st.value + value == st.value;
    } else {
      TailConcat(value, tail);
      assert value[0] != delimiter && value[0] != '\n' && value[0] != '"';
      var next := st.(value := st.value + [value[0]]);
      ScanPlain(value[1..], tail, delimiter, next);
      Uncons(value);
      Assoc(st.value, [value[0]], value[1..]);
    }
  }

  lemma {:induction false} ScanQuoted(value: string, tail: string, delimiter: char, st: Scan)
    requires st.quoted && (tail == "" || tail[0] != '"')
    ensures ScanText(DoubleQuotes(value) + ("\"" + tail), delimiter, st)
         == ScanText(tail, delimiter, st.(value := st.value + value, quoted := false, quoteClosed := true))
    decreases |value|
  {
    var end := "\"" + tail;
    if value == "" {
      assert DoubleQuotes(value) + end == end;
      assert st.value + value == st.value;
      assert end[1..] == tail;
    } else {
      var piece := if value[0] == '"' then "\"\"" else [value[0]];
      var rest := DoubleQuotes(value[1..]) + end;
      Assoc(piece, DoubleQuotes(value[1..]), end);
      CutConcat(piece, rest);
      var text := piece + rest;
      assert text[0] == value[0];
      if value[0] == '"' {
        assert text[1] == '"' && text[2..] == rest;
      } else {
        assert text[1..] == rest;
      }
      ScanQuoted(value[1..], tail, delimiter, st.(value := st.value + [value[0]]));
      Uncons(value);
      Assoc(st.value, [value[0]], value[1..]);
    }
  }

  /** Reading a written cell leaves exactly its value, whatever it contains. */
  lemma ScanCell(value: string, tail: string, delimiter: char, st: Scan)
    requires Fresh(st) && EndsValue(tail, delimiter) && delimiter != '"'
    ensures ScanText(QuoteCell(value, delimiter) + tail, delimiter, st)
         == ScanText(tail, delimiter, st.(value := value, quoteClosed := NeedsQuotes(value, delimiter)))
  {
    assert "" + value == value;
    if NeedsQuotes(value, delimiter) {
      var body := DoubleQuotes(value) + ("\"" + tail);
      Assoc("\"" + DoubleQuotes(value), "\"", tail);
      Assoc("\"", DoubleQuotes(value), "\"" + tail);
      assert QuoteCell(value, delimiter) + tail == "\"" + body;
      TailConcat("\"", body);
      assert "\""[1..] + body == body;
      ScanQuoted(value, tail, delimiter, st.(quoted := true));
    } else {
      ScanPlain(value, tail, delimiter, st);
    }
  }

  /** Reading a written cell and the delimiter after it stores the value. */
  lemma ScanCellThen(value: string, c: char, rest: string, delimiter: char, st: Scan)
    requires Fresh(st) && delimiter != '"' && delimiter != '\n' && (c == delimiter || c == '\n')
    ensures ScanText(QuoteCell(value, delimiter) + ([c] + rest), delimiter, st)
         == ScanText(rest, delimiter,
              Scan(PushValue(st.rows, value) + if c == delimiter then [] else [[]], "", false, false, st.valid))
  {
    ScanCell(value, [c] + rest, delimiter, st);
    assert ([c] + rest)[1..] == rest;
    assert PushValue(st.rows, value) + [] == PushValue(st.rows, value);
  }

  function AppendValues(rows: seq<seq<string>>, values: seq<string>): (r: seq<seq<string>>)
    ensures values != [] ==> r != []
  {
    if rows == [] then [values] else rows[..|rows| - 1] + [rows[|rows| - 1] + values]
  }

  lemma {:induction false} WriteRowCons(values: seq<string>, delimiter: char)
    requires |values| > 1
    ensures WriteRow(values, delimiter) == QuoteCell(values[0], delimiter) + ([delimiter] + WriteRow(values[1..], delimiter))
  {
    assert QuoteCells(values, delimiter)[1..] == QuoteCells(values[1..], delimiter);
    Assoc(QuoteCell(values[0], delimiter), [delimiter], WriteRow(values[1..], delimiter));
  }

  lemma {:induction false} ScanRowThen(values: seq<string>, rest: string, delimiter: char, st: Scan)
    requires values != [] && Fresh(st) && delimiter != '"' && delimiter != '\n'
    ensures ScanText(WriteRow(values, delimiter) + ("\n" + rest), delimiter, st)
         == ScanText(rest, delimiter, Scan(AppendValues(st.rows, values) + [[]], "", false, false, st.valid))
    decreases |values|
  {
    if |values| == 1 {
      assert WriteRow(values, delimiter) == QuoteCell(values[0], delimiter);
      assert values == [values[0]];
      ScanCellThen(values[0], '\n', rest, delimiter, st);
      assert PushValue(st.rows, values[0]) == AppendValues(st.rows, values);
    } else {
      var after := [delimiter] + WriteRow(values[1..], delimiter);
      WriteRowCons(values, delimiter);
      Assoc(QuoteCell(values[0], delimiter), after, "\n" + rest);
      Assoc([delimiter], WriteRow(values[1..], delimiter), "\n" + rest);
      ScanCellThen(values[0], delimiter, WriteRow(values[1..], delimiter) + ("\n" + rest), delimiter, st);
      AppendStep(st.rows, values);
      ScanRowThen(values[1..], rest, delimiter, Scan(PushValue(st.rows, values[0]), "", false, false, st.valid));
    }
  }

  lemma AppendStep(rows: seq<seq<string>>, values: seq<string>)
    requires values != [] && rows != []
    ensures PushValue(rows, values[0]) + [] == PushValue(rows, values[0])
    ensures AppendValues(PushValue(rows, values[0]), values[1..]) == AppendValues(rows, values)
  {
    Uncons(values);
    Assoc(rows[|rows| - 1], [values[0]], values[1..]);
  }

  /** The last row: its last value is still pending when the text ends. */
  lemma {:induction false} ScanLastRow(values: seq<string>, delimiter: char, st: Scan)
    requires values != [] && Fresh(st) && delimiter != '"' && delimiter != '\n'
    ensures var r := ScanText(WriteRow(values, delimiter), delimiter, st);
            !r.quoted && r.valid == st.valid && PushValue(r.rows, r.value) == AppendValues(st.rows, values)
    decreases |values|
  {
    if |values| == 1 {
      assert WriteRow(values, delimiter) == QuoteCell(values[0], delimiter) + "";
      assert values == [values[0]];
      ScanCell(values[0], "", delimiter, st);
    } else {
      WriteRowCons(values, delimiter);
      ScanCellThen(values[0], delimiter, WriteRow(values[1..], delimiter), delimiter, st);
      AppendStep(st.rows, values);
      ScanLastRow(values[1..], delimiter, Scan(PushValue(st.rows, values[0]), "", false, false, st.valid));
    }
  }

  lemma WriteGridCons(rows: seq<seq<string>>, delimiter: char)
    requires |rows| > 1
    ensures WriteGrid(rows, delimiter) == WriteRow(rows[0], delimiter) + ("\n" + WriteGrid(rows[1..], delimiter))
  {
    assert WriteRows(rows, delimiter)[1..] == WriteRows(rows[1..], delimiter);
    Assoc(WriteRow(rows[0], delimiter), "\n", WriteGrid(rows[1..], delimiter));
  }

  lemma {:induction false} ScanRows(done: seq<seq<string>>, rows: seq<seq<string>>, delimiter: char)
    requires rows != [] && delimiter != '"' && delimiter != '\n'
    requires forall i :: 0 <= i < |rows| ==> rows[i] != []
    ensures var r := ScanText(WriteGrid(rows, delimiter), delimiter, Scan(done + [[]], "", false, false, true));
            !r.quoted && r.valid && PushValue(r.rows, r.value) == done + rows
    decreases |rows|
  {
    var st := Scan(done + [[]], "", false, false, true);
    Snoc(done, []);
    NothingBefore(rows[0]);
    if |rows| == 1 {
      assert WriteGrid(rows, delimiter) == WriteRow(rows[0], delimiter);
      ScanLastRow(rows[0], delimiter, st);
      assert rows == [rows[0]];
    } else {
      WriteGridCons(rows, delimiter);
      ScanRowThen(rows[0], WriteGrid(rows[1..], delimiter), delimiter, st);
      ScanRows(done + [rows[0]], rows[1..], delimiter);
      Uncons(rows);
      Assoc(done, [rows[0]], rows[1..]);
    }
  }

  /** Reading a written grid gives the grid back, whatever the values contain: quotes, delimiters,
      line feeds. Only a last row that is one empty value is lost. */
  lemma ParseWritten(rows: seq<seq<string>>, delimiter: char)
    requires rows != [] && delimiter != '"' && delimiter != '\n'
    requires forall i :: 0 <= i < |rows| ==> rows[i] != []
    ensures ParseDelimited(WriteGrid(rows, delimiter), delimiter)
         == ParsedText(true, if |rows| > 1 && rows[|rows| - 1] == [""] then rows[..|rows| - 1] else rows)
  {
    var none: seq<seq<string>> := [];
    ScanRows(none, rows, delimiter);
    NothingBefore(START.rows);
    NothingBefore(rows);
  }

  lemma NothingBefore<T>(s: seq<T>)
    ensures [] + s == s
  {
  }

  lemma {:induction false} SkipPlain(value: string, tail: string, delimiter: char)
    requires !NeedsQuotes(value, delimiter)
    ensures UnquotedFrom(value + tail, delimiter, false) == UnquotedFrom(tail, delimiter, false)
  {
    if value == "" {
      assert value + tail == tail;
    } else {
      TailConcat(value, tail);
      assert value[0] != delimiter && value[0] != '"';
      SkipPlain(value[1..], tail, delimiter);
    }
  }

  lemma {:induction false} SkipQuoted(value: string, tail: string, delimiter: char)
    requires tail == "" || tail[0] != '"'
    ensures UnquotedFrom(DoubleQuotes(value) + ("\"" + tail), delimiter, true) == UnquotedFrom(tail, delimiter, false)
    decreases |value|
  {
    var end := "\"" + tail;
    if value == "" {
      assert DoubleQuotes(value) + end == end;
      assert end[1..] == tail;
    } else {
      var piece := if value[0] == '"' then "\"\"" else [value[0]];
      var rest := DoubleQuotes(value[1..]) + end;
      Assoc(piece, DoubleQuotes(value[1..]), end);
      var text := piece + rest;
      assert text[0] == value[0];
      if value[0] == '"' {
        assert text[1] == '"' && text[2..] == rest;
      } else {
        assert text[1..] == rest;
      }
      SkipQuoted(value[1..], tail, delimiter);
    }
  }

  /** The two scanners agree on written text: the delimiter after a first cell is seen as unquoted. */
  lemma DelimiterSeen(value: string, rest: string, delimiter: char)
    requires delimiter != '"' && delimiter != '\n'
    ensures UnquotedFrom(QuoteCell(value, delimiter) + ([delimiter] + rest), delimiter, false)
  {
    var tail := [delimiter] + rest;
    if NeedsQuotes(value, delimiter) {
      var body := DoubleQuotes(value) + ("\"" + tail);
      Assoc("\"" + DoubleQuotes(value), "\"", tail);
      Assoc("\"", DoubleQuotes(value), "\"" + tail);
      assert QuoteCell(value, delimiter) + tail == "\"" + body;
      assert ("\"" + body)[1..] == body;
      SkipQuoted(value, tail, delimiter);
    } else {
      SkipPlain(value, tail, delimiter);
    }
  }
}
