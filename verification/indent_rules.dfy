/** Which lines are selected, and what indenting them inserts and removes. */
module IndentRules {
  import opened Sequences
  import opened Text
  import opened Lines
  import opened Edits
  import opened Indentation

  // ---------------------------------------------------------------- the selected lines

  /** Position `q` is on the line that starts at `p`. */
  predicate OnLine(value: string, p: nat, q: nat)
    requires p <= q <= |value|
  {
    IsLineStart(value, p) && '\n' !in value[p..q]
  }

  /** The line of the selection start, unless it is the empty first line of the text, and every line that starts
      inside of the selection. */
  predicate SelectsLine(value: string, s: Selection, p: nat)
    requires SelectionInside(value, s)
  {
    var from, to := FromOf(s), ToOf(s);
    || (from < p < to && IsLineStart(value, p))
    || (p <= from && OnLine(value, p, from) && !(from == 0 && value != "" && value[0] == '\n'))
  }

  lemma {:induction false} LineFromIs(value: string, q: nat)
    requires q <= |value|
    ensures var p := LineFrom(value, q); p <= q && OnLine(value, p, q)
  {
    if q > 0 && value[q - 1] != '\n' {
      LineFromIs(value, q - 1);
    }
  }

  lemma LineFeedBetween(value: string, p: nat, start: nat, q: nat)
    requires p < start <= q <= |value| && value[start - 1] == '\n'
    ensures '\n' in value[p..q]
  {
    assert value[p..q][start - 1 - p] == '\n';
  }

  lemma OneLineOf(value: string, p: nat, other: nat, q: nat)
    requires p <= q <= |value| && other <= q && OnLine(value, p, q) && OnLine(value, other, q)
    ensures p == other
  {
    if p < other {
      LineFeedBetween(value, p, other, q);
    } else if other < p {
      LineFeedBetween(value, other, p, q);
    }
  }

  lemma {:induction false} SelectionLine(value: string, s: Selection, p: nat)
    requires SelectionInside(value, s) && p <= |value|
    ensures p in SelectionStarts(value, s) <==> SelectsLine(value, s, p)
  {
    var from, to := FromOf(s), ToOf(s);
    FirstLineStartIs(value, from);
    LineFromIs(value, from);
    if p <= from && OnLine(value, p, from) {
      OneLineOf(value, p, LineFrom(value, from), from);
    }
    if LineFrom(value, from) < p <= from && IsLineStart(value, p) {
      LineFeedBetween(value, LineFrom(value, from), p, from);
    }
  }

  /** A line is selected if some selection selects it. */
  lemma {:induction false} SelectedExactly(value: string, selections: seq<Selection>, p: nat)
    requires SelectionsInside(value, selections) && p <= |value|
    ensures p in SelectedLines(value, selections)
       <==> exists i :: 0 <= i < |selections| && SelectsLine(value, selections[i], p)
  {
    InAllStarts(value, selections, p);
    forall i | 0 <= i < |selections| ensures p in SelectionStarts(value, selections[i]) <==> SelectsLine(value, selections[i], p) {
      SelectionLine(value, selections[i], p);
    }
  }

  // ---------------------------------------------------------------- what is inserted and removed

  lemma {:induction false} EditsInsert(value: string, starts: seq<nat>, k: nat, e: Edit)
    requires k <= |starts| && Below(starts, |value| + 1)
    ensures e in IndentEdits(value, starts, More, k) <==> e.from in starts[..k] && e == Edit(e.from, e.from, "  ")
  {
    if k > 0 {
      EditsInsert(value, starts, k - 1, e);
      assert starts[..k] == starts[..k - 1] + [starts[k - 1]];
    }
  }

  /** Indenting more inserts two spaces at the start of each selected line, and changes nothing else. */
  lemma {:induction false} IndentExact(value: string, selections: seq<Selection>, e: Edit)
    requires SelectionsInside(value, selections)
    ensures var t := IndentTransaction(value, selections, More); var starts := SelectedLines(value, selections);
            var inserts := e.from in starts && e == Edit(e.from, e.from, "  ");
            (t.Some? ==> (e in t.value.changes <==> inserts)) && (t == None ==> !inserts)
  {
    var starts := SelectedLines(value, selections);
    assert starts[..|starts|] == starts;
    EditsInsert(value, starts, |starts|, e);
    SortedMembers(IndentEdits(value, starts, More, |starts|), e);
  }

  /** The indentation that goes: two spaces, a single one, or a tab. */
  predicate IsIndent(indent: string, rest: string) {
    indent == "  " || (indent == " " && (rest == "" || rest[0] != ' ')) || indent == "\t"
  }

  /** The line that starts at `start` is the indentation and a rest. */
  predicate LineHas(value: string, start: nat, indent: string, rest: string) {
    start <= |value| && LineText(value, start) == indent + rest && IsIndent(indent, rest)
  }

  ghost predicate LineHasIndent(value: string, start: nat) {
    exists indent, rest :: LineHas(value, start, indent, rest)
  }

  lemma {:induction false} RemovedIs(value: string, start: nat, indent: string, rest: string)
    requires LineHas(value, start, indent, rest)
    ensures LineEdits(value, start, Less) == [Edit(start, start + |indent|, "")]
  {
    var text := LineText(value, start);
    assert |indent| == 2 ==> text[0] == ' ' && text[1] == ' ';
    assert |indent| == 1 ==> text[0] == indent[0] && (|text| > 1 ==> text[1] == rest[0]);
  }

  lemma {:induction false} NothingRemoved(value: string, start: nat)
    requires start <= |value| && !LineHasIndent(value, start)
    ensures LineEdits(value, start, Less) == []
  {
    var text := LineText(value, start);
    var n := Removable(text);
    if n > 0 {
      assert text == text[..n] + text[n..];
      assert LineHas(value, start, text[..n], text[n..]);
    }
  }

  /** The edit takes the indentation of a selected line. */
  ghost predicate TakesIndent(value: string, starts: seq<nat>, e: Edit) {
    exists indent, rest :: LineHas(value, e.from, indent, rest) && e.from in starts && e == Edit(e.from, e.from + |indent|, "")
  }

  lemma {:induction false} EditsTake(value: string, starts: seq<nat>, k: nat, e: Edit)
    requires k <= |starts| && Below(starts, |value| + 1)
    ensures e in IndentEdits(value, starts, Less, k) <==> TakesIndent(value, starts[..k], e)
  {
    if k > 0 {
      var start := starts[k - 1];
      EditsTake(value, starts, k - 1, e);
      assert starts[..k] == starts[..k - 1] + [start];
      if LineHasIndent(value, start) {
        var indent, rest :| LineHas(value, start, indent, rest);
        RemovedIs(value, start, indent, rest);
        if e.from == start {
          if other, last :| LineHas(value, start, other, last) {
            RemovedIs(value, start, other, last);
          }
        }
      } else {
        NothingRemoved(value, start);
      }
    }
  }

  lemma {:induction false} SortedMembers(edits: seq<Edit>, e: Edit)
    ensures e in SortEdits(edits) <==> e in edits
  {
    var order := SortOrder(FromKeys(edits), |edits|);
    if e in edits {
      var i :| 0 <= i < |edits| && edits[i] == e;
      assert i in order;
      var k :| 0 <= k < |order| && order[k] == i;
      assert SortEdits(edits)[k] == e;
    }
  }

  /** Indenting less takes two spaces, a single space or a tab from each selected line that starts with one, and
      changes nothing else; if no selected line does, there is nothing to do. */
  lemma {:induction false} OutdentExact(value: string, selections: seq<Selection>, e: Edit)
    requires SelectionsInside(value, selections)
    ensures var t := IndentTransaction(value, selections, Less); var starts := SelectedLines(value, selections);
            && (t.Some? ==> (e in t.value.changes <==> TakesIndent(value, starts, e)))
            && (t == None ==> !TakesIndent(value, starts, e))
            && (t.Some? ==> t.value.changes != [])
  {
    var starts := SelectedLines(value, selections);
    var edits := IndentEdits(value, starts, Less, |starts|);
    assert starts[..|starts|] == starts;
    EditsTake(value, starts, |starts|, e);
    SortedMembers(edits, e);
  }
}
