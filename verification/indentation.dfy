/** Indenting the selected lines, and taking the indentation back. */
module Indentation {
  import opened Sequences
  import opened Text
  import opened Lines
  import opened Edits

  const INDENT := "  "

  // ---------------------------------------------------------------- the selected lines

  /** `lastIndexOf('\n', p)`; -1 if there is none. */
  function LastLineFeed(value: string, p: nat): (i: int)
    ensures -1 <= i <= p && i < |value|
  {
    if p < |value| && value[p] == '\n' then p else if p == 0 then -1 else LastLineFeed(value, p - 1)
  }

  /** The search starts one position before the selection, but at position 0 for a selection that starts there. */
  function FirstLineStart(value: string, from: nat): (start: nat) {
    LastLineFeed(value, if from == 0 then 0 else from - 1) + 1
  }

  lemma {:induction false} LastLineFeedIs(value: string, p: nat)
    requires p < |value|
    ensures LastLineFeed(value, p) + 1 == LineFrom(value, p + 1)
  {
    if value[p] != '\n' && p > 0 {
      LastLineFeedIs(value, p - 1);
    }
  }

  /** The first selected line is the line of the selection start, except that a selection at the start of a text
      whose first line is empty skips that line. */
  lemma FirstLineStartIs(value: string, from: nat)
    requires from <= |value|
    ensures FirstLineStart(value, from) == if from == 0 && value != "" && value[0] == '\n' then 1 else LineFrom(value, from)
  {
    if from > 0 {
      LastLineFeedIs(value, from - 1);
    }
  }

  /** A selection that ends right after a line feed does not select the next line. */
  function InclusiveEnd(value: string, from: nat, to: nat): (end: nat)
    requires to <= |value|
    ensures to - 1 <= end <= to
  {
    if to > from && value[to - 1] == '\n' then to - 1 else to
  }

  predicate IsLineStart(value: string, p: nat)
    requires p <= |value|
  {
    p == 0 || value[p - 1] == '\n'
  }

  /** `p` is the first line start of a selection or a later one. */
  predicate StartsLine(value: string, first: nat, p: nat)
    requires p <= |value|
  {
    first <= p && (p == first || value[p - 1] == '\n')
  }

  /** The starts of the lines that a selection selects. */
  function LineStarts(value: string, first: nat, end: nat): set<nat>
    requires end <= |value|
  {
    set p: nat | first <= p <= end && StartsLine(value, first, p)
  }

  /** The members after a position. */
  function Later(members: set<nat>, position: nat): set<nat> {
    set p | p in members && p > position
  }

  function SelectionStarts(value: string, s: Selection): set<nat>
    requires SelectionInside(value, s)
  {
    LineStarts(value, FirstLineStart(value, FromOf(s)), InclusiveEnd(value, FromOf(s), ToOf(s)))
  }

  function AllStarts(value: string, selections: seq<Selection>): set<nat>
    requires SelectionsInside(value, selections)
  {
    if selections == [] then {}
    else
      var k := |selections| - 1;
      AllStarts(value, selections[..k]) + SelectionStarts(value, selections[k])
  }

  lemma {:induction false} InAllStarts(value: string, selections: seq<Selection>, p: nat)
    requires SelectionsInside(value, selections)
    ensures p in AllStarts(value, selections)
       <==> exists i :: 0 <= i < |selections| && p in SelectionStarts(value, selections[i])
  {
    if selections != [] {
      var k := |selections| - 1;
      InAllStarts(value, selections[..k], p);
      assert forall i :: 0 <= i < k ==> selections[..k][i] == selections[i];
    }
  }

  /** The members of a set in ascending order. */
  function Listed(members: set<nat>, n: nat): (r: seq<nat>)
    ensures Increasing(r) && Below(r, n)
    ensures forall p: nat :: p in r <==> p < n && p in members
  {
    if n == 0 then []
    else
      var r := Listed(members, n - 1);
      if n - 1 in members then r + [n - 1] else r
  }

  /** The starts of the selected lines, in order. */
  function SelectedLines(value: string, selections: seq<Selection>): (starts: seq<nat>)
    requires SelectionsInside(value, selections)
    ensures Increasing(starts) && Below(starts, |value| + 1)
    ensures forall p: nat :: p in starts <==> p <= |value| && p in AllStarts(value, selections)
  {
    Listed(AllStarts(value, selections), |value| + 1)
  }

  lemma NextLineStart(value: string, first: nat, start: nat, end: nat)
    requires first <= start <= end <= |value|
    ensures var next := LineTo(value, start) + 1; var starts := LineStarts(value, first, end);
            Later(starts, start) == if next <= end then {next} + Later(starts, next) else {}
  {
    var next, starts := LineTo(value, start) + 1, LineStarts(value, first, end);
    LineToEnds(value, start);
    forall p | p in starts && start < p ensures p >= next {
      assert StartsLine(value, first, p);
    }
    assert next <= end ==> StartsLine(value, first, next);
  }

  lemma {:induction false} LineToEnds(value: string, p: nat)
    requires p <= |value|
    ensures var to := LineTo(value, p);
            (to < |value| ==> value[to] == '\n') && forall i :: p <= i < to ==> value[i] != '\n'
    decreases |value| - p
  {
    if p < |value| && value[p] != '\n' {
      LineToEnds(value, p + 1);
    }
  }

  /** The inner loop of selectedLines: from one line start to the next. */
  method CollectStarts(value: string, first: nat, end: nat) returns (starts: set<nat>)
    requires end <= |value|
    ensures starts == LineStarts(value, first, end)
  {
    starts := {};
    var lineStart := first;
    assert first <= end ==> StartsLine(value, first, first);
    while lineStart <= end
      invariant first <= lineStart
      invariant lineStart <= end ==> lineStart in LineStarts(value, first, end)
      invariant starts + (if lineStart <= end then {lineStart} else {}) + Later(LineStarts(value, first, end), lineStart)
             == LineStarts(value, first, end)
      decreases end + 1 - lineStart
    {
      starts := starts + {lineStart};
      NextLineStart(value, first, lineStart, end);
      var newline := LineTo(value, lineStart);
      if newline == |value| || newline >= end {
        return;
      }
      lineStart := newline + 1;
    }
  }

  method FindSelectedLines(value: string, selections: seq<Selection>) returns (lines: seq<nat>)
    requires SelectionsInside(value, selections)
    ensures lines == SelectedLines(value, selections)
  {
    var starts: set<nat> := {};
    for index := 0 to |selections|
      invariant starts == AllStarts(value, selections[..index])
    {
      var s := selections[index];
      var found := CollectStarts(value, FirstLineStart(value, FromOf(s)), InclusiveEnd(value, FromOf(s), ToOf(s)));
      assert selections[..index + 1][..index] == selections[..index];
      starts := starts + found;
    }
    assert selections[..|selections|] == selections;
    lines := Listed(starts, |value| + 1);
  }

  // ---------------------------------------------------------------- the command

  datatype Direction = More | Less

  /** What the pattern `^(?: {1,2}|\t)` matches. */
  function Removable(text: string): (n: nat)
    ensures n <= |text| && n <= 2
  {
    if |text| >= 2 && text[0] == ' ' && text[1] == ' ' then 2
    else if text != "" && (text[0] == ' ' || text[0] == '\t') then 1
    else 0
  }

  function LineText(value: string, start: nat): string
    requires start <= |value|
  {
    value[start..LineTo(value, start)]
  }

  /** The edit for one selected line, if there is one. */
  function LineEdits(value: string, start: nat, direction: Direction): seq<Edit>
    requires start <= |value|
  {
    if direction == More then [Edit(start, start, INDENT)]
    else
      var n := Removable(LineText(value, start));
      if n > 0 then [Edit(start, start + n, "")] else []
  }

  /** The edits for the first `k` selected lines. */
  function IndentEdits(value: string, starts: seq<nat>, direction: Direction, k: nat): (edits: seq<Edit>)
    requires k <= |starts| && Below(starts, |value| + 1)
  {
    if k == 0 then []
    else IndentEdits(value, starts, direction, k - 1) + LineEdits(value, starts[k - 1], direction)
  }

  function FromKeys(edits: seq<Edit>): (keys: seq<int>)
    ensures |keys| == |edits|
  {
    seq(|edits|, i requires 0 <= i < |edits| => edits[i].from as int)
  }

  function SortEdits(edits: seq<Edit>): seq<Edit> {
    Pick(edits, SortOrder(FromKeys(edits), |edits|))
  }

  function Mapped(position: nat, edits: seq<Edit>): nat {
    var p := MapFrom(position, edits, 0);
    if p < 0 then 0 else p
  }

  function MapSelections(selections: seq<Selection>, edits: seq<Edit>): (r: seq<Selection>)
    ensures |r| == |selections|
  {
    seq(|selections|, i requires 0 <= i < |selections| => Selection(Mapped(selections[i].anchor, edits), Mapped(selections[i].head, edits)))
  }

  /** indentMarkdownLinesTransaction; nothing to do is no transaction. */
  function IndentTransaction(value: string, selections: seq<Selection>, direction: Direction): Option<Transaction>
    requires SelectionsInside(value, selections)
  {
    var starts := SelectedLines(value, selections);
    var sorted := SortEdits(IndentEdits(value, starts, direction, |starts|));
    if sorted == [] then None else Some(Transaction(sorted, MapSelections(selections, sorted)))
  }

  method IndentMarkdownLines(value: string, selections: seq<Selection>, direction: Direction) returns (t: Option<Transaction>)
    requires SelectionsInside(value, selections)
    ensures t == IndentTransaction(value, selections, direction)
  {
    var lines := FindSelectedLines(value, selections);
    var edits: seq<Edit> := [];
    for index := 0 to |lines|
      invariant edits == IndentEdits(value, lines, direction, index)
    {
      if direction == More {
        edits := edits + [Edit(lines[index], lines[index], INDENT)];
        continue;
      }
      var removable := Removable(LineText(value, lines[index]));
      if removable > 0 {
        edits := edits + [Edit(lines[index], lines[index] + removable, "")];
      }
    }
    var sorted := SortEdits(edits);
    if sorted == [] {
      return None;
    }
    t := Some(Transaction(sorted, MapSelections(selections, sorted)));
  }

  lemma SortAscendingEdits(edits: seq<Edit>, length: nat)
    requires Ascending(edits, length)
    ensures SortEdits(edits) == edits
  {
    forall i, j | 0 <= i < j < |edits| ensures FromKeys(edits)[i] <= FromKeys(edits)[j] {
      AscendingApart(edits, length, i, j);
      EndInside(edits, length, i);
    }
    SortAscending(FromKeys(edits), |edits|);
  }

  // ---------------------------------------------------------------- the indented text

  /** The insertions before the given lines. */
  function Insertions(starts: seq<nat>): (edits: seq<Edit>)
    ensures |edits| == |starts|
  {
    seq(|starts|, k requires 0 <= k < |starts| => Edit(starts[k], starts[k], INDENT))
  }

  lemma {:induction false} MoreEdits(value: string, starts: seq<nat>, k: nat)
    requires k <= |starts| && Below(starts, |value| + 1)
    ensures IndentEdits(value, starts, More, k) == Insertions(starts)[..k]
  {
    if k > 0 {
      MoreEdits(value, starts, k - 1);
    }
  }

  lemma InsertionsAscend(starts: seq<nat>, length: nat)
    requires Increasing(starts) && Below(starts, length + 1)
    ensures Ascending(Insertions(starts), length) && DistinctStarts(Insertions(starts))
    ensures Edits.Inserts(Insertions(starts))
  {
    forall i | 0 <= i < |starts| ensures InOrderAt(Insertions(starts), length, i) {
      assert i > 0 ==> starts[i - 1] < starts[i];
    }
  }

  lemma {:induction false} InsertionShift(starts: seq<nat>, k: nat)
    requires k <= |starts|
    ensures Shift(Insertions(starts), k) == 2 * k
  {
    if k > 0 {
      InsertionShift(starts, k - 1);
    }
  }

  function Indented(value: string, starts: seq<nat>): string
    requires Increasing(starts) && Below(starts, |value| + 1)
  {
    InsertionsAscend(starts, |value|);
    Spliced(value, Insertions(starts))
  }

  /** Where a line start moves: in front of its own indentation. */
  function MovedStart(starts: seq<nat>, p: nat): nat {
    p + 2 * CountBelow(starts, p)
  }

  /** Where a position or a character moves: behind the indentation of its line. */
  function MovedPosition(starts: seq<nat>, p: nat): nat {
    p + 2 * CountBelow(starts, p + 1)
  }

  lemma CountIs(starts: seq<nat>, gap: nat, k: nat)
    requires Increasing(starts) && k <= |starts|
    requires (k > 0 ==> starts[k - 1] < gap) && (k < |starts| ==> starts[k] >= gap)
    ensures CountBelow(starts, gap) == k
  {
    CountBelowBound(starts, gap);
    var c := CountBelow(starts, gap);
    assert c < |starts| ==> !(starts[c] < gap);
  }

  lemma CountMonotone(starts: seq<nat>, a: nat, b: nat)
    requires Increasing(starts) && a <= b
    ensures CountBelow(starts, a) <= CountBelow(starts, b)
  {
    CountBelowBound(starts, a);
    CountBelowBound(starts, b);
    var c := CountBelow(starts, a);
    assert c > 0 ==> starts[c - 1] < a;
  }

  /** The order of positions is kept, and a line start stays in front of what it started. */
  lemma MovesKeepOrder(starts: seq<nat>, p: nat, q: nat)
    requires Increasing(starts) && p < q
    ensures MovedStart(starts, p) <= MovedPosition(starts, p) < MovedStart(starts, q) <= MovedPosition(starts, q)
  {
    CountMonotone(starts, p, p + 1);
    CountMonotone(starts, p + 1, q);
    CountMonotone(starts, q, q + 1);
  }

  lemma MovedNext(starts: seq<nat>, p: nat)
    requires Increasing(starts)
    ensures MovedStart(starts, p + 1) == MovedPosition(starts, p) + 1
    ensures MovedPosition(starts, p) == MovedStart(starts, p) + if p in starts then 2 else 0
  {
    CountBelowStep(starts, p);
  }

  lemma CharAt(w: string, start: int, text: string, k: nat)
    requires StandsAt(w, start, text) && k < |text|
    ensures start + k < |w| && w[start + k] == text[k]
  {
    assert w[start..start + |text|][k] == w[start + k];
  }

  lemma IndentedParts(value: string, starts: seq<nat>, k: nat)
    requires Increasing(starts) && Below(starts, |value| + 1) && k < |starts|
    ensures starts[k] <= |value| && (if k == 0 then 0 else starts[k - 1]) <= starts[k]
    ensures var low := if k == 0 then 0 else starts[k - 1];
            && StandsAt(Indented(value, starts), low + 2 * k, value[low..starts[k]])
            && StandsAt(Indented(value, starts), starts[k] + 2 * k, INDENT)
  {
    var edits := Insertions(starts);
    InsertionsAscend(starts, |value|);
    InsertionShift(starts, k);
    InsertedAt(value, edits, k);
    assert k > 0 ==> starts[k - 1] < starts[k];
  }

  lemma IndentedEnd(value: string, starts: seq<nat>)
    requires Increasing(starts) && Below(starts, |value| + 1)
    ensures var n := |starts|; var low := if n == 0 then 0 else starts[n - 1];
            && low <= |value| && |Indented(value, starts)| == |value| + 2 * n
            && StandsAt(Indented(value, starts), low + 2 * n, value[low..])
  {
    var n := |starts|;
    var edits := Insertions(starts);
    InsertionsAscend(starts, |value|);
    InsertionShift(starts, n);
    HeadTail(value, edits, n);
    HeadLength(value, edits, n);
    EndInside(edits, |value|, n);
    TailStands(HeadUpto(value, edits, n), value[EndOf(edits, n)..]);
  }

  lemma TailStands(head: string, tail: string)
    ensures StandsAt(head + tail, |head|, tail)
  {
  }

  lemma {:induction false} CharInSlice(w: string, at: nat, value: string, low: nat, high: nat, p: nat)
    requires low <= p < high <= |value| && StandsAt(w, at, value[low..high])
    ensures at + (p - low) < |w| && w[at + (p - low)] == value[p]
  {
    var text := value[low..high];
    CharAt(w, at, text, p - low);
  }

  lemma {:induction false} CharInPart(value: string, starts: seq<nat>, p: nat, k: nat)
    requires Increasing(starts) && Below(starts, |value| + 1) && p < |value| && k <= |starts|
    requires (k > 0 ==> starts[k - 1] <= p) && (k < |starts| ==> p < starts[k])
    ensures p + 2 * k < |Indented(value, starts)| && Indented(value, starts)[p + 2 * k] == value[p]
  {
    var w := Indented(value, starts);
    var low := if k == 0 then 0 else starts[k - 1];
    var at := low + 2 * k;
    assert at + (p - low) == p + 2 * k;
    if k < |starts| {
      IndentedParts(value, starts, k);
      CharInSlice(w, at, value, low, starts[k], p);
    } else {
      IndentedEnd(value, starts);
      assert value[low..] == value[low..|value|];
      CharInSlice(w, at, value, low, |value|, p);
    }
  }

  /** Every character of the text is found at its moved position. */
  lemma MovedChar(value: string, starts: seq<nat>, p: nat)
    requires Increasing(starts) && Below(starts, |value| + 1) && p < |value|
    ensures MovedPosition(starts, p) < |Indented(value, starts)|
    ensures Indented(value, starts)[MovedPosition(starts, p)] == value[p]
  {
    CountBelowBound(starts, p + 1);
    var k := CountBelow(starts, p + 1);
    assert k > 0 ==> starts[k - 1] < p + 1;
    assert k < |starts| ==> !(starts[k] < p + 1);
    CharInPart(value, starts, p, k);
  }

  /** Every selected line starts with the indentation. */
  lemma IndentStands(value: string, starts: seq<nat>, k: nat)
    requires Increasing(starts) && Below(starts, |value| + 1) && k < |starts|
    ensures var start := MovedStart(starts, starts[k]); var w := Indented(value, starts);
            start == starts[k] + 2 * k && start + 1 < |w| && w[start] == ' ' && w[start + 1] == ' '
  {
    assert k > 0 ==> starts[k - 1] < starts[k];
    CountIs(starts, starts[k], k);
    IndentedParts(value, starts, k);
    CharAt(Indented(value, starts), starts[k] + 2 * k, INDENT, 0);
    CharAt(Indented(value, starts), starts[k] + 2 * k, INDENT, 1);
  }

  /** Every character of the indented text that is no blank comes from the text. */
  lemma {:induction false} CameFrom(value: string, starts: seq<nat>, j: nat, k: nat) returns (p: nat)
    requires Increasing(starts) && Below(starts, |value| + 1) && k <= |starts|
    requires j < |Indented(value, starts)| && Indented(value, starts)[j] != ' '
    requires k < |starts| ==> j < starts[k] + 2 * k
    ensures p < |value| && MovedPosition(starts, p) == j
    decreases k
  {
    var w := Indented(value, starts);
    IndentedEnd(value, starts);
    var low := if k == 0 then 0 else starts[k - 1];
    if j >= low + 2 * k {
      p := j - 2 * k;
      CountIs(starts, p + 1, k);
    } else {
      IndentStands(value, starts, k - 1);
      p := CameFrom(value, starts, j, k - 1);
    }
  }

  // ---------------------------------------------------------------- lines of the indented text

  predicate Fits(value: string, starts: seq<nat>) {
    Increasing(starts) && Below(starts, |value| + 1)
  }

  lemma MovedInside(value: string, starts: seq<nat>, p: nat)
    requires Fits(value, starts) && p <= |value|
    ensures MovedPosition(starts, p) <= |Indented(value, starts)|
    ensures MovedStart(starts, p) <= MovedPosition(starts, p)
  {
    IndentedEnd(value, starts);
    CountMonotone(starts, p, p + 1);
  }

  /** A line start moves to a line start. */
  lemma MovedLineStart(value: string, starts: seq<nat>, p: nat)
    requires Fits(value, starts) && 0 < p <= |value| && value[p - 1] == '\n'
    ensures 0 < MovedStart(starts, p) <= |Indented(value, starts)|
    ensures Indented(value, starts)[MovedStart(starts, p) - 1] == '\n'
  {
    MovedNext(starts, p - 1);
    MovedChar(value, starts, p - 1);
  }

  /** Every line start of the indented text, but the first, is where a line start of the text moved. */
  lemma LineStartCameFrom(value: string, starts: seq<nat>, q: nat) returns (p: nat)
    requires Fits(value, starts) && 0 < q <= |Indented(value, starts)| && Indented(value, starts)[q - 1] == '\n'
    ensures 0 < p <= |value| && value[p - 1] == '\n' && MovedStart(starts, p) == q
  {
    var c := CameFrom(value, starts, q - 1, |starts|);
    MovedChar(value, starts, c);
    MovedNext(starts, c);
    p := c + 1;
  }

  lemma {:induction false} LineFromIs(value: string, p: nat, start: nat)
    requires start <= p <= |value| && IsLineStart(value, start) && forall i :: start <= i < p ==> value[i] != '\n'
    ensures LineFrom(value, p) == start
    decreases p
  {
    if start < p {
      LineFromIs(value, p - 1, start);
    }
  }

  lemma {:induction false} LineFromStarts(value: string, p: nat)
    requires p <= |value|
    ensures IsLineStart(value, LineFrom(value, p)) && forall i :: LineFrom(value, p) <= i < p ==> value[i] != '\n'
  {
    if p > 0 && value[p - 1] != '\n' {
      LineFromStarts(value, p - 1);
    }
  }

  /** The line of a position moves with it. */
  lemma MovedLineFrom(value: string, starts: seq<nat>, p: nat)
    requires Fits(value, starts) && p <= |value|
    ensures MovedPosition(starts, p) <= |Indented(value, starts)|
    ensures LineFrom(Indented(value, starts), MovedPosition(starts, p)) == MovedStart(starts, LineFrom(value, p))
  {
    var w := Indented(value, starts);
    var line := LineFrom(value, p);
    var start, position := MovedStart(starts, line), MovedPosition(starts, p);
    LineFromStarts(value, p);
    MovedInside(value, starts, p);
    if line < p {
      MovesKeepOrder(starts, line, p);
    }
    CountBelowBound(starts, 0);
    if line > 0 {
      MovedLineStart(value, starts, line);
    }
    forall j | start <= j < position ensures w[j] != '\n' {
      if w[j] == '\n' {
        var c := CameFrom(value, starts, j, |starts|);
        MovedChar(value, starts, c);
        NotInLine(starts, line, p, c);
      }
    }
    LineFromIs(w, position, start);
  }

  lemma NotInLine(starts: seq<nat>, line: nat, p: nat, c: nat)
    requires Increasing(starts) && MovedStart(starts, line) <= MovedPosition(starts, c) < MovedPosition(starts, p)
    ensures line <= c < p
  {
    if c < line {
      MovesKeepOrder(starts, c, line);
    }
    if p < c {
      MovesKeepOrder(starts, p, c);
    }
  }

  // ---------------------------------------------------------------- the lines selected the second time

  function MovedSelection(starts: seq<nat>, s: Selection): Selection {
    Selection(MovedPosition(starts, s.anchor), MovedPosition(starts, s.head))
  }

  lemma MovedEnds(starts: seq<nat>, s: Selection)
    requires Increasing(starts)
    ensures FromOf(MovedSelection(starts, s)) == MovedPosition(starts, FromOf(s))
    ensures ToOf(MovedSelection(starts, s)) == MovedPosition(starts, ToOf(s))
  {
    if s.anchor < s.head {
      MovesKeepOrder(starts, s.anchor, s.head);
    } else if s.head < s.anchor {
      MovesKeepOrder(starts, s.head, s.anchor);
    }
  }

  /** If the text starts with an empty line, no selection selects that line. */
  lemma EmptyFirstLineNotSelected(value: string, selections: seq<Selection>)
    requires SelectionsInside(value, selections) && value != "" && value[0] == '\n'
    ensures 0 !in SelectedLines(value, selections)
  {
    InAllStarts(value, selections, 0);
    forall i | 0 <= i < |selections| ensures 0 !in SelectionStarts(value, selections[i]) {
      var from := FromOf(selections[i]);
      FirstLineStartIs(value, from);
      LineFromStarts(value, from);
    }
  }

  /** The first selected line moves to the first line selected the second time. */
  lemma MovedFirstLine(value: string, selections: seq<Selection>, from: nat)
    requires SelectionsInside(value, selections) && from <= |value|
    ensures var starts := SelectedLines(value, selections);
            FirstLineStart(Indented(value, starts), MovedPosition(starts, from)) == MovedStart(starts, FirstLineStart(value, from))
  {
    var starts := SelectedLines(value, selections);
    var w := Indented(value, starts);
    MovedLineFrom(value, starts, from);
    FirstLineStartIs(value, from);
    FirstLineStartIs(w, MovedPosition(starts, from));
    CountBelowBound(starts, 0);
    CountBelowStep(starts, 0);
    if value != "" && value[0] == '\n' {
      EmptyFirstLineNotSelected(value, selections);
      MovedChar(value, starts, 0);
    } else if w != "" && w[0] == '\n' {
      var c := CameFrom(value, starts, 0, |starts|);
      MovedChar(value, starts, c);
    }
  }

  /** Where the selection ends the second time. */
  lemma MovedInclusiveEnd(value: string, starts: seq<nat>, from: nat, to: nat)
    requires Fits(value, starts) && from <= to <= |value|
    ensures MovedPosition(starts, to) <= |Indented(value, starts)|
    ensures InclusiveEnd(Indented(value, starts), MovedPosition(starts, from), MovedPosition(starts, to))
         == if to !in starts && InclusiveEnd(value, from, to) < to then MovedPosition(starts, to - 1) else MovedPosition(starts, to)
  {
    MovedInside(value, starts, to);
    if from < to {
      MovesKeepOrder(starts, from, to);
      MovedNext(starts, to - 1);
      MovedNext(starts, to);
      MovedChar(value, starts, to - 1);
      if to in starts {
        var k :| 0 <= k < |starts| && starts[k] == to;
        IndentStands(value, starts, k);
      }
    }
  }

  /** A selected line is selected again, at its new place. */
  lemma SelectedAgain(value: string, selections: seq<Selection>, s: Selection, p: nat)
    requires SelectionsInside(value, selections) && SelectionInside(value, s) && p in SelectionStarts(value, s)
    requires var starts := SelectedLines(value, selections); SelectionInside(Indented(value, starts), MovedSelection(starts, s))
    ensures var starts := SelectedLines(value, selections);
            MovedStart(starts, p) in SelectionStarts(Indented(value, starts), MovedSelection(starts, s))
  {
    var starts := SelectedLines(value, selections);
    var w := Indented(value, starts);
    var from, to := FromOf(s), ToOf(s);
    var first, end := FirstLineStart(value, from), InclusiveEnd(value, from, to);
    MovedEnds(starts, s);
    MovedFirstLine(value, selections, from);
    MovedInclusiveEnd(value, starts, from, to);
    MovedInside(value, starts, p);
    if p < to {
      MovesKeepOrder(starts, p, to);
      if p < to - 1 {
        MovesKeepOrder(starts, p, to - 1);
      }
    }
    assert StartsLine(value, first, p);
    if p > first {
      MovesKeepOrder(starts, first, p);
      MovedLineStart(value, starts, p);
    }
    assert StartsLine(w, FirstLineStart(w, MovedPosition(starts, from)), MovedStart(starts, p));
  }

  /** No other line is selected the second time. */
  lemma {:induction false} NothingElseSelected(value: string, selections: seq<Selection>, i: nat, q: nat) returns (p: nat)
    requires SelectionsInside(value, selections) && i < |selections|
    requires var starts := SelectedLines(value, selections);
             && SelectionInside(Indented(value, starts), MovedSelection(starts, selections[i]))
             && q in SelectionStarts(Indented(value, starts), MovedSelection(starts, selections[i]))
    ensures p in SelectedLines(value, selections) && q == MovedStart(SelectedLines(value, selections), p)
  {
    var starts := SelectedLines(value, selections);
    var w := Indented(value, starts);
    var s := selections[i];
    var from, to := FromOf(s), ToOf(s);
    var first, end := FirstLineStart(value, from), InclusiveEnd(value, from, to);
    MovedEnds(starts, s);
    MovedFirstLine(value, selections, from);
    MovedInclusiveEnd(value, starts, from, to);
    assert StartsLine(w, FirstLineStart(w, MovedPosition(starts, from)), q);
    if q == MovedStart(starts, first) {
      p := first;
    } else {
      p := LineStartCameFrom(value, starts, q);
    }
    if p < first {
      MovesKeepOrder(starts, p, first);
    }
    if p > to {
      MovesKeepOrder(starts, to, p);
    }
    MovedNext(starts, to);
    if to > 0 {
      MovedNext(starts, to - 1);
    }
    InAllStarts(value, selections, p);
    assert p <= end ==> StartsLine(value, first, p) && p in SelectionStarts(value, s);
  }

  function MovedStarts(starts: seq<nat>): (r: seq<nat>)
    ensures |r| == |starts|
  {
    seq(|starts|, k requires 0 <= k < |starts| => MovedStart(starts, starts[k]))
  }

  lemma MovedStartsAscend(starts: seq<nat>)
    requires Increasing(starts)
    ensures Increasing(MovedStarts(starts))
    ensures forall k :: 0 <= k < |starts| ==> MovedStarts(starts)[k] == starts[k] + 2 * k
  {
    forall k | 0 <= k < |starts| ensures MovedStarts(starts)[k] == starts[k] + 2 * k {
      assert k > 0 ==> starts[k - 1] < starts[k];
      CountIs(starts, starts[k], k);
    }
    forall i, j | 0 <= i < j < |starts| ensures MovedStarts(starts)[i] < MovedStarts(starts)[j] {
      MovesKeepOrder(starts, starts[i], starts[j]);
    }
  }

  function MovedSelections(starts: seq<nat>, selections: seq<Selection>): (r: seq<Selection>)
    ensures |r| == |selections|
  {
    seq(|selections|, i requires 0 <= i < |selections| => MovedSelection(starts, selections[i]))
  }

  lemma MovedSelectionsInside(value: string, starts: seq<nat>, selections: seq<Selection>)
    requires SelectionsInside(value, selections) && Fits(value, starts)
    ensures SelectionsInside(Indented(value, starts), MovedSelections(starts, selections))
  {
    forall i | 0 <= i < |selections| ensures SelectionInside(Indented(value, starts), MovedSelections(starts, selections)[i]) {
      MovedInside(value, starts, selections[i].anchor);
      MovedInside(value, starts, selections[i].head);
    }
  }

  /** The same lines are selected the second time. */
  lemma SameLinesSelected(value: string, selections: seq<Selection>)
    requires SelectionsInside(value, selections)
    ensures var starts := SelectedLines(value, selections); var w := Indented(value, starts);
            && SelectionsInside(w, MovedSelections(starts, selections))
            && SelectedLines(w, MovedSelections(starts, selections)) == MovedStarts(starts)
  {
    var starts := SelectedLines(value, selections);
    var w, moved := Indented(value, starts), MovedSelections(starts, selections);
    MovedSelectionsInside(value, starts, selections);
    MovedStartsAscend(starts);
    forall q: nat ensures q in SelectedLines(w, moved) <==> q in MovedStarts(starts) {
      InAllStarts(w, moved, q);
      if q in MovedStarts(starts) {
        var k :| 0 <= k < |starts| && MovedStarts(starts)[k] == q;
        assert starts[k] in starts;
        StillSelected(value, selections, starts[k]);
      }
      if q in SelectedLines(w, moved) {
        var i :| 0 <= i < |moved| && q in SelectionStarts(w, moved[i]);
        var p := NothingElseSelected(value, selections, i, q);
        var k :| 0 <= k < |starts| && starts[k] == p;
        assert MovedStarts(starts)[k] == q;
      }
    }
    IncreasingUnique(SelectedLines(w, moved), MovedStarts(starts));
  }

  lemma StillSelected(value: string, selections: seq<Selection>, p: nat)
    requires SelectionsInside(value, selections) && p in SelectedLines(value, selections)
    requires var starts := SelectedLines(value, selections);
             SelectionsInside(Indented(value, starts), MovedSelections(starts, selections))
    ensures var starts := SelectedLines(value, selections); var w := Indented(value, starts);
            MovedStart(starts, p) in SelectedLines(w, MovedSelections(starts, selections))
  {
    var starts := SelectedLines(value, selections);
    var w, moved := Indented(value, starts), MovedSelections(starts, selections);
    InAllStarts(value, selections, p);
    var i :| 0 <= i < |selections| && p in SelectionStarts(value, selections[i]);
    assert moved[i] == MovedSelection(starts, selections[i]);
    SelectedAgain(value, selections, selections[i], p);
    InAllStarts(w, moved, MovedStart(starts, p));
  }

  // ---------------------------------------------------------------- the two transactions

  lemma {:induction false} MapThroughInsertions(starts: seq<nat>, p: nat, k: nat)
    requires Increasing(starts) && k <= CountBelow(starts, p + 1)
    ensures MapFrom(p, Insertions(starts)[k..], 2 * k) == MovedPosition(starts, p)
    decreases |starts| - k
  {
    CountBelowBound(starts, p + 1);
    if k < |starts| {
      assert Insertions(starts)[k..][1..] == Insertions(starts)[k + 1..];
      if starts[k] < p + 1 {
        MapThroughInsertions(starts, p, k + 1);
      }
    }
  }

  lemma MappedByInsertions(starts: seq<nat>, selections: seq<Selection>)
    requires Increasing(starts)
    ensures MapSelections(selections, Insertions(starts)) == MovedSelections(starts, selections)
  {
    var edits := Insertions(starts);
    assert edits[0..] == edits;
    forall p: nat ensures Mapped(p, edits) == MovedPosition(starts, p) {
      MapThroughInsertions(starts, p, 0);
    }
  }

  lemma InsertionsSorted(value: string, starts: seq<nat>)
    requires Fits(value, starts)
    ensures SortEdits(IndentEdits(value, starts, More, |starts|)) == Insertions(starts)
  {
    MoreEdits(value, starts, |starts|);
    InsertionsAscend(starts, |value|);
    SortAscendingEdits(Insertions(starts), |value|);
    assert Insertions(starts)[..|starts|] == Insertions(starts);
  }

  lemma InsertionsApplied(value: string, starts: seq<nat>)
    requires Fits(value, starts)
    ensures NonOverlapping(Insertions(starts)) && Apply(value, Insertions(starts)) == Indented(value, starts)
  {
    InsertionsAscend(starts, |value|);
    ApplyIsSplice(value, Insertions(starts));
    AscendingSeparate(Insertions(starts), |value|);
  }

  /** Indenting moves every selection as described, and is never refused. */
  lemma IndentMoves(value: string, selections: seq<Selection>)
    requires SelectionsInside(value, selections)
    ensures var starts := SelectedLines(value, selections);
            IndentTransaction(value, selections, More)
            == if starts == [] then None else Some(Transaction(Insertions(starts), MovedSelections(starts, selections)))
  {
    var starts := SelectedLines(value, selections);
    InsertionsSorted(value, starts);
    MappedByInsertions(starts, selections);
  }

  /** The deletions that take the indentation back. */
  function Deletions(starts: seq<nat>): (edits: seq<Edit>)
    ensures |edits| == |starts|
  {
    seq(|starts|, k requires 0 <= k < |starts| => Edit(starts[k] + 2 * k, starts[k] + 2 * k + 2, ""))
  }

  lemma DeletionsUndo(value: string, starts: seq<nat>)
    requires Fits(value, starts)
    ensures Ascending(Insertions(starts), |value|) && Inverse(value, Insertions(starts)) == Deletions(starts)
  {
    InsertionsAscend(starts, |value|);
    forall k | 0 <= k < |starts| ensures Inverse(value, Insertions(starts))[k] == Deletions(starts)[k] {
      InsertionShift(starts, k);
    }
  }

  /** The line of a selected line start begins with the indentation, which is what the pattern removes. */
  lemma RemovesIndent(value: string, starts: seq<nat>, k: nat)
    requires Fits(value, starts) && k < |starts|
    ensures starts[k] + 2 * k <= |Indented(value, starts)|
    ensures Removable(LineText(Indented(value, starts), starts[k] + 2 * k)) == 2
  {
    var w, start := Indented(value, starts), starts[k] + 2 * k;
    IndentStands(value, starts, k);
    assert LineTo(w, start) == LineTo(w, start + 1) == LineTo(w, start + 2);
    assert LineText(w, start)[0] == ' ' && LineText(w, start)[1] == ' ';
  }

  lemma RemovedLine(value: string, starts: seq<nat>, k: nat)
    requires Fits(value, starts) && k < |starts|
    ensures MovedStarts(starts)[k] <= |Indented(value, starts)|
    ensures LineEdits(Indented(value, starts), MovedStarts(starts)[k], Less) == [Deletions(starts)[k]]
  {
    MovedStartsAscend(starts);
    RemovesIndent(value, starts, k);
  }

  lemma {:induction false} LessEdits(value: string, starts: seq<nat>, k: nat)
    requires Fits(value, starts) && k <= |starts| && Below(MovedStarts(starts), |Indented(value, starts)| + 1)
    ensures IndentEdits(Indented(value, starts), MovedStarts(starts), Less, k) == Deletions(starts)[..k]
  {
    if k > 0 {
      LessEdits(value, starts, k - 1);
      RemovedLine(value, starts, k - 1);
    }
  }

  /** How many selected lines start up to position `p`, compared with the next one. */
  lemma CountAgainst(starts: seq<nat>, p: nat, k: nat)
    requires Increasing(starts) && k < |starts| && (k > 0 ==> starts[k - 1] < p)
    ensures starts[k] < p ==> CountBelow(starts, p + 1) >= k + 1
    ensures starts[k] == p ==> CountBelow(starts, p + 1) == k + 1
    ensures starts[k] > p ==> CountBelow(starts, p + 1) == k
  {
    CountBelowBound(starts, p + 1);
    if starts[k] == p {
      assert k + 1 < |starts| ==> starts[k] < starts[k + 1];
      CountIs(starts, p + 1, k + 1);
    } else if starts[k] > p {
      CountIs(starts, p + 1, k);
    }
  }

  lemma {:induction false} MapThroughDeletions(starts: seq<nat>, p: nat, k: nat)
    requires Increasing(starts) && k <= |starts| && (k > 0 ==> starts[k - 1] < p)
    ensures MapFrom(MovedPosition(starts, p), Deletions(starts)[k..], -2 * k) == p
    decreases |starts| - k
  {
    if k < |starts| {
      var edits := Deletions(starts)[k..];
      assert edits[1..] == Deletions(starts)[k + 1..] && edits[0] == Deletions(starts)[k];
      CountAgainst(starts, p, k);
      if starts[k] < p {
        MapThroughDeletions(starts, p, k + 1);
      }
    } else {
      CountIs(starts, p + 1, k);
    }
  }

  lemma MappedByDeletions(starts: seq<nat>, selections: seq<Selection>)
    requires Increasing(starts)
    ensures MapSelections(MovedSelections(starts, selections), Deletions(starts)) == selections
  {
    var edits := Deletions(starts);
    assert edits[0..] == edits;
    forall i | 0 <= i < |selections| ensures MapSelections(MovedSelections(starts, selections), edits)[i] == selections[i] {
      MapThroughDeletions(starts, selections[i].anchor, 0);
      MapThroughDeletions(starts, selections[i].head, 0);
    }
  }

  lemma DeletionsSorted(value: string, starts: seq<nat>)
    requires Fits(value, starts) && Below(MovedStarts(starts), |Indented(value, starts)| + 1)
    ensures SortEdits(IndentEdits(Indented(value, starts), MovedStarts(starts), Less, |starts|)) == Deletions(starts)
    ensures NonOverlapping(Deletions(starts)) && Apply(Indented(value, starts), Deletions(starts)) == value
  {
    var w, edits := Indented(value, starts), Insertions(starts);
    LessEdits(value, starts, |starts|);
    assert Deletions(starts)[..|starts|] == Deletions(starts);
    DeletionsUndo(value, starts);
    InsertionsAscend(starts, |value|);
    InverseAscending(value, edits);
    SortAscendingEdits(Deletions(starts), |w|);
    InverseRestores(value, edits);
    InverseSeparate(value, edits);
    ApplyIsSplice(w, Deletions(starts));
  }

  /** Taking the indentation back moves every selection back. */
  lemma OutdentMoves(value: string, selections: seq<Selection>)
    requires SelectionsInside(value, selections) && SelectedLines(value, selections) != []
    ensures var starts := SelectedLines(value, selections);
            && SelectionsInside(Indented(value, starts), MovedSelections(starts, selections))
            && IndentTransaction(Indented(value, starts), MovedSelections(starts, selections), Less)
               == Some(Transaction(Deletions(starts), selections))
            && NonOverlapping(Deletions(starts)) && Apply(Indented(value, starts), Deletions(starts)) == value
  {
    var starts := SelectedLines(value, selections);
    SameLinesSelected(value, selections);
    DeletionsSorted(value, starts);
    MappedByDeletions(starts, selections);
  }

  /** Indent more followed by indent less restores the document and every selection, for any selections over any
      lines for which the first command does something. Neither transaction is refused. */
  lemma IndentThenOutdent(value: string, selections: seq<Selection>, t: Transaction)
    requires SelectionsInside(value, selections) && IndentTransaction(value, selections, More) == Some(t)
    ensures NonOverlapping(t.changes) && SelectionsInside(Apply(value, t.changes), t.selections)
    ensures var back := IndentTransaction(Apply(value, t.changes), t.selections, Less);
            && back.Some? && NonOverlapping(back.value.changes)
            && Apply(Apply(value, t.changes), back.value.changes) == value
            && back.value.selections == selections
  {
    IndentMoves(value, selections);
    InsertionsApplied(value, SelectedLines(value, selections));
    OutdentMoves(value, selections);
  }
}
