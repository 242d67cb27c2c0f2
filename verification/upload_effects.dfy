/** What an upload does to the media files, for content that is there and for content that is new, and the order in
    which a clean-up takes files orphaned at one time. */
module UploadEffects {
  import opened Text
  import opened MediaFiles

  /** Equal content: same namespace, same purpose, same checksum. */
  predicate SameContent(row: FileRow, e: Event)
    requires e.Upload?
  {
    row.(path := "", orphanedAt := None) == FileRow(e.namespace, e.purpose, e.sha, "", None)
  }

  /** The id is taken, or the path within the namespace. */
  predicate Taken(s: State, e: Event)
    requires e.Upload?
  {
    e.id in s.rows.Keys || exists other :: other in s.rows && ObjectOf(s.rows[other]) == Object(e.namespace, e.path)
  }

  /** Content that is there is not stored again: its row is kept, with a new orphan time if it had one. */
  lemma ContentReused(s: State, e: Event, id: string)
    requires Invariant(s) && e.Upload? && id in s.rows && SameContent(s.rows[id], e)
    ensures var row := s.rows[id];
            Step(s, e) == s.(rows := s.rows[id := row.(orphanedAt := if row.orphanedAt == None then None else Some(e.now))])
  {
    assert Matches(s.rows[id], e.namespace, e.purpose, e.sha);
    var found := Duplicate(s.rows, e.namespace, e.purpose, e.sha);
    assert found == id;
    assert s.rows[id := s.rows[id]] == s.rows;
  }

  /** New content: a taken key changes nothing, an upload that succeeds adds exactly one unused row with its object, and
      one that raises adds at most the object. */
  lemma ContentAdded(s: State, e: Event)
    requires e.Upload? && forall id :: id in s.rows ==> !SameContent(s.rows[id], e)
    ensures Taken(s, e) ==> Step(s, e) == s
    ensures !Taken(s, e) && e.outcome == Uploaded ==>
              Step(s, e) == s.(rows := s.rows[e.id := FileRow(e.namespace, e.purpose, e.sha, e.path, Some(e.now))],
                               objects := s.objects + {Object(e.namespace, e.path)})
    ensures !Taken(s, e) && e.outcome == UploadRaises(true) ==> Step(s, e) == s.(objects := s.objects + {Object(e.namespace, e.path)})
    ensures !Taken(s, e) && e.outcome == UploadRaises(false) ==> Step(s, e) == s
  {
    assert forall id :: id in s.rows && Matches(s.rows[id], e.namespace, e.purpose, e.sha) ==> SameContent(s.rows[id], e);
    if other :| other in s.rows && s.rows[other].namespace == e.namespace && s.rows[other].path == e.path {
      assert ObjectOf(s.rows[other]) == Object(e.namespace, e.path);
    }
  }

  // ---------------------------------------------------------------- ties

  /** The texts agree up to `k`, where the first one ends or has the smaller character. */
  predicate DiffersAt(a: string, b: string, k: nat) {
    k <= |a| && k < |b| && a[..k] == b[..k] && (k < |a| ==> a[k] < b[k])
  }

  lemma {:induction false} FirstDifference(a: string, b: string) returns (k: nat)
    requires LexLess(a, b)
    ensures DiffersAt(a, b, k)
  {
    if a == "" || a[0] < b[0] {
      k := 0;
    } else {
      var rest := FirstDifference(a[1..], b[1..]);
      k := rest + 1;
      assert a[..k] == [a[0]] + a[1..][..rest] && b[..k] == [b[0]] + b[1..][..rest];
    }
  }

  lemma {:induction false} LessAtDifference(a: string, b: string, k: nat)
    requires DiffersAt(a, b, k)
    ensures LexLess(a, b)
  {
    if k > 0 {
      assert a[0] == a[..k][0] && b[0] == b[..k][0];
      assert a[1..][..k - 1] == a[..k][1..] && b[1..][..k - 1] == b[..k][1..];
      LessAtDifference(a[1..], b[1..], k - 1);
    }
  }

  /** The order of ids is the order of their first difference. */
  lemma LessIff(a: string, b: string)
    ensures LexLess(a, b) <==> exists k :: DiffersAt(a, b, k)
  {
    if LexLess(a, b) {
      var k := FirstDifference(a, b);
    }
    if k :| DiffersAt(a, b, k) {
      LessAtDifference(a, b, k);
    }
  }

  /** A clean-up takes files that were orphaned earlier first, files of one time in the order of their ids, and leaves
      one out only when the batch is full of such as come before it. */
  lemma CleanupOrder(rows: map<string, FileRow>, namespace: string, cutoff: int, limit: nat, candidates: seq<string>, i: nat, id: string)
    requires IsCleanupList(rows, namespace, cutoff, limit, candidates) && i < |candidates| && id in rows
    requires id in candidates[i + 1..] || (IsOrphan(rows, namespace, cutoff, id) && id !in candidates)
    ensures candidates[i] in rows && rows[candidates[i]].orphanedAt.Some? && rows[id].orphanedAt.Some?
    ensures var s, t := rows[candidates[i]].orphanedAt.value, rows[id].orphanedAt.value;
            s < t || (s == t && exists k :: DiffersAt(candidates[i], id, k))
    ensures id !in candidates ==> |candidates| == limit
  {
    assert IsOrphan(rows, namespace, cutoff, candidates[i]);
    if id in candidates[i + 1..] {
      var j :| 0 <= j < |candidates[i + 1..]| && candidates[i + 1..][j] == id;
      assert candidates[i + 1 + j] == id;
      assert IsOrphan(rows, namespace, cutoff, candidates[i + 1 + j]);
    }
    LessIff(candidates[i], id);
  }
}
