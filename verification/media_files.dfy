/** Media files: uploads that reuse equal content, uses, and the clean-up of files that nothing uses. */
module MediaFiles {
  import opened Seqs
  import opened Text

  datatype FileRow = FileRow(namespace: string, purpose: string, sha: string, path: string, orphanedAt: Option<int>)
  datatype Use = Use(namespace: string, user: string, file: string)
  datatype Object = Object(namespace: string, path: string)
  datatype State = State(rows: map<string, FileRow>, uses: set<Use>, objects: set<Object>)

  datatype UploadOutcome = Uploaded | UploadRaises(stored: bool)
  /** A deletion ends after the object and the row are gone, or it raises before or after the object is gone. */
  datatype DeleteOutcome = Deleted | DeleteRaises(gone: bool)

  /** `failing` holds the candidates whose deletion raises, and whether the object is gone all the same. */
  datatype Event =
    | Upload(namespace: string, purpose: string, sha: string, id: string, path: string, now: int, outcome: UploadOutcome)
    | ChangeUses(namespace: string, user: string, files: set<string>, now: int)
    | Delete(namespace: string, id: string, ending: DeleteOutcome)
    | Prune(namespace: string, now: int, candidates: seq<string>, failing: map<string, bool>, commits: bool)

  // ---------------------------------------------------------------- the storage

  predicate IsUsed(uses: set<Use>, file: string) {
    exists u :: u in uses && u.file == file
  }

  /** A file of the same content and purpose. */
  predicate Matches(row: FileRow, namespace: string, purpose: string, sha: string) {
    row.namespace == namespace && row.purpose == purpose && row.sha == sha
  }

  predicate HasDuplicate(rows: map<string, FileRow>, namespace: string, purpose: string, sha: string) {
    exists id :: id in rows && Matches(rows[id], namespace, purpose, sha)
  }

  /** The row that an upload of this content finds. */
  ghost function Duplicate(rows: map<string, FileRow>, namespace: string, purpose: string, sha: string): string
    requires HasDuplicate(rows, namespace, purpose, sha)
  {
    var id :| id in rows && Matches(rows[id], namespace, purpose, sha);
    id
  }

  /** The keys of the file table. */
  predicate Conflicts(rows: map<string, FileRow>, id: string, namespace: string, path: string) {
    id in rows || exists other :: other in rows && rows[other].namespace == namespace && rows[other].path == path
  }

  function SetOrphanedAt(rows: map<string, FileRow>, ids: set<string>, at: Option<int>): map<string, FileRow> {
    map id | id in rows :: if id in ids then rows[id].(orphanedAt := at) else rows[id]
  }

  function InNamespace(rows: map<string, FileRow>, namespace: string, ids: set<string>): set<string> {
    set id | id in ids && id in rows && rows[id].namespace == namespace
  }

  function ObjectOf(row: FileRow): Object {
    Object(row.namespace, row.path)
  }

  // ---------------------------------------------------------------- the steps

  ghost function UploadStep(s: State, namespace: string, purpose: string, sha: string, id: string, path: string, now: int, outcome: UploadOutcome): State {
    if HasDuplicate(s.rows, namespace, purpose, sha) then
      var found := Duplicate(s.rows, namespace, purpose, sha);
      if s.rows[found].orphanedAt.Some? then s.(rows := s.rows[found := s.rows[found].(orphanedAt := Some(now))]) else s
    else if Conflicts(s.rows, id, namespace, path) then s
    else if outcome == Uploaded then
      s.(rows := s.rows[id := FileRow(namespace, purpose, sha, path, Some(now))], objects := s.objects + {Object(namespace, path)})
    else if outcome.stored then s.(objects := s.objects + {Object(namespace, path)})
    else s
  }

  /** The files that a user uses. */
  function UsedBy(uses: set<Use>, namespace: string, user: string): set<string> {
    set u | u in uses && u.namespace == namespace && u.user == user :: u.file
  }

  function WithUses(uses: set<Use>, namespace: string, user: string, files: set<string>): set<Use> {
    (set u | u in uses && !(u.namespace == namespace && u.user == user)) + (set f | f in files :: Use(namespace, user, f))
  }

  function Unused(uses: set<Use>, ids: set<string>): set<string> {
    set id | id in ids && !IsUsed(uses, id)
  }

  /** A change of the files that a user uses, together with sync_file_usages for the files it attaches and detaches. */
  function ChangeStep(s: State, namespace: string, user: string, files: set<string>, now: int): State {
    if InNamespace(s.rows, namespace, files) != files then s
    else
      var before := UsedBy(s.uses, namespace, user);
      var uses := WithUses(s.uses, namespace, user, files);
      var attached := SetOrphanedAt(s.rows, InNamespace(s.rows, namespace, files - before), None);
      var detached := SetOrphanedAt(attached, Unused(uses, InNamespace(s.rows, namespace, before - files)), Some(now));
      s.(rows := detached, uses := uses)
  }

  /** file_has_usages: a file of another namespace has none. */
  predicate HasUsages(s: State, namespace: string, id: string) {
    id in s.rows && s.rows[id].namespace == namespace && IsUsed(s.uses, id)
  }

  function DeleteStep(s: State, namespace: string, id: string, outcome: DeleteOutcome): State {
    if HasUsages(s, namespace, id) || id !in s.rows || s.rows[id].namespace != namespace then s
    else
      var content := ObjectOf(s.rows[id]);
      if outcome == Deleted then s.(rows := s.rows - {id}, objects := s.objects - {content})
      else if outcome.gone then s.(objects := s.objects - {content})
      else s
  }

  /** One candidate of the clean-up: skipped and repaired if it is used, kept if the deletion of its object raises,
      even if it took effect, otherwise removed. */
  function PruneOne(s: State, id: string, failing: map<string, bool>): State {
    if id !in s.rows then s
    else if IsUsed(s.uses, id) then s.(rows := s.rows[id := s.rows[id].(orphanedAt := None)])
    else if id in failing then if failing[id] then s.(objects := s.objects - {ObjectOf(s.rows[id])}) else s
    else s.(rows := s.rows - {id}, objects := s.objects - {ObjectOf(s.rows[id])})
  }

  function PruneAll(s: State, candidates: seq<string>, failing: map<string, bool>): State {
    if candidates == [] then s
    else PruneOne(PruneAll(s, candidates[..|candidates| - 1], failing), candidates[|candidates| - 1], failing)
  }

  function PruneStep(s: State, candidates: seq<string>, failing: map<string, bool>, commits: bool): State {
    var t := PruneAll(s, candidates, failing);
    if commits then t else s.(objects := t.objects)
  }

  ghost function Step(s: State, e: Event): State {
    match e
    case Upload(namespace, purpose, sha, id, path, now, outcome) => UploadStep(s, namespace, purpose, sha, id, path, now, outcome)
    case ChangeUses(namespace, user, files, now) => ChangeStep(s, namespace, user, files, now)
    case Delete(namespace, id, outcome) => DeleteStep(s, namespace, id, outcome)
    case Prune(namespace, now, candidates, failing, commits) => PruneStep(s, candidates, failing, commits)
  }

  // ---------------------------------------------------------------- the candidates of a clean-up

  /** Orphaned before the cutoff. */
  predicate IsOrphan(rows: map<string, FileRow>, namespace: string, cutoff: int, id: string) {
    id in rows && rows[id].namespace == namespace && rows[id].orphanedAt.Some? && rows[id].orphanedAt.value < cutoff
  }

  predicate LexLess(a: string, b: string) {
    b != "" && (a == "" || a[0] < b[0] || (a[0] == b[0] && LexLess(a[1..], b[1..])))
  }

  /** The order of the clean-up: by time, then by id. */
  predicate OlderThan(rows: map<string, FileRow>, a: string, b: string)
    requires a in rows && b in rows
  {
    var s, t := rows[a].orphanedAt.GetOr(0), rows[b].orphanedAt.GetOr(0);
    s < t || (s == t && LexLess(a, b))
  }

  /** The oldest orphans, oldest first, at most `limit` of them. */
  ghost predicate IsCleanupList(rows: map<string, FileRow>, namespace: string, cutoff: int, limit: nat, candidates: seq<string>) {
    && |candidates| <= limit
    && (forall i :: 0 <= i < |candidates| ==> IsOrphan(rows, namespace, cutoff, candidates[i]))
    && (forall i, j :: 0 <= i < j < |candidates| ==> OlderThan(rows, candidates[i], candidates[j]))
    && (forall id :: IsOrphan(rows, namespace, cutoff, id) && id !in candidates ==>
          |candidates| == limit && forall i :: 0 <= i < |candidates| ==> OlderThan(rows, candidates[i], id))
  }

  lemma {:induction false} LexTotal(a: string, b: string)
    ensures a == b || LexLess(a, b) || LexLess(b, a)
  {
    if a != "" && b != "" && a[0] == b[0] {
      LexTotal(a[1..], b[1..]);
      assert a == [a[0]] + a[1..] && b == [b[0]] + b[1..];
    }
  }

  lemma {:induction false} LexTransitive(a: string, b: string, c: string)
    requires LexLess(a, b) && LexLess(b, c)
    ensures LexLess(a, c)
  {
    if a != "" && a[0] == b[0] && b[0] == c[0] {
      LexTransitive(a[1..], b[1..], c[1..]);
    }
  }

  lemma OlderTransitive(rows: map<string, FileRow>, a: string, b: string, c: string)
    requires a in rows && b in rows && c in rows && OlderThan(rows, a, b) && OlderThan(rows, b, c)
    ensures OlderThan(rows, a, c)
  {
    if LexLess(a, b) && LexLess(b, c) {
      LexTransitive(a, b, c);
    }
  }

  /** Some file of the set is the oldest. */
  lemma {:induction false} OldestExists(rows: map<string, FileRow>, ids: set<string>) returns (oldest: string)
    requires ids != {} && forall id :: id in ids ==> id in rows
    ensures oldest in ids && forall id :: id in ids && id != oldest ==> OlderThan(rows, oldest, id)
    decreases |ids|
  {
    var some :| some in ids;
    if ids == {some} {
      oldest := some;
    } else {
      var rest := ids - {some};
      assert ids == rest + {some};
      var first := OldestExists(rows, rest);
      LexTotal(some, first);
      if OlderThan(rows, some, first) {
        oldest := some;
        forall id | id in ids && id != oldest ensures OlderThan(rows, oldest, id) {
          if id != first {
            OlderTransitive(rows, some, first, id);
          }
        }
      } else {
        oldest := first;
      }
    }
  }

  /** The query of list_orphaned_files_for_cleanup. */
  method ListOrphans(rows: map<string, FileRow>, namespace: string, cutoff: int, limit: nat) returns (candidates: seq<string>)
    ensures IsCleanupList(rows, namespace, cutoff, limit, candidates)
  {
    var rest := set id | id in rows && IsOrphan(rows, namespace, cutoff, id);
    candidates := [];
    while |candidates| < limit && rest != {}
      invariant |candidates| <= limit
      invariant forall i :: 0 <= i < |candidates| ==> IsOrphan(rows, namespace, cutoff, candidates[i])
      invariant forall i, j :: 0 <= i < j < |candidates| ==> OlderThan(rows, candidates[i], candidates[j])
      invariant forall id :: id in rest <==> IsOrphan(rows, namespace, cutoff, id) && id !in candidates
      invariant forall i, id :: 0 <= i < |candidates| && id in rest ==> OlderThan(rows, candidates[i], id)
      decreases rest
    {
      ghost var first := OldestExists(rows, rest);
      var next :| next in rest && forall id :: id in rest && id != next ==> OlderThan(rows, next, id);
      candidates := candidates + [next];
      rest := rest - {next};
    }
  }

  // ---------------------------------------------------------------- what every run keeps

  /** Orphaned exactly when unused. */
  predicate OrphanIffUnused(s: State) {
    forall id :: id in s.rows ==> (s.rows[id].orphanedAt == None <==> IsUsed(s.uses, id))
  }

  predicate UsesExist(s: State) {
    forall u :: u in s.uses ==> u.file in s.rows && s.rows[u.file].namespace == u.namespace
  }

  /** At most one row for each namespace, purpose and content. */
  predicate NoDuplicates(rows: map<string, FileRow>) {
    forall a, b :: a in rows && b in rows && Matches(rows[a], rows[b].namespace, rows[b].purpose, rows[b].sha) ==> a == b
  }

  predicate PathsDistinct(rows: map<string, FileRow>) {
    forall a, b :: a in rows && b in rows && ObjectOf(rows[a]) == ObjectOf(rows[b]) ==> a == b
  }

  predicate Invariant(s: State) {
    OrphanIffUnused(s) && UsesExist(s) && NoDuplicates(s.rows) && PathsDistinct(s.rows)
  }

  lemma UploadKeeps(s: State, namespace: string, purpose: string, sha: string, id: string, path: string, now: int, outcome: UploadOutcome)
    requires Invariant(s)
    ensures Invariant(UploadStep(s, namespace, purpose, sha, id, path, now, outcome))
  {
    if HasDuplicate(s.rows, namespace, purpose, sha) {
      var found := Duplicate(s.rows, namespace, purpose, sha);
    }
  }

  lemma UsesAfterChange(uses: set<Use>, namespace: string, user: string, files: set<string>, id: string)
    ensures IsUsed(WithUses(uses, namespace, user, files), id)
       <==> id in files || exists u :: u in uses && u.file == id && !(u.namespace == namespace && u.user == user)
  {
    var after := WithUses(uses, namespace, user, files);
    if id in files {
      assert Use(namespace, user, id) in after;
    }
  }

  lemma UsedBefore(uses: set<Use>, namespace: string, user: string, id: string)
    ensures IsUsed(uses, id)
       <==> id in UsedBy(uses, namespace, user) || exists u :: u in uses && u.file == id && !(u.namespace == namespace && u.user == user)
  {
    if u :| u in uses && u.file == id && u.namespace == namespace && u.user == user {
      assert id in UsedBy(uses, namespace, user);
    }
  }

  lemma ChangeKeeps(s: State, namespace: string, user: string, files: set<string>, now: int)
    requires Invariant(s)
    ensures Invariant(ChangeStep(s, namespace, user, files, now))
  {
    if InNamespace(s.rows, namespace, files) == files {
      var t := ChangeStep(s, namespace, user, files, now);
      forall id | id in t.rows ensures t.rows[id].orphanedAt == None <==> IsUsed(t.uses, id) {
        UsesAfterChange(s.uses, namespace, user, files, id);
        UsedBefore(s.uses, namespace, user, id);
      }
      forall u | u in t.uses ensures u.file in t.rows && t.rows[u.file].namespace == u.namespace {
        assert u in s.uses || u.file in InNamespace(s.rows, namespace, files);
      }
    }
  }

  lemma PruneOneKeeps(s: State, id: string, failing: map<string, bool>)
    requires Invariant(s)
    ensures Invariant(PruneOne(s, id, failing))
  {
    if id in s.rows && !IsUsed(s.uses, id) {
      assert forall u :: u in s.uses ==> u.file != id;
    }
  }

  lemma {:induction false} PruneKeeps(s: State, candidates: seq<string>, failing: map<string, bool>)
    requires Invariant(s)
    ensures Invariant(PruneAll(s, candidates, failing))
  {
    if candidates != [] {
      var k := |candidates| - 1;
      PruneKeeps(s, candidates[..k], failing);
      PruneOneKeeps(PruneAll(s, candidates[..k], failing), candidates[k], failing);
    }
  }

  lemma DeleteKeeps(s: State, namespace: string, id: string, outcome: DeleteOutcome)
    requires Invariant(s)
    ensures Invariant(DeleteStep(s, namespace, id, outcome))
  {
    if !IsUsed(s.uses, id) {
      assert forall u :: u in s.uses ==> u.file != id;
    }
  }

  lemma StepKeeps(s: State, e: Event)
    requires Invariant(s)
    ensures Invariant(Step(s, e))
  {
    match e
    case Upload(namespace, purpose, sha, id, path, now, outcome) => UploadKeeps(s, namespace, purpose, sha, id, path, now, outcome);
    case ChangeUses(namespace, user, files, now) => ChangeKeeps(s, namespace, user, files, now);
    case Delete(namespace, id, outcome) => DeleteKeeps(s, namespace, id, outcome);
    case Prune(namespace, now, candidates, failing, commits) => PruneKeeps(s, candidates, failing);
  }

  function Start(): State {
    State(map[], {}, {})
  }

  /** A clean-up works on the list that the storage gives it. */
  ghost predicate Possible(s: State, e: Event, retention: int, limit: nat) {
    match e
    case Prune(namespace, now, candidates, failing, commits) => IsCleanupList(s.rows, namespace, now - retention, limit, candidates)
    case _ => true
  }

  ghost function After(events: seq<Event>): State {
    if events == [] then Start() else Step(After(events[..|events| - 1]), events[|events| - 1])
  }

  ghost predicate Legal(events: seq<Event>, retention: int, limit: nat) {
    forall k :: 0 <= k < |events| ==> Possible(After(events[..k]), events[k], retention, limit)
  }

  /** In every reachable state a file has no orphan time exactly when it is used, uses refer to rows, and there is at
      most one row per namespace, purpose and content. */
  lemma {:induction false} RunKeeps(events: seq<Event>)
    ensures Invariant(After(events))
  {
    if events != [] {
      var k := |events| - 1;
      RunKeeps(events[..k]);
      StepKeeps(After(events[..k]), events[k]);
    }
  }

  lemma {:induction false} PruneSpares(s: State, candidates: seq<string>, failing: map<string, bool>, id: string)
    requires id in s.rows && (IsUsed(s.uses, id) || id !in candidates)
    ensures var t := PruneAll(s, candidates, failing);
            id in t.rows && t.uses == s.uses && t.rows[id].(orphanedAt := None) == s.rows[id].(orphanedAt := None)
  {
    if candidates != [] {
      PruneSpares(s, candidates[..|candidates| - 1], failing, id);
    }
  }

  /** A used file is never removed, and keeps its content. */
  lemma UsedNeverRemoved(s: State, e: Event, id: string)
    requires Invariant(s) && id in s.rows && IsUsed(s.uses, id)
    ensures id in Step(s, e).rows && Step(s, e).rows[id].(orphanedAt := None) == s.rows[id].(orphanedAt := None)
  {
    match e
    case Prune(namespace, now, candidates, failing, commits) => PruneSpares(s, candidates, failing, id);
    case _ =>
  }

  /** A change of uses: afterwards the user uses exactly the given files, other users what they used; it is refused
      if one of the files is not there. */
  lemma UsesChanged(s: State, namespace: string, user: string, files: set<string>, now: int, u: Use)
    ensures var t := Step(s, ChangeUses(namespace, user, files, now));
            if forall f :: f in files ==> f in s.rows && s.rows[f].namespace == namespace
            then u in t.uses <==> if u.namespace == namespace && u.user == user then u.file in files else u in s.uses
            else t == s
  {
    if forall f :: f in files ==> f in s.rows && s.rows[f].namespace == namespace {
      assert InNamespace(s.rows, namespace, files) == files;
    } else {
      var f :| f in files && !(f in s.rows && s.rows[f].namespace == namespace);
      assert f !in InNamespace(s.rows, namespace, files);
    }
  }

  /** No other event changes the uses. */
  lemma UsesKept(s: State, e: Event)
    requires !e.ChangeUses?
    ensures Step(s, e).uses == s.uses
  {
    match e
    case Prune(namespace, now, candidates, failing, commits) => PruneKeepsUses(s, candidates, failing);
    case _ =>
  }

  lemma {:induction false} PruneKeepsUses(s: State, candidates: seq<string>, failing: map<string, bool>)
    ensures PruneAll(s, candidates, failing).uses == s.uses
  {
    if candidates != [] {
      PruneKeepsUses(s, candidates[..|candidates| - 1], failing);
    }
  }

  // ---------------------------------------------------------------- no file is pruned too early

  /** The event uploads the file, finds it again for equal content, or ends a use of it. */
  ghost predicate Touches(s: State, e: Event, id: string) {
    match e
    case Upload(namespace, purpose, sha, newId, path, now, outcome) =>
      if HasDuplicate(s.rows, namespace, purpose, sha) then Duplicate(s.rows, namespace, purpose, sha) == id
      else newId == id && !Conflicts(s.rows, newId, namespace, path) && outcome == Uploaded
    case ChangeUses(namespace, user, files, now) =>
      InNamespace(s.rows, namespace, files) == files && id in InNamespace(s.rows, namespace, UsedBy(s.uses, namespace, user) - files)
    case _ => false
  }

  function TimeOf(e: Event): int {
    match e
    case Upload(_, _, _, _, _, now, _) => now
    case ChangeUses(_, _, _, now) => now
    case Delete(_, _, _) => 0
    case Prune(_, now, _, _, _) => now
  }

  /** When the file was last uploaded, uploaded again or detached. */
  ghost function LastTouch(events: seq<Event>, id: string): Option<int> {
    if events == [] then None
    else
      var k := |events| - 1;
      if Touches(After(events[..k]), events[k], id) then Some(TimeOf(events[k])) else LastTouch(events[..k], id)
  }

  /** The orphan time is the time of the last touch. */
  predicate Dated(row: FileRow, last: Option<int>) {
    row.orphanedAt.Some? ==> row.orphanedAt == last
  }

  lemma {:induction false} PruneDates(s: State, candidates: seq<string>, failing: map<string, bool>, id: string)
    requires id in PruneAll(s, candidates, failing).rows
    ensures id in s.rows && PruneAll(s, candidates, failing).uses == s.uses
    ensures var row := PruneAll(s, candidates, failing).rows[id]; row.orphanedAt.Some? ==> row == s.rows[id]
  {
    if candidates != [] {
      PruneDates(s, candidates[..|candidates| - 1], failing, id);
    }
  }

  lemma StepDates(s: State, e: Event, id: string, last: Option<int>)
    requires Invariant(s) && id in Step(s, e).rows && (id in s.rows ==> Dated(s.rows[id], last))
    ensures Dated(Step(s, e).rows[id], if Touches(s, e, id) then Some(TimeOf(e)) else last)
  {
    match e
    case Prune(namespace, now, candidates, failing, commits) =>
      if commits {
        PruneDates(s, candidates, failing, id);
      }
    case _ =>
  }

  lemma {:induction false} RunDates(events: seq<Event>, id: string)
    requires id in After(events).rows
    ensures Dated(After(events).rows[id], LastTouch(events, id))
  {
    if events != [] {
      var k := |events| - 1;
      RunKeeps(events[..k]);
      if id in After(events[..k]).rows {
        RunDates(events[..k], id);
      }
      StepDates(After(events[..k]), events[k], id, LastTouch(events[..k], id));
    }
  }

  /** No clean-up removes a file sooner than the retention period after its last upload, repeated upload or detach. */
  lemma NotPrunedEarly(events: seq<Event>, retention: int, limit: nat, id: string)
    requires events != [] && Legal(events, retention, limit)
    requires events[|events| - 1].Prune?
    requires id in After(events[..|events| - 1]).rows && id !in After(events).rows
    ensures LastTouch(events[..|events| - 1], id).Some?
    ensures LastTouch(events[..|events| - 1], id).value + retention < TimeOf(events[|events| - 1])
  {
    var k := |events| - 1;
    var s := After(events[..k]);
    var e := events[k];
    assert Possible(s, e, retention, limit);
    RunDates(events[..k], id);
    if id !in e.candidates {
      PruneSpares(s, e.candidates, e.failing, id);
    }
    assert IsOrphan(s.rows, e.namespace, e.now - retention, id);
  }

  // ---------------------------------------------------------------- objects

  /** An interrupted deletion matters: the row stays without its object, a new upload of the same content finds that
      row, and its file can be used although it has no object. */
  lemma InterruptedDeletionDangles()
    ensures var events := [Upload("m", "p", "h", "f", "f.png", 0, Uploaded), Delete("m", "f", DeleteRaises(true)),
                           Upload("m", "p", "h", "g", "g.png", 1, Uploaded), ChangeUses("m", "u", {"f"}, 2)];
            var s := After(events);
            && "f" in s.rows && IsUsed(s.uses, "f") && ObjectOf(s.rows["f"]) !in s.objects
  {
    var a := Upload("m", "p", "h", "f", "f.png", 0, Uploaded);
    var b := Delete("m", "f", DeleteRaises(true));
    var c := Upload("m", "p", "h", "g", "g.png", 1, Uploaded);
    var d := ChangeUses("m", "u", {"f"}, 2);
    var events := [a, b, c, d];
    var row := FileRow("m", "p", "h", "f.png", Some(0));
    assert events[..3][..2] == [a, b] && events[..3] == [a, b, c] && [a, b][..1] == [a] && [a][..0] == [];
    assert After([a]).rows == map["f" := row];
    assert After([a, b]) == State(map["f" := row], {}, {});
    assert HasDuplicate(After([a, b]).rows, "m", "p", "h") by {
      assert Matches(After([a, b]).rows["f"], "m", "p", "h");
    }
    assert After([a, b, c]).rows == map["f" := row.(orphanedAt := Some(1))];
    assert Use("m", "u", "f") in After(events).uses;
  }

  // ---------------------------------------------------------------- the services as they run

  datatype DeleteResult = InUse | NotFound | Gone | ClientFailed
  datatype PruneResult = Skipped | Kept | Removed

  class Service {
    var rows: map<string, FileRow>
    var uses: set<Use>
    var objects: set<Object>
    ghost var history: seq<Event>

    ghost function Now(): State
      reads this
    {
      State(rows, uses, objects)
    }

    ghost predicate Valid()
      reads this
    {
      After(history) == Now()
    }

    constructor ()
      ensures Valid() && history == []
    {
      rows, uses, objects, history := map[], {}, {}, [];
    }

    ghost method Log(e: Event)
      modifies this`history
      ensures history == old(history) + [e] && After(history) == Step(After(old(history)), e)
    {
      Snoc(history, e);
      history := history + [e];
    }

    /** upload_file: equal content is found again, and its orphan time refreshed. */
    method UploadFile(namespace: string, purpose: string, sha: string, id: string, path: string, now: int, outcome: UploadOutcome)
      returns (found: Option<string>)
      requires Valid()
      modifies this
      ensures Valid() && history == old(history) + [Upload(namespace, purpose, sha, id, path, now, outcome)]
      ensures found.Some? ==> found.value in rows && Matches(rows[found.value], namespace, purpose, sha)
    {
      RunKeeps(history);
      Log(Upload(namespace, purpose, sha, id, path, now, outcome));
      if duplicate :| duplicate in rows && Matches(rows[duplicate], namespace, purpose, sha) {
        if rows[duplicate].orphanedAt != None {
          rows := rows[duplicate := rows[duplicate].(orphanedAt := Some(now))];
        }
        return Some(duplicate);
      }
      if Conflicts(rows, id, namespace, path) {
        return None;
      }
      if outcome != Uploaded {
        if outcome.stored {
          objects := objects + {Object(namespace, path)};
        }
        return None;
      }
      rows := rows[id := FileRow(namespace, purpose, sha, path, Some(now))];
      objects := objects + {Object(namespace, path)};
      found := Some(id);
    }

    /** sync_file_usages */
    method SyncFileUsages(namespace: string, attached: set<string>, detached: set<string>, orphanedAt: int)
      modifies this`rows
      ensures rows == SetOrphanedAt(SetOrphanedAt(old(rows), InNamespace(old(rows), namespace, attached), None),
                                    Unused(uses, InNamespace(old(rows), namespace, detached)), Some(orphanedAt))
    {
      if attached != {} {
        rows := SetOrphanedAt(rows, InNamespace(rows, namespace, attached), None);
      }
      assert attached == {} ==> SetOrphanedAt(old(rows), InNamespace(old(rows), namespace, attached), None) == old(rows);
      assert InNamespace(rows, namespace, detached) == InNamespace(old(rows), namespace, detached);
      if detached != {} {
        rows := SetOrphanedAt(rows, Unused(uses, InNamespace(rows, namespace, detached)), Some(orphanedAt));
      }
    }

    /** A change of the files that a user uses. */
    method ChangeFileUses(namespace: string, user: string, files: set<string>, now: int) returns (ok: bool)
      requires Valid()
      modifies this
      ensures Valid() && history == old(history) + [ChangeUses(namespace, user, files, now)]
      ensures ok <==> InNamespace(old(rows), namespace, files) == files
    {
      Log(ChangeUses(namespace, user, files, now));
      if InNamespace(rows, namespace, files) != files {
        return false;
      }
      var before := UsedBy(uses, namespace, user);
      uses := WithUses(uses, namespace, user, files);
      SyncFileUsages(namespace, files - before, before - files, now);
      ok := true;
    }

    /** delete_file: refused while the file is used. */
    method DeleteFile(namespace: string, id: string, ending: DeleteOutcome) returns (result: DeleteResult)
      requires Valid()
      modifies this
      ensures Valid() && history == old(history) + [Delete(namespace, id, ending)]
      ensures result == InUse <==> HasUsages(old(Now()), namespace, id)
      ensures result == NotFound <==> id !in old(rows) || old(rows)[id].namespace != namespace
      ensures result == Gone ==> id in old(rows) && rows == old(rows) - {id}
      ensures result != Gone ==> rows == old(rows)
    {
      Log(Delete(namespace, id, ending));
      if id in rows && rows[id].namespace == namespace && IsUsed(uses, id) {
        return InUse;
      }
      if id !in rows || rows[id].namespace != namespace {
        return NotFound;
      }
      if ending == DeleteRaises(false) {
        return ClientFailed;
      }
      objects := objects - {ObjectOf(rows[id])};
      if ending == DeleteRaises(true) {
        return ClientFailed;
      }
      rows := rows - {id};
      result := Gone;
    }

    /** The body of the loop of prune. */
    method PruneCandidate(file: string, failing: map<string, bool>) returns (result: PruneResult)
      requires file in rows
      modifies this`rows, this`objects
      ensures Now() == PruneOne(old(Now()), file, failing)
      ensures result == Skipped <==> IsUsed(uses, file)
      ensures result == Kept <==> !IsUsed(uses, file) && file in failing
      ensures |rows| == |old(rows)| - if result == Removed then 1 else 0
      ensures forall other :: other != file ==> (other in rows <==> other in old(rows))
    {
      if IsUsed(uses, file) {
        rows := rows[file := rows[file].(orphanedAt := None)];
        return Skipped;
      }
      if file in failing {
        if failing[file] {
          objects := objects - {ObjectOf(rows[file])};
        }
        return Kept;
      }
      objects := objects - {ObjectOf(rows[file])};
      rows := rows - {file};
      result := Removed;
    }

    /** The loop of prune. */
    method PruneCandidates(files: seq<string>, failing: map<string, bool>) returns (deleted: nat, failed: nat, skipped: nat)
      requires forall k :: 0 <= k < |files| ==> files[k] in rows
      requires forall j, k :: 0 <= j < k < |files| ==> OlderThan(rows, files[j], files[k])
      modifies this`rows, this`objects
      ensures Now() == PruneAll(old(Now()), files, failing)
      ensures deleted + failed + skipped == |files| && |rows| + deleted == |old(rows)|
      ensures skipped > 0 ==> exists j :: 0 <= j < |files| && IsUsed(uses, files[j])
    {
      deleted, failed, skipped := 0, 0, 0;
      for index := 0 to |files|
        invariant Now() == PruneAll(old(Now()), files[..index], failing)
        invariant deleted + failed + skipped == index && |rows| + deleted == |old(rows)|
        invariant forall j :: index <= j < |files| ==> files[j] in rows
        invariant skipped > 0 ==> exists j :: 0 <= j < index && IsUsed(uses, files[j])
      {
        assert files[..index + 1][..index] == files[..index];
        OlderDistinct(old(rows), files, index);
        var result := PruneCandidate(files[index], failing);
        match result
        case Skipped => skipped := skipped + 1;
        case Kept => failed := failed + 1;
        case Removed => deleted := deleted + 1;
      }
      assert files[..|files|] == files;
    }

    /** prune: the counts add up, and as no candidate is used, none is skipped. */
    method PruneOrphans(namespace: string, now: int, retention: int, limit: nat, failing: map<string, bool>, commits: bool)
      returns (scanned: nat, deleted: nat, failed: nat, skipped: nat, ghost candidates: seq<string>)
      requires Valid()
      modifies this
      ensures Valid() && history == old(history) + [Prune(namespace, now, candidates, failing, commits)]
      ensures IsCleanupList(old(rows), namespace, now - retention, limit, candidates)
      ensures scanned == |candidates| && deleted + failed + skipped == scanned && skipped == 0
      ensures commits ==> |rows| + deleted == |old(rows)|
      ensures !commits ==> rows == old(rows)
    {
      var saved := rows;
      var files := ListOrphans(rows, namespace, now - retention, limit);
      candidates := files;
      deleted, failed, skipped := PruneCandidates(files, failing);
      CandidatesUnused(history, namespace, now - retention, limit, files);
      scanned := |files|;
      if !commits {
        rows := saved;
      }
      Log(Prune(namespace, now, files, failing, commits));
    }
  }

  /** In a reachable state no candidate of a clean-up is used. */
  lemma CandidatesUnused(events: seq<Event>, namespace: string, cutoff: int, limit: nat, candidates: seq<string>)
    requires IsCleanupList(After(events).rows, namespace, cutoff, limit, candidates)
    ensures forall i :: 0 <= i < |candidates| ==> !IsUsed(After(events).uses, candidates[i])
  {
    RunKeeps(events);
    forall i | 0 <= i < |candidates| ensures !IsUsed(After(events).uses, candidates[i]) {
      assert IsOrphan(After(events).rows, namespace, cutoff, candidates[i]);
    }
  }

  lemma {:induction false} LexIrreflexive(a: string)
    ensures !LexLess(a, a)
  {
    if a != "" {
      LexIrreflexive(a[1..]);
    }
  }

  lemma OlderDistinct(rows: map<string, FileRow>, files: seq<string>, i: nat)
    requires i < |files| && forall k :: 0 <= k < |files| ==> files[k] in rows
    requires forall j, k :: 0 <= j < k < |files| ==> OlderThan(rows, files[j], files[k])
    ensures forall j :: i < j < |files| ==> files[j] != files[i]
  {
    LexIrreflexive(files[i]);
  }
}
