/** Rows in the database and objects in the object store: the protocol that keeps them together over requests
    that commit, fail at any step, or fail at commit. */
module KnowledgeFiles {
  import opened Seqs
  import opened Text

  datatype Link = Link(item: string, photo: bool)
  /** File rows (id to relative path) and usage links; a file has at most one link, since its id is the key. */
  datatype Db = Db(rows: map<string, string>, links: map<string, Link>)

  /** What the request is waiting for. */
  datatype Phase = Idle | Running | Uploading(path: string) | Unlinked(id: string) | Failed | Committing | RollingBack | Cleaning

  /** `work` is the database as the open transaction sees it, `rollback` the objects that a rollback deletes, `removed`
      the objects that were deleted as rows, `pending` the deletions still to run, `issued` all names ever generated. */
  datatype State = State(phase: Phase, committed: Db, work: Db, objects: set<string>,
                         rollback: seq<string>, removed: seq<string>, pending: seq<string>, issued: set<string>)

  datatype Event =
    | Begin
    | Insert(id: string, link: Link, path: string)
    | Store                        // the upload returned, and the object was registered for rollback
    | StoreFails(stored: bool)     // the upload raised, with or without having stored the object
    | Unlink(id: string, item: string)
    | DropRow
    | Raise                        // any other step of the handler raised
    | Finish                       // the handler returned, its deleted objects are registered for cleanup
    | Commit
    | CommitFails(applied: bool)   // the commit raised, with or without having taken effect
    | Rollback
    | DeleteObject(ok: bool)
    | Abandon                      // the clean-up was cancelled
    | Crash                        // the process died; the database drops the open transaction
    | End

  function Paths(db: Db): set<string> {
    db.rows.Values
  }

  /** The keys of the two tables: an item has at most one photo. */
  predicate Conflicts(db: Db, id: string, link: Link, path: string) {
    || id in db.rows || id in db.links || path in Paths(db)
    || (link.photo && exists other :: other in db.links && db.links[other] == link)
  }

  predicate Enabled(s: State, e: Event) {
    match e
    case Begin => s.phase == Idle
    case Insert(id, link, path) => s.phase == Running && path !in s.issued && !Conflicts(s.work, id, link, path)
    case Store => s.phase.Uploading?
    case StoreFails(_) => s.phase.Uploading?
    case Unlink(id, item) => s.phase == Running && id in s.work.links && s.work.links[id].item == item && id in s.work.rows
    case DropRow => s.phase.Unlinked? && s.phase.id in s.work.rows && s.phase.id !in s.work.links
    case Raise => s.phase == Running || s.phase.Unlinked?
    case Finish => s.phase == Running
    case Commit => s.phase == Committing
    case CommitFails(_) => s.phase == Committing
    case Rollback => s.phase == Failed
    case DeleteObject(_) => (s.phase == Cleaning || s.phase == RollingBack) && s.pending != []
    case Abandon => s.phase == Cleaning || s.phase == RollingBack
    case Crash => s.phase != Idle
    case End => (s.phase == Cleaning || s.phase == RollingBack) && s.pending == []
  }

  function Resting(s: State): State {
    s.(phase := Idle, work := s.committed, rollback := [], removed := [], pending := [])
  }

  function Step(s: State, e: Event): State
    requires Enabled(s, e)
  {
    match e
    case Begin => s.(phase := Running, work := s.committed, rollback := [], removed := [], pending := [])
    case Insert(id, link, path) =>
      s.(phase := Uploading(path), work := Db(s.work.rows[id := path], s.work.links[id := link]), issued := s.issued + {path})
    case Store => s.(phase := Running, objects := s.objects + {s.phase.path}, rollback := s.rollback + [s.phase.path])
    case StoreFails(stored) => s.(phase := Failed, objects := if stored then s.objects + {s.phase.path} else s.objects)
    case Unlink(id, _) => s.(phase := Unlinked(id), work := s.work.(links := s.work.links - {id}))
    case DropRow =>
      var id := s.phase.id;
      s.(phase := Running, work := s.work.(rows := s.work.rows - {id}), removed := s.removed + [s.work.rows[id]])
    case Raise => s.(phase := Failed)
    case Finish => s.(phase := Committing)
    case Commit => s.(phase := Cleaning, committed := s.work, pending := s.removed)
    case CommitFails(applied) => s.(phase := Failed, committed := if applied then s.work else s.committed)
    case Rollback => s.(phase := RollingBack, work := s.committed, pending := s.rollback)
    case DeleteObject(ok) =>
      s.(objects := if ok then s.objects - {s.pending[0]} else s.objects, pending := s.pending[1..])
    case Abandon => s.(pending := [])
    case Crash => Resting(s)
    case End => Resting(s)
  }

  function Start(): State {
    State(Idle, Db(map[], map[]), Db(map[], map[]), {}, [], [], [], {})
  }

  /** A run: every event was possible when it happened. */
  predicate Legal(events: seq<Event>)
    decreases |events|, 0
  {
    events == [] || (var k := |events| - 1; Legal(events[..k]) && Enabled(After(events[..k]), events[k]))
  }

  function After(events: seq<Event>): State
    requires Legal(events)
    decreases |events|, 1
  {
    if events == [] then Start() else Step(After(events[..|events| - 1]), events[|events| - 1])
  }

  lemma LegalSnoc(events: seq<Event>, e: Event)
    requires Legal(events) && Enabled(After(events), e)
    ensures Legal(events + [e]) && After(events + [e]) == Step(After(events), e)
  {
    Snoc(events, e);
  }

  // ---------------------------------------------------------------- rows and names

  predicate Injective(rows: map<string, string>) {
    forall a, b :: a in rows && b in rows && rows[a] == rows[b] ==> a == b
  }

  function Names(s: seq<string>): set<string> {
    set k | 0 <= k < |s| :: s[k]
  }

  /** The path that is in the database but not yet in the object store. */
  function InFlight(s: State): set<string> {
    if s.phase.Uploading? then {s.phase.path} else {}
  }

  /** What every step keeps of rows and names. */
  predicate Invariant(s: State) {
    && Paths(s.committed) + Paths(s.work) + Names(s.rollback) + Names(s.removed) + s.objects <= s.issued
    && Injective(s.committed.rows) && Injective(s.work.rows)
    && InPhase(s)
  }

  /** What holds while the handler runs, and while objects are deleted. */
  predicate InPhase(s: State) {
    match s.phase
    case Idle => s.work == s.committed
    case Failed => true
    case RollingBack => s.work == s.committed
    case Cleaning => s.work == s.committed && Names(s.pending) !! Paths(s.committed)
    case _ => HandlerRuns(s)
  }

  predicate HandlerRuns(s: State) {
    && Names(s.rollback) !! Paths(s.committed)
    && InFlight(s) <= Paths(s.work) && InFlight(s) !! Paths(s.committed)
    && Paths(s.work) <= Paths(s.committed) + Names(s.rollback) + InFlight(s)
    && Names(s.removed) !! Paths(s.work)
  }

  lemma NamesSnoc(s: seq<string>, x: string)
    ensures Names(s + [x]) == Names(s) + {x}
  {
    var t := s + [x];
    assert t[|s|] == x;
    forall y | y in Names(s) ensures y in Names(t) {
      var k :| 0 <= k < |s| && s[k] == y;
      assert t[k] == y;
    }
  }

  lemma NamesTail(s: seq<string>)
    requires s != []
    ensures Names(s) == {s[0]} + Names(s[1..])
  {
    forall y | y in Names(s[1..]) ensures y in Names(s) {
      var k :| 0 <= k < |s[1..]| && s[1..][k] == y;
      assert s[k + 1] == y;
    }
    forall y | y in Names(s) ensures y in {s[0]} + Names(s[1..]) {
      var k :| 0 <= k < |s| && s[k] == y;
      assert k > 0 ==> s[1..][k - 1] == y;
    }
  }

  lemma PathsAfterInsert(rows: map<string, string>, id: string, path: string)
    requires id !in rows && path !in rows.Values && Injective(rows)
    ensures rows[id := path].Values == rows.Values + {path} && Injective(rows[id := path])
  {
    var added := rows[id := path];
    assert added[id] == path;
    forall p | p in rows.Values ensures p in added.Values {
      var k :| k in rows && rows[k] == p;
      assert added[k] == p;
    }
  }

  lemma PathsAfterDrop(rows: map<string, string>, id: string)
    requires id in rows && Injective(rows)
    ensures (rows - {id}).Values == rows.Values - {rows[id]} && Injective(rows - {id})
  {
    var rest := rows - {id};
    forall p | p in rows.Values - {rows[id]} ensures p in rest.Values {
      var k :| k in rows && rows[k] == p;
      assert rest[k] == p;
    }
  }

  lemma StepKeepsInvariant(s: State, e: Event)
    requires Invariant(s) && Enabled(s, e)
    ensures Invariant(Step(s, e))
  {
    match e
    case Insert(id, link, path) => PathsAfterInsert(s.work.rows, id, path);
    case Store => NamesSnoc(s.rollback, s.phase.path);
    case DropRow =>
      PathsAfterDrop(s.work.rows, s.phase.id);
      NamesSnoc(s.removed, s.work.rows[s.phase.id]);
    case DeleteObject(ok) => NamesTail(s.pending);
    case _ =>
  }

  lemma {:induction false} RunKeepsInvariant(events: seq<Event>)
    requires Legal(events)
    ensures Invariant(After(events))
  {
    if events != [] {
      var k := |events| - 1;
      RunKeepsInvariant(events[..k]);
      StepKeepsInvariant(After(events[..k]), events[k]);
    }
  }

  lemma {:induction false} LegalPrefix(events: seq<Event>, k: nat)
    requires Legal(events) && k <= |events|
    ensures Legal(events[..k])
  {
    if k < |events| {
      LegalPrefix(events[..|events| - 1], k);
      assert events[..|events| - 1][..k] == events[..k];
    } else {
      assert events[..k] == events;
    }
  }

  // ---------------------------------------------------------------- which committed rows are without their object

  /** The object of a committed row that the event deletes. */
  function Gone(s: State, e: Event): set<string>
    requires Enabled(s, e)
  {
    if e == DeleteObject(true) && s.pending[0] in Paths(s.committed) then {s.pending[0]} else {}
  }

  function GoneIn(events: seq<Event>): set<string>
    requires Legal(events)
  {
    if events == [] then {}
    else
      var k := |events| - 1;
      GoneIn(events[..k]) + Gone(After(events[..k]), events[k])
  }

  /** The object of every committed row is stored or gone, and no object that is gone comes back. */
  predicate Present(s: State, gone: set<string>) {
    && gone <= s.issued && gone !! s.objects && gone !! InFlight(s)
    && Paths(s.committed) <= s.objects + gone
    && (s.phase == Idle || s.phase == Cleaning || s.phase == RollingBack || Names(s.rollback) <= s.objects)
  }

  lemma {:induction false} StepPresent(s: State, e: Event, gone: set<string>)
    requires Invariant(s) && Present(s, gone) && Enabled(s, e)
    ensures Present(Step(s, e), gone + Gone(s, e))
  {
    match e
    case Store => NamesSnoc(s.rollback, s.phase.path);
    case DeleteObject(ok) => NamesTail(s.pending);
    case _ =>
  }

  lemma {:induction false} RunPresent(events: seq<Event>)
    requires Legal(events)
    ensures Present(After(events), GoneIn(events))
  {
    if events != [] {
      var k := |events| - 1;
      RunPresent(events[..k]);
      RunKeepsInvariant(events[..k]);
      StepPresent(After(events[..k]), events[k], GoneIn(events[..k]));
    }
  }

  /** At every point of every run, the object of a committed row exists if and only if it was not deleted as the
      object of a committed row. */
  lemma CommittedRowsDangleIff(events: seq<Event>, k: nat, id: string)
    requires Legal(events) && k <= |events|
    ensures Legal(events[..k])
    ensures var s := After(events[..k]);
            id in s.committed.rows ==> (s.committed.rows[id] in s.objects <==> s.committed.rows[id] !in GoneIn(events[..k]))
  {
    LegalPrefix(events, k);
    RunPresent(events[..k]);
  }

  /** A commit that raises after taking effect lets the rollback delete the objects of the rows it made permanent. */
  predicate Safe(s: State, e: Event) {
    e == CommitFails(true) ==> Names(s.rollback) !! Paths(s.work)
  }

  predicate SafeRun(events: seq<Event>)
    requires Legal(events)
  {
    events == [] || (var k := |events| - 1; SafeRun(events[..k]) && Safe(After(events[..k]), events[k]))
  }

  predicate ListsApart(s: State) {
    && (s.phase == Failed ==> Names(s.rollback) !! Paths(s.committed))
    && (s.phase == RollingBack ==> Names(s.pending) !! Paths(s.committed))
  }

  lemma {:induction false} StepApart(s: State, e: Event)
    requires Invariant(s) && ListsApart(s) && Enabled(s, e) && Safe(s, e)
    ensures ListsApart(Step(s, e)) && Gone(s, e) == {}
  {
    if e.DeleteObject? {
      NamesTail(s.pending);
    }
  }

  lemma {:induction false} SafeRunKeepsObjects(events: seq<Event>)
    requires Legal(events) && SafeRun(events)
    ensures ListsApart(After(events)) && GoneIn(events) == {}
  {
    if events != [] {
      var k := |events| - 1;
      SafeRunKeepsObjects(events[..k]);
      RunKeepsInvariant(events[..k]);
      StepApart(After(events[..k]), events[k]);
    }
  }

  lemma {:induction false} SafePrefix(events: seq<Event>, k: nat)
    requires Legal(events) && SafeRun(events) && k <= |events|
    ensures Legal(events[..k]) && SafeRun(events[..k])
  {
    LegalPrefix(events, k);
    if k < |events| {
      SafePrefix(events[..|events| - 1], k);
      assert events[..|events| - 1][..k] == events[..k];
    } else {
      assert events[..k] == events;
    }
  }

  /** If no commit raises after making rows permanent whose objects are registered for rollback, the object of each
      committed row exists at every point of the run. */
  lemma {:induction false} CommittedRowsNeverDangle(events: seq<Event>, k: nat, id: string)
    requires Legal(events) && SafeRun(events) && k <= |events|
    ensures Legal(events[..k])
    ensures var s := After(events[..k]); id in s.committed.rows ==> s.committed.rows[id] in s.objects
  {
    SafePrefix(events, k);
    SafeRunKeepsObjects(events[..k]);
    CommittedRowsDangleIff(events, k, id);
  }

  function Deletions(n: nat): (events: seq<Event>)
    ensures |events| == n
  {
    seq(n, _ => DeleteObject(true))
  }

  /** Deletions that succeed take the first names of the list. */
  lemma {:induction false} AfterDeletions(events: seq<Event>, n: nat)
    requires Legal(events) && After(events).phase == RollingBack && n <= |After(events).pending|
    ensures Legal(events + Deletions(n))
    ensures var s := After(events);
            After(events + Deletions(n)) == s.(objects := s.objects - Names(s.pending[..n]), pending := s.pending[n..])
  {
    var s := After(events);
    if n == 0 {
      assert events + Deletions(0) == events && s.pending[0..] == s.pending;
      assert Names(s.pending[..0]) == {};
    } else {
      var before := events + Deletions(n - 1);
      AfterDeletions(events, n - 1);
      LegalSnoc(before, DeleteObject(true));
      assert before + [DeleteObject(true)] == events + Deletions(n);
      assert s.pending[..n] == s.pending[..n - 1] + [s.pending[n - 1]];
      NamesSnoc(s.pending[..n - 1], s.pending[n - 1]);
      assert s.pending[n - 1..][1..] == s.pending[n..];
    }
  }

  /** A commit that raised after taking effect, the rollback, and the first `n` rollback actions. */
  function UnsafeEnding(n: nat): seq<Event> {
    [CommitFails(true)] + [Rollback] + Deletions(n)
  }

  /** The row of `path` is committed, and its object is not stored. */
  predicate Dangles(s: State, path: string) {
    path in Paths(s.committed) && path !in s.objects
  }

  /** The condition is needed for every commit and every object: once the rollback actions have come to an object
      whose row the commit made permanent, that row is without its object. */
  lemma {:induction false} UnsafeCommitDangles(events: seq<Event>, j: nat)
    requires Legal(events) && After(events).phase == Committing
    requires var s := After(events); j < |s.rollback| && s.rollback[j] in Paths(s.work)
    ensures Legal(events + UnsafeEnding(j + 1))
    ensures Dangles(After(events + UnsafeEnding(j + 1)), After(events).rollback[j])
  {
    var s := After(events);
    var failed := events + [CommitFails(true)] + [Rollback];
    LegalSnoc(events, CommitFails(true));
    LegalSnoc(events + [CommitFails(true)], Rollback);
    AfterDeletions(failed, j + 1);
    assert events + UnsafeEnding(j + 1) == failed + Deletions(j + 1);
    assert s.rollback[..j + 1][j] == s.rollback[j];
    assert s.rollback[j] in Names(s.rollback[..j + 1]);
  }

  /** So every commit that is not safe can leave a row without its object. */
  lemma {:induction false} UnsafeCommitNeeded(events: seq<Event>) returns (j: nat)
    requires Legal(events) && After(events).phase == Committing && !Safe(After(events), CommitFails(true))
    ensures j < |After(events).rollback| && Legal(events + UnsafeEnding(j + 1))
    ensures Dangles(After(events + UnsafeEnding(j + 1)), After(events).rollback[j])
  {
    var s := After(events);
    var path :| path in Names(s.rollback) && path in Paths(s.work);
    var k :| 0 <= k < |s.rollback| && s.rollback[k] == path;
    j := k;
    UnsafeCommitDangles(events, j);
  }

  // ---------------------------------------------------------------- but an object may be left over

  /** A request that inserted a row and is about to upload its object. */
  lemma InsertedRow() returns (s: State)
    ensures var events := [Begin, Insert("f", Link("i", false), "p")];
            Legal(events) && After(events) == s
    ensures s.phase == Uploading("p") && s.objects == {} && Paths(s.committed) == {} && s.rollback == []
    ensures s.work.rows == map["f" := "p"]
  {
    var link := Link("i", false);
    var none: seq<Event> := [];
    LegalSnoc(none, Begin);
    assert none + [Begin] == [Begin];
    assert After([Begin]) == Start().(phase := Running);
    assert !Conflicts(Start().work, "f", link, "p");
    LegalSnoc([Begin], Insert("f", link, "p"));
    assert [Begin] + [Insert("f", link, "p")] == [Begin, Insert("f", link, "p")];
    s := After([Begin, Insert("f", link, "p")]);
  }

  lemma LeftBehind() returns (s: State)
    ensures var events := [Begin, Insert("f", Link("i", false), "p"), StoreFails(true)];
            Legal(events) && After(events) == s
    ensures s.phase == Failed && s.objects == {"p"} && Paths(s.committed) == {} && s.rollback == []
  {
    var inserted := [Begin, Insert("f", Link("i", false), "p")];
    var before := InsertedRow();
    LegalSnoc(inserted, StoreFails(true));
    assert inserted + [StoreFails(true)] == [Begin, Insert("f", Link("i", false), "p"), StoreFails(true)];
    s := After(inserted + [StoreFails(true)]);
  }

  /** The shortest such request: one file is created, the commit takes effect and raises, and the rollback deletes
      the object of the committed row. */
  lemma CreatedFileDangles()
    ensures var events := [Begin, Insert("f", Link("i", false), "p")] + [Store] + [Finish] + UnsafeEnding(1);
            Legal(events) && Legal(events[..5]) && !SafeRun(events[..5]) && Dangles(After(events), "p")
  {
    var inserted := [Begin, Insert("f", Link("i", false), "p")];
    var s := InsertedRow();
    LegalSnoc(inserted, Store);
    LegalSnoc(inserted + [Store], Finish);
    var events := inserted + [Store] + [Finish];
    var t := After(events);
    assert t.rollback == ["p"];
    assert t.work.rows["f"] == "p";
    UnsafeCommitDangles(events, 0);
    LegalSnoc(events, CommitFails(true));
    assert (events + UnsafeEnding(1))[..5] == events + [CommitFails(true)];
    assert (events + [CommitFails(true)])[..4] == events;
    assert t.rollback[0] in Names(t.rollback);
  }

  /** An upload that raises after storing its object leaves the object behind: it was not yet registered. */
  lemma UploadLeftOver()
    ensures var events := [Begin, Insert("f", Link("i", false), "p"), StoreFails(true)] + [Rollback] + [End];
            Legal(events) && After(events).phase == Idle && After(events).objects == {"p"} && Paths(After(events).committed) == {}
  {
    var events := [Begin, Insert("f", Link("i", false), "p"), StoreFails(true)];
    var s := LeftBehind();
    LegalSnoc(events, Rollback);
    LegalSnoc(events + [Rollback], End);
  }

  /** Whatever fails, only names that were issued are left over. */
  lemma OnlyIssuedLeftOver(events: seq<Event>)
    requires Legal(events)
    ensures After(events).objects <= After(events).issued
  {
    RunKeepsInvariant(events);
  }

  // ---------------------------------------------------------------- the services as they run

  datatype UploadOutcome = Stored | Lost | StoredButRaised
  datatype CommitOutcome = Committed | CommitRaises(applied: bool)

  /** The database after one file took the place of another. */
  function Replaced(db: Db, existing: Option<string>, id: string, link: Link, path: string): Db {
    Db((if existing.Some? then db.rows - {existing.value} else db.rows)[id := path],
       (if existing.Some? then db.links - {existing.value} else db.links)[id := link])
  }

  /** The new path comes, the replaced one goes. */
  lemma {:induction false} ReplacedPaths(db: Db, existing: Option<string>, id: string, link: Link, path: string)
    requires Injective(db.rows) && (existing.Some? ==> existing.value in db.rows)
    ensures var gone := if existing.Some? then [db.rows[existing.value]] else [];
            Paths(Replaced(db, existing, id, link, path)) <= Paths(db) - Names(gone) + {path}
  {
    if existing.Some? {
      PathsAfterDrop(db.rows, existing.value);
    }
  }

  /** One process with its database session, its object store and the action lists of the current request. */
  class Store {
    var committed: Db
    var work: Db
    var objects: set<string>
    var rollbackActions: seq<string>
    var postCommitActions: seq<string>
    ghost var phase: Phase
    ghost var removed: seq<string>
    ghost var pending: seq<string>
    ghost var issued: set<string>
    /** Everything that has happened so far. */
    ghost var history: seq<Event>

    ghost function Now(): State
      reads this
    {
      State(phase, committed, work, objects, rollbackActions, removed, pending, issued)
    }

    /** The fields are what the history of events leads to. */
    ghost predicate Valid()
      reads this
    {
      Legal(history) && After(history) == Now()
    }

    constructor ()
      ensures Valid() && phase == Idle && history == []
    {
      committed, work, objects := Db(map[], map[]), Db(map[], map[]), {};
      rollbackActions, postCommitActions := [], [];
      phase, removed, pending, issued, history := Idle, [], [], {}, [];
    }

    /** The history goes on with one more event. */
    ghost method Log(e: Event)
      requires Legal(history) && Enabled(After(history), e)
      modifies this`history
      ensures history == old(history) + [e] && Legal(history) && After(history) == Step(After(old(history)), e)
    {
      LegalSnoc(history, e);
      history := history + [e];
    }

    method BeginRequest()
      requires Valid() && phase == Idle
      modifies this
      ensures Valid() && phase == Running && history == old(history) + [Begin]
      ensures committed == old(committed) && work == committed && objects == old(objects) && issued == old(issued)
      ensures rollbackActions == [] && removed == []
    {
      Log(Begin);
      work := committed;
      rollbackActions, postCommitActions := [], [];
      phase, removed, pending := Running, [], [];
    }

    /** Any step of the handler may raise. */
    method RaiseError()
      requires Valid() && (phase == Running || phase.Unlinked?)
      modifies this`phase, this`history
      ensures Valid() && phase == Failed && history == old(history) + [Raise]
    {
      Log(Raise);
      phase := Failed;
    }

    method InsertRow(id: string, link: Link, path: string)
      requires Valid() && phase == Running && path !in issued && !Conflicts(work, id, link, path)
      modifies this`work, this`phase, this`issued, this`history
      ensures Valid() && phase == Uploading(path) && history == old(history) + [Insert(id, link, path)]
      ensures work == Db(old(work).rows[id := path], old(work).links[id := link]) && issued == old(issued) + {path}
    {
      Log(Insert(id, link, path));
      work := Db(work.rows[id := path], work.links[id := link]);
      phase, issued := Uploading(path), issued + {path};
    }

    /** The object is stored and registered for rollback, or the upload raises. */
    method UploadObject(path: string, upload: UploadOutcome)
      requires Valid() && phase == Uploading(path)
      modifies this`objects, this`rollbackActions, this`phase, this`history
      ensures Valid() && old(history) <= history
      ensures upload == Stored ==> phase == Running && objects == old(objects) + {path} && rollbackActions == old(rollbackActions) + [path]
      ensures upload != Stored ==> phase == Failed && rollbackActions == old(rollbackActions)
      ensures upload == StoredButRaised ==> objects == old(objects) + {path}
      ensures upload == Lost ==> objects == old(objects)
    {
      if upload == Stored {
        Log(Store);
        objects := objects + {path};
        rollbackActions := rollbackActions + [path];
        phase := Running;
      } else {
        Log(StoreFails(upload == StoredButRaised));
        if upload == StoredButRaised {
          objects := objects + {path};
        }
        phase := Failed;
      }
    }

    /** Row first, then the object, then its registration for rollback. */
    method CreateFile(id: string, link: Link, path: string, flushes: bool, upload: UploadOutcome) returns (ok: bool)
      requires Valid() && phase == Running && path !in issued
      modifies this
      ensures Valid() && old(history) <= history && committed == old(committed) && removed == old(removed)
      ensures ok <==> flushes && !Conflicts(old(work), id, link, path) && upload == Stored
      ensures ok ==> && phase == Running && work == Db(old(work).rows[id := path], old(work).links[id := link])
                     && objects == old(objects) + {path} && rollbackActions == old(rollbackActions) + [path]
      ensures !ok ==> phase == Failed && rollbackActions == old(rollbackActions)
      ensures !ok ==> objects == old(objects) || (upload == StoredButRaised && objects == old(objects) + {path})
      ensures issued <= old(issued) + {path}
    {
      if !flushes || Conflicts(work, id, link, path) {
        RaiseError();
        return false;
      }
      InsertRow(id, link, path);
      UploadObject(path, upload);
      ok := upload == Stored;
    }

    method UnlinkFile(id: string, item: string)
      requires Valid() && phase == Running && id in work.links && work.links[id].item == item
      modifies this`work, this`phase, this`history
      ensures Valid() && phase == Unlinked(id) && history == old(history) + [Unlink(id, item)]
      ensures id in work.rows && work == old(work).(links := old(work).links - {id})
    {
      RunKeepsLinked(history);
      Log(Unlink(id, item));
      work := work.(links := work.links - {id});
      phase := Unlinked(id);
    }

    method DropFile(id: string) returns (path: string)
      requires Valid() && phase == Unlinked(id) && id in work.rows && id !in work.links
      modifies this`work, this`phase, this`removed, this`history
      ensures Valid() && phase == Running && history == old(history) + [DropRow]
      ensures path == old(work).rows[id] && removed == old(removed) + [path]
      ensures work == old(work).(rows := old(work).rows - {id})
    {
      path := work.rows[id];
      Log(DropRow);
      work := work.(rows := work.rows - {id});
      removed := removed + [path];
      phase := Running;
    }

    /** Link first, then the row. The service would keep the row of a file that is still used, but the file
        id is the key of the only table of uses, so no use remains. */
    method DeleteFile(id: string, item: string, completes: bool) returns (ok: bool, deleted: Option<string>)
      requires Valid() && phase == Running
      modifies this
      ensures Valid() && old(history) <= history && committed == old(committed) && objects == old(objects)
      ensures rollbackActions == old(rollbackActions) && issued == old(issued)
      ensures ok <==> completes && id in old(work).links && old(work).links[id].item == item
      ensures ok ==> id in old(work).rows
      ensures ok ==> && phase == Running && deleted == Some(old(work).rows[id])
                     && work == Db(old(work).rows - {id}, old(work).links - {id}) && removed == old(removed) + [old(work).rows[id]]
      ensures !ok ==> phase == Failed && deleted == None
    {
      if id !in work.links || work.links[id].item != item {
        RaiseError();
        return false, None;
      }
      UnlinkFile(id, item);
      if !completes {
        RaiseError();
        return false, None;
      }
      var path := DropFile(id);
      return true, Some(path);
    }

    /** The handler returned; the objects of the rows it deleted are registered for cleanup after the commit. */
    method FinishRequest(names: seq<string>)
      requires Valid() && phase == Running && names == removed
      modifies this
      ensures Valid() && phase == Committing && history == old(history) + [Finish]
      ensures postCommitActions == names && committed == old(committed) && work == old(work) && objects == old(objects)
      ensures removed == old(removed) && rollbackActions == old(rollbackActions) && issued == old(issued)
    {
      Log(Finish);
      postCommitActions := names;
      phase := Committing;
    }

    /** One deletion of an action list; a deletion that fails is passed over. */
    method DeleteNext(name: string, ok: bool)
      requires Valid() && (phase == Cleaning || phase == RollingBack) && pending != [] && name == pending[0]
      modifies this`objects, this`pending, this`history
      ensures Valid() && history == old(history) + [DeleteObject(ok)] && pending == old(pending)[1..]
      ensures objects == if ok then old(objects) - {name} else old(objects)
    {
      Log(DeleteObject(ok));
      if ok {
        objects := objects - {name};
      }
      pending := pending[1..];
    }

    /** The action lists are run to the end. */
    method RunActions(names: seq<string>, failing: set<string>)
      requires Valid() && (phase == Cleaning || phase == RollingBack) && names == pending
      modifies this
      ensures Valid() && phase == Idle && old(history) <= history && committed == old(committed)
      ensures objects == old(objects) - (Names(names) - failing) && work == committed
    {
      for index := 0 to |names|
        invariant Valid() && old(history) <= history && (phase == Cleaning || phase == RollingBack)
        invariant pending == names[index..] && committed == old(committed)
        invariant objects == old(objects) - (Names(names[..index]) - failing)
      {
        assert names[..index + 1] == names[..index] + [names[index]];
        NamesSnoc(names[..index], names[index]);
        DeleteNext(names[index], names[index] !in failing);
      }
      assert names[..|names|] == names;
      Rest();
    }

    /** The request is over. */
    method Rest()
      requires Valid() && (phase == Cleaning || phase == RollingBack) && pending == []
      modifies this`work, this`rollbackActions, this`phase, this`removed, this`pending, this`history
      ensures Valid() && phase == Idle && history == old(history) + [End] && work == committed
    {
      Log(End);
      work := committed;
      rollbackActions := [];
      phase, removed, pending := Idle, [], [];
    }

    /** The commit of the session; if it raises, it may have taken effect. */
    method CommitSession(commit: CommitOutcome)
      requires Valid() && phase == Committing
      modifies this`committed, this`phase, this`pending, this`history
      ensures Valid() && old(history) <= history
      ensures committed == if commit == CommitRaises(false) then old(committed) else work
      ensures if commit == Committed then phase == Cleaning && pending == removed else phase == Failed
    {
      if commit == Committed {
        Log(Commit);
        committed, phase, pending := work, Cleaning, removed;
      } else {
        Log(CommitFails(commit.applied));
        if commit.applied {
          committed := work;
        }
        phase := Failed;
      }
    }

    /** The rollback of the session, and then the rollback actions. */
    method RollBack(failing: set<string>)
      requires Valid() && phase == Failed
      modifies this
      ensures Valid() && phase == Idle && old(history) <= history && committed == old(committed)
      ensures objects == old(objects) - (Names(old(rollbackActions)) - failing)
    {
      Log(Rollback);
      work, phase, pending := committed, RollingBack, rollbackActions;
      RunActions(rollbackActions, failing);
    }

    /** provide_async_session: commit and clean up, or roll back and delete what the request stored, also when a
        commit that raised has taken effect. */
    method EndRequest(raised: bool, commit: CommitOutcome, failing: set<string>) returns (done: bool)
      requires Valid() && phase == (if raised then Failed else Committing) && (!raised ==> postCommitActions == removed)
      modifies this
      ensures Valid() && phase == Idle && old(history) <= history
      ensures done <==> !raised && commit == Committed
      ensures committed == if raised || commit == CommitRaises(false) then old(committed) else old(work)
      ensures objects == old(objects) - (Names(if done then old(removed) else old(rollbackActions)) - failing)
    {
      if !raised {
        CommitSession(commit);
      }
      done := !raised && commit == Committed;
      if done {
        RunActions(postCommitActions, failing);
      } else {
        RollBack(failing);
      }
    }

    /** delete_files: one file after the other, until one of them fails. */
    method DeleteFiles(files: seq<string>, item: string, completes: set<string>) returns (ok: bool, names: seq<string>)
      requires Valid() && phase == Running && removed == []
      modifies this
      ensures Valid() && old(history) <= history && committed == old(committed) && objects == old(objects)
      ensures ok ==> phase == Running && names == removed && work.rows == old(work).rows - (set k | 0 <= k < |files| :: files[k])
      ensures !ok ==> phase == Failed
    {
      names := [];
      for index := 0 to |files|
        invariant Valid() && phase == Running && old(history) <= history && committed == old(committed) && objects == old(objects)
        invariant names == removed && work.rows == old(work).rows - (set k | 0 <= k < index :: files[k])
      {
        var done, deleted := DeleteFile(files[index], item, files[index] in completes);
        if !done {
          return false, names;
        }
        names := names + [deleted.value];
      }
      ok := true;
    }

    /** delete_attachment and delete_person_photo within one request. */
    method DeleteItemFile(id: string, item: string, steps: bool, touches: bool, commit: CommitOutcome, failing: set<string>)
      returns (done: bool)
      requires Valid() && phase == Idle
      modifies this
      ensures Valid() && phase == Idle && old(history) <= history
      ensures var handled := id in old(committed).links && old(committed).links[id].item == item && steps && touches;
              && (done <==> handled && commit == Committed)
              && committed == (if handled && commit != CommitRaises(false)
                               then Db(old(committed).rows - {id}, old(committed).links - {id}) else old(committed))
      ensures done ==> id in old(committed).rows
      ensures objects == if done then old(objects) - ({old(committed).rows[id]} - failing) else old(objects)
      ensures Paths(committed) - objects <= old(Paths(committed) - objects)
    {
      RunKeepsInvariant(history);
      BeginRequest();
      var ok, deleted := DeleteFile(id, item, steps);
      if ok && !touches {
        RaiseError();
        ok := false;
      }
      if ok {
        NamesSnoc([], deleted.value);
        assert [] + [deleted.value] == [deleted.value];
        PathsAfterDrop(committed.rows, id);
        FinishRequest([deleted.value]);
      }
      done := EndRequest(!ok, commit, failing);
    }

    /** The handler of replace_person_photo: the old photo's row goes, then the new file comes. */
    method SwapPhoto(person: string, existing: Option<string>, id: string, path: string,
                     steps: bool, flushes: bool, upload: UploadOutcome, touches: bool)
      returns (ok: bool, names: seq<string>)
      requires Valid() && phase == Running && path !in issued && removed == [] && rollbackActions == []
      requires existing.Some? ==> existing.value in work.links && work.links[existing.value] == Link(person, true)
      modifies this
      ensures Valid() && old(history) <= history && committed == old(committed)
      ensures Names(rollbackActions) <= {path} && old(objects) <= objects <= old(objects) + {path}
      ensures existing.Some? && ok ==> existing.value in old(work).rows
      ensures ok ==> && phase == Running && names == removed && objects == old(objects) + {path}
                     && work == Replaced(old(work), existing, id, Link(person, true), path)
                     && removed == if existing.Some? then [old(work).rows[existing.value]] else []
      ensures !ok ==> phase == Failed
    {
      names, ok := [], true;
      NamesSnoc([], path);
      assert [] + [path] == [path];
      if existing.Some? {
        var deleted;
        ok, deleted := DeleteFile(existing.value, person, steps);
        if !ok {
          return;
        }
        names := [deleted.value];
        assert [] + names == names;
      }
      ok := CreateFile(id, Link(person, true), path, flushes, upload);
      if ok && !touches {
        RaiseError();
        ok := false;
      }
    }

    /** replace_person_photo within one request; the old object is deleted once the transaction has committed. Only a
        commit that takes effect and raises can leave a row without its object, the new one. */
    method ReplacePersonPhoto(person: string, existing: Option<string>, id: string, path: string,
                              steps: bool, flushes: bool, upload: UploadOutcome, touches: bool, commit: CommitOutcome,
                              failing: set<string>)
      returns (done: bool)
      requires Valid() && phase == Idle && path !in issued
      requires existing.Some? ==> existing.value in committed.links && committed.links[existing.value] == Link(person, true)
      requires existing.None? ==> forall other :: other in committed.links ==> committed.links[other] != Link(person, true)
      modifies this
      ensures Valid() && phase == Idle && old(history) <= history
      ensures committed == old(committed) || committed == Replaced(old(committed), existing, id, Link(person, true), path)
      ensures done ==> commit == Committed && committed == Replaced(old(committed), existing, id, Link(person, true), path)
      ensures !done && commit != CommitRaises(true) ==> committed == old(committed)
      ensures Paths(committed) - objects <= old(Paths(committed) - objects) + if commit == CommitRaises(true) then {path} else {}
    {
      RunKeepsInvariant(history);
      BeginRequest();
      var ok, names := SwapPhoto(person, existing, id, path, steps, flushes, upload, touches);
      if ok {
        ReplacedPaths(committed, existing, id, Link(person, true), path);
        FinishRequest(names);
      }
      done := EndRequest(!ok, commit, failing);
    }
  }

  // ---------------------------------------------------------------- rows and links go together

  /** The foreign key from links to rows. */
  predicate Linked(db: Db) {
    forall id :: id in db.links ==> id in db.rows
  }

  /** No file without its link, and no link without its file. */
  predicate Paired(db: Db) {
    db.rows.Keys == db.links.Keys
  }

  predicate LinkedIn(s: State) {
    && Paired(s.committed) && Linked(s.work)
    && (s.phase.Unlinked? ==> s.phase.id !in s.work.links && s.work.rows.Keys == s.work.links.Keys + {s.phase.id})
    && (!s.phase.Unlinked? && s.phase != Failed ==> Paired(s.work))
  }

  /** In every run committed rows and links have the same ids. */
  lemma {:induction false} RunKeepsLinked(events: seq<Event>)
    requires Legal(events)
    ensures LinkedIn(After(events))
  {
    if events != [] {
      RunKeepsLinked(events[..|events| - 1]);
    }
  }
}
