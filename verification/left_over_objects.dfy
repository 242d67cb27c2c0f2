/** Which objects a run of knowledge-file requests leaves behind, exactly. */
module LeftOverObjects {
  import opened KnowledgeFiles

  /** The objects that are to be deleted if the request goes on as it is. */
  function Scheduled(s: State): seq<string> {
    if s.phase == Cleaning || s.phase == RollingBack then s.pending else s.rollback
  }

  /** The objects that lose their last chance of being deleted: stored by an upload that raised, not deleted when
      their turn came, scheduled when the clean-up was cancelled or the process died, or of rows that were removed by
      a commit that took effect and raised, which runs no clean-up. */
  function Missed(s: State, e: Event): set<string>
    requires Enabled(s, e)
  {
    match e
    case StoreFails(_) => {s.phase.path}
    case DeleteObject(_) => {s.pending[0]}
    case Abandon => Names(s.pending)
    case Crash => Names(Scheduled(s))
    case CommitFails(applied) => if applied then Names(s.removed) - Names(s.rollback) else {}
    case _ => {}
  }

  /** Those of them that are stored and belong to no committed row. */
  function Lost(s: State, e: Event): set<string>
    requires Enabled(s, e)
  {
    Missed(s, e) * Step(s, e).objects - Paths(Step(s, e).committed)
  }

  function LostIn(events: seq<Event>): set<string>
    requires Legal(events)
  {
    if events == [] then {}
    else
      var k := |events| - 1;
      LostIn(events[..k]) + Lost(After(events[..k]), events[k])
  }

  predicate Distinct(s: seq<string>) {
    forall i, j :: 0 <= i < j < |s| ==> s[i] != s[j]
  }

  /** No name is listed twice, and an upload in flight is not listed yet. */
  predicate Listed(s: State) {
    && Distinct(s.rollback) && Distinct(s.removed) && Distinct(s.pending)
    && InFlight(s) !! Names(s.rollback)
  }

  predicate HandlerActive(s: State) {
    s.phase.Running? || s.phase.Uploading? || s.phase.Unlinked? || s.phase.Committing?
  }

  /** The rows and objects of an active handler balance. */
  predicate Balanced(s: State) {
    HandlerActive(s) ==> Paths(s.work) + Names(s.removed) == Paths(s.committed) + Names(s.rollback) + InFlight(s)
  }

  /** What should be stored: the objects of committed rows, and the scheduled ones. */
  function Expected(s: State): set<string> {
    Paths(s.committed) + if s.phase == Idle then {} else Names(Scheduled(s))
  }

  /** The stored objects are the expected ones, less those that are gone, and the lost ones. */
  predicate Accounted(s: State, gone: set<string>, lost: set<string>) {
    && lost <= s.issued && lost !! InFlight(s) && lost !! Expected(s)
    && s.objects == (Expected(s) - gone) + lost
  }

  lemma DistinctSnoc(s: seq<string>, x: string)
    requires Distinct(s) && x !in Names(s)
    ensures Distinct(s + [x])
  {
    forall i | 0 <= i < |s| ensures s[i] != x {
      assert s[i] in Names(s);
    }
  }

  lemma DistinctTail(s: seq<string>)
    requires Distinct(s) && s != []
    ensures Distinct(s[1..]) && s[0] !in Names(s[1..])
  {
  }

  lemma {:induction false} StepLists(s: State, e: Event)
    requires Invariant(s) && Listed(s) && Enabled(s, e)
    ensures Listed(Step(s, e))
  {
    match e
    case Store => DistinctSnoc(s.rollback, s.phase.path);
    case DropRow =>
      assert s.work.rows[s.phase.id] in Paths(s.work);
      DistinctSnoc(s.removed, s.work.rows[s.phase.id]);
    case DeleteObject(ok) => DistinctTail(s.pending);
    case _ =>
  }

  lemma {:induction false} StepBalances(s: State, e: Event)
    requires Invariant(s) && Balanced(s) && Enabled(s, e)
    ensures Balanced(Step(s, e))
  {
    match e
    case Insert(id, link, path) => PathsAfterInsert(s.work.rows, id, path);
    case Store => NamesSnoc(s.rollback, s.phase.path);
    case DropRow =>
      var path := s.work.rows[s.phase.id];
      PathsAfterDrop(s.work.rows, s.phase.id);
      NamesSnoc(s.removed, path);
      assert path in Paths(s.work);
    case _ =>
  }

  // ---------------------------------------------------------------- the steps that change what is stored or expected

  lemma {:induction false} UploadAccounts(s: State, e: Event, gone: set<string>, lost: set<string>)
    requires Invariant(s) && Listed(s) && Present(s, gone) && Accounted(s, gone, lost)
    requires Enabled(s, e) && (e.Store? || e.StoreFails?)
    ensures Accounted(Step(s, e), gone, lost + Lost(s, e))
  {
    if e.Store? {
      NamesSnoc(s.rollback, s.phase.path);
    }
  }

  lemma {:induction false} DeletionAccounts(s: State, ok: bool, gone: set<string>, lost: set<string>)
    requires Invariant(s) && Listed(s) && Accounted(s, gone, lost) && Enabled(s, DeleteObject(ok))
    ensures Accounted(Step(s, DeleteObject(ok)), gone + Gone(s, DeleteObject(ok)), lost + Lost(s, DeleteObject(ok)))
  {
    NamesTail(s.pending);
    DistinctTail(s.pending);
  }

  lemma {:induction false} CommitAccounts(s: State, e: Event, gone: set<string>, lost: set<string>)
    requires Invariant(s) && Balanced(s) && Accounted(s, gone, lost) && Enabled(s, e) && (e.Commit? || e.CommitFails?)
    ensures Accounted(Step(s, e), gone, lost + Lost(s, e))
  {
  }

  lemma {:induction false} EndingAccounts(s: State, e: Event, gone: set<string>, lost: set<string>)
    requires Invariant(s) && Accounted(s, gone, lost) && Enabled(s, e)
    requires e.Rollback? || e.Abandon? || e.Crash? || e.End?
    ensures Accounted(Step(s, e), gone, lost + Lost(s, e))
  {
  }

  lemma {:induction false} HandlerAccounts(s: State, e: Event, gone: set<string>, lost: set<string>)
    requires Invariant(s) && Accounted(s, gone, lost) && Enabled(s, e)
    requires e.Begin? || e.Insert? || e.Unlink? || e.DropRow? || e.Raise? || e.Finish?
    ensures Accounted(Step(s, e), gone, lost + Lost(s, e))
  {
  }

  lemma {:induction false} StepAccounts(s: State, e: Event, gone: set<string>, lost: set<string>)
    requires Invariant(s) && Listed(s) && Balanced(s) && Present(s, gone) && Accounted(s, gone, lost) && Enabled(s, e)
    ensures Accounted(Step(s, e), gone + Gone(s, e), lost + Lost(s, e))
  {
    assert gone + {} == gone;
    match e
    case Store => UploadAccounts(s, e, gone, lost);
    case StoreFails(_) => UploadAccounts(s, e, gone, lost);
    case DeleteObject(ok) => DeletionAccounts(s, ok, gone, lost);
    case Commit => CommitAccounts(s, e, gone, lost);
    case CommitFails(_) => CommitAccounts(s, e, gone, lost);
    case Rollback => EndingAccounts(s, e, gone, lost);
    case Abandon => EndingAccounts(s, e, gone, lost);
    case Crash => EndingAccounts(s, e, gone, lost);
    case End => EndingAccounts(s, e, gone, lost);
    case _ => HandlerAccounts(s, e, gone, lost);
  }

  // ---------------------------------------------------------------- every run

  lemma {:induction false} RunAccounts(events: seq<Event>)
    requires Legal(events)
    ensures Listed(After(events)) && Balanced(After(events)) && Accounted(After(events), GoneIn(events), LostIn(events))
  {
    if events != [] {
      var k := |events| - 1;
      var s := After(events[..k]);
      RunAccounts(events[..k]);
      RunKeepsInvariant(events[..k]);
      RunPresent(events[..k]);
      StepLists(s, events[k]);
      StepBalances(s, events[k]);
      StepAccounts(s, events[k], GoneIn(events[..k]), LostIn(events[..k]));
    }
  }

  /** After each finished request the object store holds the objects of the committed rows, but for those that are
      gone, and besides them exactly the lost objects. */
  lemma LeftOverExact(events: seq<Event>)
    requires Legal(events) && After(events).phase == Idle
    ensures After(events).objects - Paths(After(events).committed) == LostIn(events)
    ensures Paths(After(events).committed) - After(events).objects == Paths(After(events).committed) * GoneIn(events)
    ensures After(events).objects == Paths(After(events).committed)
       <==> LostIn(events) == {} && Paths(After(events).committed) !! GoneIn(events)
  {
    RunAccounts(events);
    RunPresent(events);
  }

  /** Uploads and commits that fail leave no trace, deletions of objects succeed and are not cut short. */
  predicate Clean(e: Event) {
    match e
    case StoreFails(stored) => !stored
    case CommitFails(applied) => !applied
    case DeleteObject(ok) => ok
    case Abandon => false
    case Crash => false
    case _ => true
  }

  lemma {:induction false} CleanLosesNothing(events: seq<Event>)
    requires Legal(events) && forall i :: 0 <= i < |events| ==> Clean(events[i])
    ensures LostIn(events) == {} && SafeRun(events)
  {
    if events != [] {
      var k := |events| - 1;
      CleanLosesNothing(events[..k]);
      RunAccounts(events[..k]);
      RunKeepsInvariant(events[..k]);
      CleanStep(After(events[..k]), events[k], GoneIn(events[..k]), LostIn(events[..k]));
    }
  }

  lemma {:induction false} CleanStep(s: State, e: Event, gone: set<string>, lost: set<string>)
    requires Invariant(s) && Listed(s) && Accounted(s, gone, lost) && Enabled(s, e) && Clean(e)
    ensures Lost(s, e) == {} && Safe(s, e)
  {
  }

  /** When uploads and commits fail without a trace and deletions succeed, the object store holds, after each finished
      request, exactly the objects of the committed rows. */
  lemma NothingLeftOver(events: seq<Event>)
    requires Legal(events) && After(events).phase == Idle && forall i :: 0 <= i < |events| ==> Clean(events[i])
    ensures After(events).objects == Paths(After(events).committed)
  {
    CleanLosesNothing(events);
    SafeRunKeepsObjects(events);
    LeftOverExact(events);
  }
}
