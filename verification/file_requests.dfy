/** Whole requests on knowledge files, from the first event to the last. */
module FileRequests {
  import opened KnowledgeFiles

  /** The events in order, each possible when it happens. */
  predicate Plays(s: State, events: seq<Event>)
    decreases |events|
  {
    events == [] || (Enabled(s, events[0]) && Plays(Step(s, events[0]), events[1..]))
  }

  function Played(s: State, events: seq<Event>): State
    requires Plays(s, events)
    decreases |events|
  {
    if events == [] then s else Played(Step(s, events[0]), events[1..])
  }

  lemma {:induction false} PlaysFirst(s: State, e: Event, rest: seq<Event>)
    requires Enabled(s, e) && Plays(Step(s, e), rest)
    ensures Plays(s, [e] + rest) && Played(s, [e] + rest) == Played(Step(s, e), rest)
  {
    assert ([e] + rest)[1..] == rest;
  }

  /** Playing events after a run is a longer run. */
  lemma {:induction false} PlayedAfter(run: seq<Event>, events: seq<Event>)
    requires Legal(run) && Plays(After(run), events)
    ensures Legal(run + events) && After(run + events) == Played(After(run), events)
    decreases |events|
  {
    if events == [] {
      assert run + events == run;
    } else {
      LegalSnoc(run, events[0]);
      PlayedAfter(run + [events[0]], events[1..]);
      assert run + [events[0]] + events[1..] == run + events;
    }
  }

  // ---------------------------------------------------------------- creation

  /** A name that was never issued, and free keys. */
  predicate Creatable(s: State, id: string, link: Link, path: string) {
    s.phase == Idle && path !in s.issued && !Conflicts(s.committed, id, link, path)
  }

  function Creation(id: string, link: Link, path: string): seq<Event> {
    [Begin] + ([Insert(id, link, path)] + ([Store] + ([Finish] + ([Commit] + ([End] + [])))))
  }

  /** The object is stored, then a later step of the request raises. */
  function FailedCreation(id: string, link: Link, path: string): seq<Event> {
    [Begin] + ([Insert(id, link, path)] + ([Store] + RollingBackAll()))
  }

  function RollingBackAll(): seq<Event> {
    [Raise] + ([Rollback] + ([DeleteObject(true)] + ([End] + [])))
  }

  /** The state when the object of a new file has been stored. */
  function Stored(s: State, id: string, link: Link, path: string): State {
    State(Running, s.committed, Db(s.committed.rows[id := path], s.committed.links[id := link]),
          s.objects + {path}, [path], [], [], s.issued + {path})
  }

  lemma {:induction false} PlaysOn(s: State, id: string, link: Link, path: string, rest: seq<Event>)
    requires Creatable(s, id, link, path) && Plays(Stored(s, id, link, path), rest)
    ensures var events := [Begin] + ([Insert(id, link, path)] + ([Store] + rest));
            Plays(s, events) && Played(s, events) == Played(Stored(s, id, link, path), rest)
  {
    var a := Step(s, Begin);
    var b := Step(a, Insert(id, link, path));
    assert [] + [path] == [path];
    assert Step(b, Store) == Stored(s, id, link, path);
    PlaysFirst(b, Store, rest);
    PlaysFirst(a, Insert(id, link, path), [Store] + rest);
    PlaysFirst(s, Begin, [Insert(id, link, path)] + ([Store] + rest));
  }

  /** A created file is there with its row, its link and its object; all else is as it was. */
  lemma {:induction false} FileCreated(s: State, id: string, link: Link, path: string)
    requires Creatable(s, id, link, path)
    ensures Plays(s, Creation(id, link, path))
    ensures var t := Played(s, Creation(id, link, path));
            && t.phase == Idle && t.committed == Db(s.committed.rows[id := path], s.committed.links[id := link])
            && t.objects == s.objects + {path} && t.issued == s.issued + {path}
  {
    var c := Stored(s, id, link, path);
    var d := Step(c, Finish);
    var e := Step(d, Commit);
    PlaysFirst(e, End, []);
    PlaysFirst(d, Commit, [End] + []);
    PlaysFirst(c, Finish, [Commit] + ([End] + []));
    PlaysOn(s, id, link, path, [Finish] + ([Commit] + ([End] + [])));
  }

  /** A creation that fails after its object was stored leaves rows, links and objects as they were. */
  lemma {:induction false} FailureLeavesNothing(s: State, id: string, link: Link, path: string)
    requires Invariant(s) && Creatable(s, id, link, path)
    ensures Plays(s, FailedCreation(id, link, path))
    ensures var t := Played(s, FailedCreation(id, link, path));
            t.phase == Idle && t.committed == s.committed && t.objects == s.objects
  {
    var c := Stored(s, id, link, path);
    RolledBack(c, path);
    PlaysOn(s, id, link, path, RollingBackAll());
    assert s.objects + {path} - {path} == s.objects;
  }

  lemma {:induction false} RolledBack(c: State, path: string)
    requires c.phase == Running && c.rollback == [path]
    ensures Plays(c, RollingBackAll())
    ensures var t := Played(c, RollingBackAll());
            t.phase == Idle && t.committed == c.committed && t.objects == c.objects - {path}
  {
    var d := Step(c, Raise);
    var e := Step(d, Rollback);
    var f := Step(e, DeleteObject(true));
    PlaysFirst(f, End, []);
    PlaysFirst(e, DeleteObject(true), [End] + []);
    PlaysFirst(d, Rollback, [DeleteObject(true)] + ([End] + []));
    PlaysFirst(c, Raise, [Rollback] + ([DeleteObject(true)] + ([End] + [])));
  }

  // ---------------------------------------------------------------- removal

  function Removal(id: string, item: string): seq<Event> {
    [Begin] + ([Unlink(id, item)] + ([DropRow] + CommittingAll()))
  }

  function CommittingAll(): seq<Event> {
    [Finish] + ([Commit] + ([DeleteObject(true)] + ([End] + [])))
  }

  /** Every file of an item can be removed: its row, its link and its object go; all else is as it was. */
  lemma {:induction false} FileRemoved(s: State, id: string, item: string)
    requires LinkedIn(s) && s.phase == Idle && id in s.committed.links && s.committed.links[id].item == item
    ensures id in s.committed.rows && Plays(s, Removal(id, item))
    ensures var t := Played(s, Removal(id, item));
            && t.phase == Idle && t.committed == Db(s.committed.rows - {id}, s.committed.links - {id})
            && t.objects == s.objects - {s.committed.rows[id]} && t.issued == s.issued
  {
    var a := Step(s, Begin);
    var b := Step(a, Unlink(id, item));
    var c := Step(b, DropRow);
    CleanedUp(c, s.committed.rows[id]);
    PlaysFirst(b, DropRow, CommittingAll());
    PlaysFirst(a, Unlink(id, item), [DropRow] + CommittingAll());
    PlaysFirst(s, Begin, [Unlink(id, item)] + ([DropRow] + CommittingAll()));
  }

  lemma {:induction false} CleanedUp(c: State, path: string)
    requires c.phase == Running && c.removed == [path]
    ensures Plays(c, CommittingAll())
    ensures var t := Played(c, CommittingAll());
            t.phase == Idle && t.committed == c.work && t.objects == c.objects - {path} && t.issued == c.issued
  {
    var d := Step(c, Finish);
    var e := Step(d, Commit);
    var f := Step(e, DeleteObject(true));
    PlaysFirst(f, End, []);
    PlaysFirst(e, DeleteObject(true), [End] + []);
    PlaysFirst(d, Commit, [DeleteObject(true)] + ([End] + []));
    PlaysFirst(c, Finish, [Commit] + ([DeleteObject(true)] + ([End] + [])));
  }

  /** After any run that left the service idle, removing a created file restores rows, links and objects. */
  lemma {:induction false} RemovalUndoesCreation(run: seq<Event>, id: string, link: Link, path: string)
    requires Legal(run) && Creatable(After(run), id, link, path)
    ensures var longer := run + Creation(id, link, path) + Removal(id, link.item);
            && Legal(longer) && After(longer).phase == Idle
            && After(longer).committed == After(run).committed && After(longer).objects == After(run).objects
  {
    var s := After(run);
    RunKeepsInvariant(run);
    FileCreated(s, id, link, path);
    var created := run + Creation(id, link, path);
    PlayedAfter(run, Creation(id, link, path));
    RunKeepsLinked(created);
    FileRemoved(After(created), id, link.item);
    PlayedAfter(created, Removal(id, link.item));
    RunKeepsLinked(run);
    assert s.committed.rows[id := path] - {id} == s.committed.rows;
    assert s.committed.links[id := link] - {id} == s.committed.links;
  }

  // ---------------------------------------------------------------- keys

  /** An item has at most one photo. */
  predicate OnePhotoEach(db: Db) {
    forall a, b :: a in db.links && b in db.links && db.links[a].photo && db.links[a] == db.links[b] ==> a == b
  }

  /** At every point of every run, in what is committed and in what the open transaction sees. */
  lemma {:induction false} RunKeepsPhotos(events: seq<Event>)
    requires Legal(events)
    ensures OnePhotoEach(After(events).committed) && OnePhotoEach(After(events).work)
  {
    if events != [] {
      var k := |events| - 1;
      RunKeepsPhotos(events[..k]);
    }
  }
}
