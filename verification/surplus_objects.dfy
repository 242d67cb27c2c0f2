/** Which media objects no row refers to after a run, exactly. */
module SurplusObjects {
  import opened MediaFiles
  import opened MissingObjects

  predicate HasRowFor(s: State, o: Object) {
    exists id :: id in s.rows && ObjectOf(s.rows[id]) == o
  }

  predicate Surplus(s: State, o: Object) {
    o in s.objects && !HasRowFor(s, o)
  }

  /** The object that an upload left when it raised after storing it. */
  ghost predicate Strands(s: State, e: Event, o: Object) {
    e.Upload? && e.outcome == UploadRaises(true) && o == Object(e.namespace, e.path)
    && !HasDuplicate(s.rows, e.namespace, e.purpose, e.sha) && !Conflicts(s.rows, e.id, e.namespace, e.path)
  }

  /** The object was left by such an upload, and no later upload took its name. */
  ghost predicate StrandedIn(events: seq<Event>, o: Object) {
    events != [] &&
    var k := |events| - 1;
    (StrandedIn(events[..k], o) || Strands(After(events[..k]), events[k], o)) && !HasRowFor(After(events), o)
  }

  lemma {:induction false} UploadSurplus(s: State, e: Event, o: Object)
    requires Invariant(s) && e.Upload?
    ensures Surplus(Step(s, e), o) <==> (Surplus(s, o) || Strands(s, e, o)) && !HasRowFor(Step(s, e), o)
  {
    var t := Step(s, e);
    if e.id in t.rows && o == ObjectOf(t.rows[e.id]) {
      assert HasRowFor(t, o);
    }
    if id :| id in s.rows && ObjectOf(s.rows[id]) == o {
      assert id in Step(s, e).rows && ObjectOf(Step(s, e).rows[id]) == o;
    }
  }

  lemma {:induction false} ChangeSurplus(s: State, e: Event, o: Object)
    requires e.ChangeUses?
    ensures Surplus(Step(s, e), o) <==> Surplus(s, o) && !HasRowFor(Step(s, e), o)
  {
    if id :| id in s.rows && ObjectOf(s.rows[id]) == o {
      assert id in Step(s, e).rows && ObjectOf(Step(s, e).rows[id]) == o;
    }
  }

  lemma {:induction false} DeleteSurplus(s: State, e: Event, o: Object)
    requires Invariant(s) && e.Delete?
    ensures Surplus(Step(s, e), o) <==> Surplus(s, o) && !HasRowFor(Step(s, e), o)
  {
    if id :| id in s.rows && ObjectOf(s.rows[id]) == o {
      assert id != e.id ==> id in Step(s, e).rows && ObjectOf(Step(s, e).rows[id]) == o;
      assert id == e.id && id !in Step(s, e).rows ==> o !in Step(s, e).objects;
    }
  }

  lemma {:induction false} PrunedForeign(s: State, candidates: seq<string>, failing: map<string, bool>, o: Object)
    requires !HasRowFor(s, o)
    ensures var t := PruneAll(s, candidates, failing); (o in t.objects <==> o in s.objects) && !HasRowFor(t, o)
  {
    if candidates != [] {
      PrunedForeign(s, candidates[..|candidates| - 1], failing, o);
    }
  }

  lemma {:induction false} PruneSurplus(s: State, e: Event, o: Object)
    requires Invariant(s) && e.Prune?
    ensures Surplus(Step(s, e), o) <==> Surplus(s, o) && !HasRowFor(Step(s, e), o)
  {
    PruneAllStep(s, e.candidates, e.failing);
    var t := PruneAll(s, e.candidates, e.failing);
    if HasRowFor(s, o) {
      var id :| id in s.rows && ObjectOf(s.rows[id]) == o;
      if id in t.rows {
        assert ObjectOf(t.rows[id]) == o;
      }
    } else {
      PrunedForeign(s, e.candidates, e.failing, o);
    }
  }

  /** In every reachable state the objects without a row are exactly those that an upload left when it raised. So the
      object of a deleted or pruned row is gone. */
  lemma {:induction false} SurplusExact(events: seq<Event>, o: Object)
    ensures Surplus(After(events), o) <==> StrandedIn(events, o)
  {
    if events != [] {
      var k := |events| - 1;
      var s, e := After(events[..k]), events[k];
      SurplusExact(events[..k], o);
      RunKeeps(events[..k]);
      match e
      case Upload(_, _, _, _, _, _, _) => UploadSurplus(s, e, o);
      case ChangeUses(_, _, _, _) => ChangeSurplus(s, e, o);
      case Delete(_, _, _) => DeleteSurplus(s, e, o);
      case Prune(_, _, _, _, _) => PruneSurplus(s, e, o);
    }
  }

  /** A file that nothing uses is deleted with its object, and no other file or object is touched. */
  lemma {:induction false} DeletedWithObject(s: State, namespace: string, id: string)
    requires Invariant(s) && id in s.rows && s.rows[id].namespace == namespace && !IsUsed(s.uses, id)
    ensures var t := Step(s, Delete(namespace, id, Deleted));
            && t.uses == s.uses && t.rows == s.rows - {id} && ObjectOf(s.rows[id]) !in t.objects
            && forall o :: o in s.objects && o != ObjectOf(s.rows[id]) ==> o in t.objects
  {
  }

  /** Without failures the stored objects are those of the rows. */
  lemma {:induction false} ObjectsAreRows(events: seq<Event>, o: Object)
    requires forall i :: 0 <= i < |events| ==> Uninterrupted(events[i])
    requires forall i :: 0 <= i < |events| && events[i].Upload? ==> events[i].outcome != UploadRaises(true)
    ensures o in After(events).objects <==> HasRowFor(After(events), o)
  {
    SurplusExact(events, o);
    NothingStranded(events, o);
    if id :| id in After(events).rows && ObjectOf(After(events).rows[id]) == o {
      RowsHaveObjects(events, id);
    }
  }

  lemma {:induction false} NothingStranded(events: seq<Event>, o: Object)
    requires forall i :: 0 <= i < |events| && events[i].Upload? ==> events[i].outcome != UploadRaises(true)
    ensures !StrandedIn(events, o)
  {
    if events != [] {
      NothingStranded(events[..|events| - 1], o);
    }
  }
}
