/** Which media-file rows are without their object after a run, exactly. */
module MissingObjects {
  import opened MediaFiles

  /** The row is there and its object is not. */
  predicate Misses(s: State, id: string) {
    id in s.rows && ObjectOf(s.rows[id]) !in s.objects
  }

  /** A clean-up deletes the object of this row if it is a candidate and the client does not refuse. */
  predicate Deletable(s: State, id: string) {
    id in s.rows && !IsUsed(s.uses, id)
  }

  /** The candidates that a clean-up removes, as long as it goes on. */
  function Removable(s: State, candidates: seq<string>, failing: map<string, bool>): set<string> {
    set id | id in candidates && Deletable(s, id) && id !in failing
  }

  /** The candidates that it keeps although their object is gone: their deletion raised after taking effect. */
  function Stripped(s: State, candidates: seq<string>, failing: map<string, bool>): set<string> {
    set id | id in candidates && Deletable(s, id) && id in failing && failing[id]
  }

  /** The rows that the event leaves without their object: a deletion raised after the object was gone, or the
      clean-up that deleted the object did not commit. */
  function Emptied(s: State, e: Event): set<string> {
    match e
    case Delete(namespace, id, ending) =>
      if ending == DeleteRaises(true) && Deletable(s, id) && s.rows[id].namespace == namespace then {id} else {}
    case Prune(_, _, candidates, failing, commits) =>
      Stripped(s, candidates, failing) + if commits then {} else Removable(s, candidates, failing)
    case _ => {}
  }

  ghost function EmptiedIn(events: seq<Event>): set<string> {
    if events == [] then {}
    else
      var k := |events| - 1;
      (EmptiedIn(events[..k]) + Emptied(After(events[..k]), events[k])) * After(events).rows.Keys
  }

  // ---------------------------------------------------------------- one clean-up

  /** Rows and objects after a clean-up: the removed candidates are gone, the stripped ones have lost their object,
      all other rows are as before. */
  predicate Pruned(s: State, t: State, removed: set<string>, stripped: set<string>) {
    && t.uses == s.uses && t.rows.Keys == s.rows.Keys - removed
    && (forall id :: id in t.rows ==> ObjectOf(t.rows[id]) == ObjectOf(s.rows[id]))
    && (forall id :: id in removed + stripped ==> id in s.rows && ObjectOf(s.rows[id]) !in t.objects)
    && (forall id :: id in s.rows && id !in removed + stripped ==>
          (ObjectOf(s.rows[id]) in t.objects <==> ObjectOf(s.rows[id]) in s.objects))
  }

  lemma {:induction false} RemoveOne(s: State, t: State, removed: set<string>, stripped: set<string>, id: string)
    requires PathsDistinct(s.rows) && Pruned(s, t, removed, stripped) && id in t.rows
    ensures Pruned(s, t.(rows := t.rows - {id}, objects := t.objects - {ObjectOf(t.rows[id])}), removed + {id}, stripped)
  {
  }

  lemma {:induction false} StripOne(s: State, t: State, removed: set<string>, stripped: set<string>, id: string)
    requires PathsDistinct(s.rows) && Pruned(s, t, removed, stripped) && id in t.rows
    ensures Pruned(s, t.(objects := t.objects - {ObjectOf(t.rows[id])}), removed, stripped + {id})
  {
  }

  lemma {:induction false} PruneOneStep(s: State, t: State, removed: set<string>, stripped: set<string>, id: string,
                                        failing: map<string, bool>)
    requires PathsDistinct(s.rows) && Pruned(s, t, removed, stripped)
    requires id in removed ==> Deletable(s, id) && id !in failing
    ensures Pruned(s, PruneOne(t, id, failing), removed + Removable(s, [id], failing), stripped + Stripped(s, [id], failing))
  {
    assert Removable(s, [id], failing) == if Deletable(s, id) && id !in failing then {id} else {};
    assert Stripped(s, [id], failing) == if Deletable(s, id) && id in failing && failing[id] then {id} else {};
    if id in removed {
      assert removed + {id} == removed;
    } else if Deletable(s, id) && id !in failing {
      RemoveOne(s, t, removed, stripped, id);
    } else if Deletable(s, id) && failing[id] {
      StripOne(s, t, removed, stripped, id);
    }
  }

  lemma {:induction false} PruneAllStep(s: State, candidates: seq<string>, failing: map<string, bool>)
    requires PathsDistinct(s.rows)
    ensures Pruned(s, PruneAll(s, candidates, failing), Removable(s, candidates, failing), Stripped(s, candidates, failing))
  {
    if candidates == [] {
      assert Removable(s, candidates, failing) == {} && Stripped(s, candidates, failing) == {};
    } else {
      var k := |candidates| - 1;
      var rest, id := candidates[..k], candidates[k];
      PruneAllStep(s, rest, failing);
      PruneOneStep(s, PruneAll(s, rest, failing), Removable(s, rest, failing), Stripped(s, rest, failing), id, failing);
      assert candidates == rest + [id];
      assert Removable(s, candidates, failing) == Removable(s, rest, failing) + Removable(s, [id], failing);
      assert Stripped(s, candidates, failing) == Stripped(s, rest, failing) + Stripped(s, [id], failing);
    }
  }

  // ---------------------------------------------------------------- every event

  lemma {:induction false} UploadMisses(s: State, e: Event, id: string)
    requires Invariant(s) && e.Upload? && id in Step(s, e).rows
    ensures Misses(Step(s, e), id) <==> Misses(s, id)
  {
  }

  lemma {:induction false} ChangeMisses(s: State, e: Event, id: string)
    requires e.ChangeUses? && id in Step(s, e).rows
    ensures Misses(Step(s, e), id) <==> Misses(s, id)
  {
  }

  lemma {:induction false} DeleteMisses(s: State, e: Event, id: string)
    requires Invariant(s) && e.Delete? && id in Step(s, e).rows
    ensures Misses(Step(s, e), id) <==> Misses(s, id) || id in Emptied(s, e)
  {
  }

  lemma {:induction false} PruneMisses(s: State, e: Event, id: string)
    requires Invariant(s) && e.Prune? && id in Step(s, e).rows
    ensures Misses(Step(s, e), id) <==> Misses(s, id) || id in Emptied(s, e)
  {
    PruneAllStep(s, e.candidates, e.failing);
  }

  lemma {:induction false} StepMisses(s: State, e: Event, id: string)
    requires Invariant(s) && id in Step(s, e).rows
    ensures Misses(Step(s, e), id) <==> Misses(s, id) || id in Emptied(s, e)
  {
    match e
    case Upload(_, _, _, _, _, _, _) => UploadMisses(s, e, id);
    case ChangeUses(_, _, _, _) => ChangeMisses(s, e, id);
    case Delete(_, _, _) => DeleteMisses(s, e, id);
    case Prune(_, _, _, _, _) => PruneMisses(s, e, id);
  }

  /** In every reachable state exactly the rows that an interrupted deletion emptied, and that were not removed
      since, are without their object. */
  lemma {:induction false} MissingExact(events: seq<Event>, id: string)
    ensures Misses(After(events), id) <==> id in EmptiedIn(events)
  {
    if events != [] {
      var k := |events| - 1;
      MissingExact(events[..k], id);
      RunKeeps(events[..k]);
      if id in After(events).rows {
        StepMisses(After(events[..k]), events[k], id);
      }
    }
  }

  /** No deletion stops or raises between the object and the commit of the row. */
  predicate Uninterrupted(e: Event) {
    match e
    case Delete(_, _, ending) => ending != DeleteRaises(true)
    case Prune(_, _, candidates, failing, commits) =>
      commits && forall i :: 0 <= i < |candidates| && candidates[i] in failing ==> !failing[candidates[i]]
    case _ => true
  }

  /** If no deletion is interrupted, the object of every row exists in every reachable state. */
  lemma {:induction false} RowsHaveObjects(events: seq<Event>, id: string)
    requires forall i :: 0 <= i < |events| ==> Uninterrupted(events[i])
    ensures !Misses(After(events), id)
  {
    if events != [] {
      RowsHaveObjects(events[..|events| - 1], id);
      MissingExact(events[..|events| - 1], id);
      MissingExact(events, id);
    }
  }
}
