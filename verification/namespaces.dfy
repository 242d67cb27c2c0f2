/** Namespaces share the storage of media files, but no event of one of them reaches another. */
module Namespaces {
  import opened MediaFiles

  predicate HasRow(s: State, namespace: string, id: string) {
    id in s.rows && s.rows[id].namespace == namespace
  }

  /** The rows, uses and objects of a namespace are the same. */
  ghost predicate SameIn(s: State, t: State, namespace: string) {
    && (forall id :: HasRow(s, namespace, id) || HasRow(t, namespace, id) ==>
          HasRow(s, namespace, id) && HasRow(t, namespace, id) && s.rows[id] == t.rows[id])
    && (forall u: Use :: u.namespace == namespace ==> (u in s.uses <==> u in t.uses))
    && (forall o: Object :: o.namespace == namespace ==> (o in s.objects <==> o in t.objects))
  }

  lemma {:induction false} PruneApart(s: State, candidates: seq<string>, failing: map<string, bool>, namespace: string)
    requires forall i :: 0 <= i < |candidates| ==> candidates[i] in s.rows && s.rows[candidates[i]].namespace != namespace
    ensures SameIn(s, PruneAll(s, candidates, failing), namespace)
    ensures forall id :: id in PruneAll(s, candidates, failing).rows ==>
              id in s.rows && ObjectOf(PruneAll(s, candidates, failing).rows[id]) == ObjectOf(s.rows[id])
  {
    if candidates != [] {
      PruneApart(s, candidates[..|candidates| - 1], failing, namespace);
    }
  }

  lemma {:induction false} UploadApart(s: State, e: Event, namespace: string)
    requires e.Upload? && e.namespace != namespace
    ensures SameIn(s, Step(s, e), namespace)
  {
    if HasDuplicate(s.rows, e.namespace, e.purpose, e.sha) {
      var found := Duplicate(s.rows, e.namespace, e.purpose, e.sha);
    }
  }

  /** Whatever is uploaded, attached, detached, deleted or cleaned up in one namespace, another one keeps its rows,
      uses and objects. */
  lemma {:induction false} NamespacesApart(s: State, e: Event, retention: int, limit: nat, namespace: string)
    requires Possible(s, e, retention, limit) && e.namespace != namespace
    ensures SameIn(s, Step(s, e), namespace)
  {
    match e
    case Upload(_, _, _, _, _, _, _) => UploadApart(s, e, namespace);
    case ChangeUses(_, _, _, _) =>
    case Delete(_, _, _) =>
    case Prune(other, now, candidates, failing, commits) =>
      assert forall i :: 0 <= i < |candidates| ==> IsOrphan(s.rows, other, now - retention, candidates[i]);
      PruneApart(s, candidates, failing, namespace);
  }
}
