/** The upload queue goes on: the first upload is being sent or has failed, unless uploads ended while uploading
    was disabled. */
module UploadProgress {
  import opened UploadQueue

  /** The head of the list, if any, does not wait. */
  predicate Moving(s: State) {
    s.uploads == [] || s.uploads[0].status != Queued
  }

  /** The request of an upload that is being sent is open. */
  predicate Backed(s: State) {
    s.uploads != [] && s.uploads[0].status == Sending ==> s.uploads[0].id in s.inFlight
  }

  lemma {:induction false} ProcessMoves(s: State)
    requires Invariant(s) && Backed(s)
    ensures Backed(Process(s)) && Process(s).enabled == s.enabled
    ensures s.enabled ==> Moving(Process(s))
    ensures !s.enabled ==> Process(s) == s
  {
    if s.enabled && s.uploads != [] {
      if s.uploads[0].status == Queued {
        assert FirstQueued(s.uploads, 0) == 0;
      } else {
        assert AnyWith(s.uploads, Sending) || AnyWith(s.uploads, Errored);
      }
    }
  }

  /** An upload at the head ends while uploading is disabled, and another one waits behind it. */
  predicate Stalls(s: State, e: Event) {
    && !s.enabled && |s.uploads| > 1
    && match e
       case Dismiss(id) => id == s.uploads[0].id
       case Complete(id, text) => id == s.uploads[0].id
       case _ => false
  }

  lemma {:induction false} DismissMoves(s: State, id: nat)
    requires Invariant(s) && Moving(s) && Backed(s)
    ensures var t := Step(s, Dismiss(id));
            Backed(t) && t.enabled == s.enabled && (Moving(t) <==> !Stalls(s, Dismiss(id)))
  {
    var u := s.(uploads := Remove(s.uploads, id));
    RemoveKeeps(s, id);
    RemoveAt(s.uploads, id);
    ProcessMoves(u);
  }

  /** The same number, and it waits. */
  predicate WaitsAs(u: Upload, v: Upload) {
    v.id == u.id && v.status == Queued
  }

  /** All but the head, waiting. */
  predicate TailWaits(uploads: seq<Upload>, rest: seq<Upload>) {
    |rest| == |uploads| - 1 && forall k :: 0 <= k < |rest| ==> WaitsAs(uploads[k + 1], rest[k])
  }

  lemma {:induction false} MappedTail(uploads: seq<Upload>, at: nat, inserted: nat)
    requires uploads != [] && forall k :: 0 < k < |uploads| ==> uploads[k].status == Queued
    ensures TailWaits(uploads, MapAnchors(uploads, at, at, inserted)[1..])
  {
    var mapped := MapAnchors(uploads, at, at, inserted);
    forall k | 0 <= k < |mapped[1..]| ensures WaitsAs(uploads[k + 1], mapped[1..][k]) {
      assert mapped[1..][k] == mapped[k + 1];
      assert uploads[k + 1].status == Queued;
    }
  }

  /** After the head is done the others wait. */
  lemma {:induction false} HeadDone(s: State, text: string)
    requires Invariant(s) && s.uploads != [] && s.uploads[0].id in s.inFlight
    ensures var t := Inserted(RequestOver(s, s.uploads[0].id), 0, text);
            && Invariant(t) && t.enabled == s.enabled && t.inFlight == s.inFlight - multiset{s.uploads[0].id}
            && TailWaits(s.uploads, t.uploads)
  {
    var id := s.uploads[0].id;
    InsertedKeeps(s, id, text);
    RequestOverKeeps(s, id);
    InsertedIsFinish(RequestOver(s, id), text);
    MappedTail(s.uploads, s.uploads[0].anchor, |text|);
  }

  lemma {:induction false} CompleteMoves(s: State, id: nat, text: string)
    requires Invariant(s) && Moving(s) && Backed(s) && id in s.inFlight
    ensures var t := Step(s, Complete(id, text));
            Backed(t) && t.enabled == s.enabled && (Moving(t) <==> !Stalls(s, Complete(id, text)))
  {
    if IndexOf(s.uploads, id) < |s.uploads| {
      OpenRequestOfHead(s, id);
      HeadDone(s, text);
      ProcessMoves(Inserted(RequestOver(s, id), 0, text));
    } else {
      assert s.uploads != [] ==> s.uploads[0].id != id;
    }
  }

  lemma {:induction false} QueueMoves(s: State, unsupported: nat, images: nat, anchor: nat)
    requires Invariant(s) && Moving(s) && Backed(s) && anchor <= |s.doc|
    ensures var t := QueueSome(s, unsupported, images, anchor); Backed(t) && t.enabled == s.enabled && Moving(t)
  {
    if images > 0 {
      AddKeeps(s, FirstNumber(s.nextId, unsupported), images, anchor);
      ProcessMoves(Added(s, FirstNumber(s.nextId, unsupported), images, anchor));
    }
  }

  lemma {:induction false} RetryMoves(s: State, id: nat)
    requires Invariant(s) && Moving(s) && Backed(s)
    ensures var t := Step(s, Retry(id)); Backed(t) && t.enabled == s.enabled && Moving(t)
  {
    StatusKeeps(s, id, Queued);
    ProcessMoves(s.(uploads := WithStatus(s.uploads, id, Queued)));
  }

  lemma {:induction false} FailMoves(s: State, id: nat)
    requires Invariant(s) && Moving(s) && Backed(s) && id in s.inFlight
    ensures var t := Step(s, Fail(id)); Backed(t) && t.enabled == s.enabled && Moving(t)
  {
  }

  /** From a state whose head does not wait, every event leads to such a state, but for an end at the head while
      uploading is disabled. */
  lemma {:induction false} StepMovesIff(s: State, e: Event)
    requires Invariant(s) && Moving(s) && Backed(s) && Possible(s, e)
    ensures Backed(Step(s, e)) && (Moving(Step(s, e)) <==> !Stalls(s, e))
    ensures !e.SetEnabled? ==> Step(s, e).enabled == s.enabled
  {
    match e
    case QueueImages(files, accepted, anchor) =>
      QueueMoves(s, Unsupported(files, accepted), Accepted(files, accepted), anchor);
    case Retry(id) => RetryMoves(s, id);
    case Dismiss(id) => DismissMoves(s, id);
    case Complete(id, text) => CompleteMoves(s, id, text);
    case Fail(id) => FailMoves(s, id);
    case Edit(from, to, insert) =>
    case SetEnabled(enabled) =>
  }

  /** While uploading stays enabled the queue never waits: in every reachable state the first upload is being sent,
      with its request open, or it has failed. */
  lemma {:induction false} QueueGoesOn(doc: string, events: seq<Event>, t: State)
    requires Leads(Start(true, doc), events, t) && forall i :: 0 <= i < |events| ==> !events[i].SetEnabled?
    ensures t.enabled && Moving(t) && Backed(t)
    decreases |events|
  {
    if events != [] {
      var k := |events| - 1;
      var r :| Leads(Start(true, doc), events[..k], r) && Fits(r) && Possible(r, events[k]) && Step(r, events[k]) == t;
      QueueGoesOn(doc, events[..k], r);
      RunKeeps(true, doc, events[..k], r);
      StepMovesIff(r, events[k]);
    }
  }

  lemma {:induction false} LeadsOn(s: State, events: seq<Event>, r: State, e: Event)
    requires Leads(s, events, r) && Fits(r) && Possible(r, e)
    ensures Leads(s, events + [e], Step(r, e))
  {
    assert (events + [e])[..|events|] == events;
  }

  lemma {:induction false} TwoAccepted(files: seq<string>, accepted: set<string>)
    requires |files| == 2 && files[0] in accepted && files[1] in accepted
    ensures Accepted(files, accepted) == 2
  {
    assert files[..1][..0] == files[..0] == [];
    assert Accepted(files[..0], accepted) == 0;
    assert Accepted(files[..1], accepted) == 1;
  }

  lemma {:induction false} HeadSent(s: State)
    requires s.enabled && s.uploads != [] && forall k :: 0 <= k < |s.uploads| ==> s.uploads[k].status == Queued
    ensures var t := Process(s);
            && t.enabled && |t.uploads| == |s.uploads| && t.uploads[0].id == s.uploads[0].id
            && t.inFlight == s.inFlight + multiset{s.uploads[0].id}
  {
    assert FirstQueued(s.uploads, 0) == 0;
  }

  /** Two images are queued, and the first one is sent. */
  lemma {:induction false} TwoQueued(files: seq<string>, accepted: set<string>) returns (s: State)
    requires |files| == 2 && files[0] in accepted && files[1] in accepted
    ensures s == Step(Start(true, ""), QueueImages(files, accepted, 0)) && Invariant(s)
    ensures s.enabled && |s.uploads| == 2 && s.inFlight == multiset{s.uploads[0].id}
  {
    var start := Start(true, "");
    TwoAccepted(files, accepted);
    QueueIs(start, files, accepted, 0, 0, 2);
    QueueKeeps(start, 0, 2, 0);
    var added := Added(start, 1, 2, 0);
    HeadSent(added);
    s := Process(added);
  }

  /** Uploading is disabled, and the first image arrives. */
  lemma {:induction false} OneWaits(two: State, disabled: State, text: string) returns (one: State)
    requires Invariant(two) && |two.uploads| == 2 && two.inFlight == multiset{two.uploads[0].id}
    requires disabled == two.(enabled := false)
    ensures Fits(disabled) && Possible(disabled, Complete(disabled.uploads[0].id, text))
    ensures one == Step(disabled, Complete(disabled.uploads[0].id, text)) && Fits(one)
    ensures one.inFlight == multiset{} && |one.uploads| == 1 && one.uploads[0].status == Queued
  {
    var id := disabled.uploads[0].id;
    assert Invariant(disabled);
    HeadDone(disabled, text);
    one := Inserted(RequestOver(disabled, id), 0, text);
    assert WaitsAs(disabled.uploads[1], one.uploads[0]);
    assert Process(one) == one;
  }

  /** A run: two images are queued, uploading is disabled, the first image arrives, uploading is enabled again. Then
      the second one still waits, with nothing on its way. */
  lemma {:induction false} EnablingDoesNotResume(files: seq<string>, accepted: set<string>, text: string)
    returns (events: seq<Event>, t: State)
    requires |files| == 2 && files[0] in accepted && files[1] in accepted
    ensures Leads(Start(true, ""), events, t) && t.enabled && t.inFlight == multiset{}
    ensures |t.uploads| == 1 && t.uploads[0].status == Queued
  {
    var start := Start(true, "");
    var two := TwoQueued(files, accepted);
    LeadsOn(start, [], start, QueueImages(files, accepted, 0));
    events := [] + [QueueImages(files, accepted, 0)];
    LeadsOn(start, events, two, SetEnabled(false));
    events := events + [SetEnabled(false)];
    var disabled := Step(two, SetEnabled(false));
    var one := OneWaits(two, disabled, text);
    var arrived := Complete(disabled.uploads[0].id, text);
    LeadsOn(start, events, disabled, arrived);
    events := events + [arrived];
    LeadsOn(start, events, one, SetEnabled(true));
    events := events + [SetEnabled(true)];
    t := Step(one, SetEnabled(true));
  }

  // ---------------------------------------------------------------- what each event leaves

  /** The same numbers and anchors; statuses may differ. */
  predicate SameUploads(a: seq<Upload>, b: seq<Upload>) {
    |a| == |b| && forall k :: 0 <= k < |a| ==> a[k].id == b[k].id && a[k].anchor == b[k].anchor
  }

  lemma ProcessSends(s: State)
    ensures SameUploads(s.uploads, Process(s).uploads) && Process(s).doc == s.doc
  {
  }

  /** An upload behind an inserted text keeps its number, and its place in the old text. */
  predicate MovedAlong(u: Upload, v: Upload, at: nat, inserted: nat) {
    v.id == u.id && v.anchor == u.anchor + if u.anchor < at then 0 else inserted
  }

  lemma {:induction false} IndexOfHere(uploads: seq<Upload>, k: nat)
    requires NumbersAscend(uploads) && k < |uploads|
    ensures IndexOf(uploads, uploads[k].id) == k
  {
    var j := IndexOf(uploads, uploads[k].id);
    assert j < k ==> NumberBefore(uploads, j, k);
  }

  /** The text of the head was put at its anchor, and the head has left the list; the others moved along. */
  predicate HeadGone(s: State, t: State, text: string)
    requires Fits(s) && s.uploads != []
  {
    var at := s.uploads[0].anchor;
    && t.doc == s.doc[..at] + text + s.doc[at..] && |t.uploads| == |s.uploads| - 1
    && forall k :: 0 <= k < |t.uploads| ==> MovedAlong(s.uploads[k + 1], t.uploads[k], at, |text|)
  }

  lemma HeadFinished(s: State, text: string)
    requires Fits(s) && s.uploads != []
    ensures HeadGone(s, Finish(s, text), text)
  {
  }

  lemma {:induction false} SentGone(s: State, t: State, text: string)
    requires Fits(s) && s.uploads != [] && HeadGone(s, t, text)
    ensures HeadGone(s, Process(t), text)
  {
    ProcessSends(t);
    forall k | 0 <= k < |t.uploads| ensures MovedAlong(s.uploads[k + 1], Process(t).uploads[k], s.uploads[0].anchor, |text|) {
      assert MovedAlong(s.uploads[k + 1], t.uploads[k], s.uploads[0].anchor, |text|);
    }
  }

  lemma {:induction false} CompletedIs(s: State, r: State, text: string)
    requires Invariant(s) && s.uploads != [] && s.uploads[0].id in s.inFlight && r == RequestOver(s, s.uploads[0].id)
    ensures Invariant(r) && Step(s, Complete(s.uploads[0].id, text)) == Process(Finish(r, text))
  {
    RequestOverKeeps(s, s.uploads[0].id);
    InsertedIsFinish(r, text);
    IndexOfHere(s.uploads, 0);
  }

  /** A finished upload at the head puts its text at its anchor and leaves the list; the others move along. */
  lemma {:induction false} ImageInserted(s: State, text: string)
    requires Invariant(s) && s.uploads != [] && s.uploads[0].id in s.inFlight
    ensures HeadGone(s, Step(s, Complete(s.uploads[0].id, text)), text)
  {
    var r := RequestOver(s, s.uploads[0].id);
    CompletedIs(s, r, text);
    HeadFinished(r, text);
    SentGone(r, Finish(r, text), text);
  }

  /** The request of a dismissed upload changes nothing when it ends. */
  lemma {:induction false} DismissedIgnored(s: State, id: nat, text: string)
    requires Invariant(s) && id in s.inFlight && forall k :: 0 <= k < |s.uploads| ==> s.uploads[k].id != id
    ensures Step(s, Complete(id, text)) == Step(s, Fail(id)) == s.(inFlight := s.inFlight - multiset{id})
  {
    assert WithStatus(s.uploads, id, Errored) == s.uploads;
  }

  /** An upload that fails stays in its place, marked, and nothing else is sent. */
  lemma {:induction false} FailedStays(s: State)
    requires Invariant(s) && s.uploads != [] && s.uploads[0].id in s.inFlight
    ensures var head := s.uploads[0]; var t := Step(s, Fail(head.id));
            && t.doc == s.doc && t.inFlight == s.inFlight - multiset{head.id}
            && t.uploads == [head.(status := Errored)] + s.uploads[1..]
  {
    OnlyHeadHas(s.uploads, Errored);
  }

  lemma {:induction false} OnlyHeadHas(uploads: seq<Upload>, status: Status)
    requires uploads != [] && NumbersAscend(uploads)
    ensures WithStatus(uploads, uploads[0].id, status) == [uploads[0].(status := status)] + uploads[1..]
    ensures NumbersAscend(WithStatus(uploads, uploads[0].id, status))
  {
    forall i, j | 0 <= i < j < |uploads| ensures NumberBefore(WithStatus(uploads, uploads[0].id, status), i, j) {
      assert NumberBefore(uploads, i, j);
    }
    forall k | 0 < k < |uploads| ensures uploads[k].id != uploads[0].id {
      assert NumberBefore(uploads, 0, k);
    }
  }

  /** Retried, it is sent again, from its place. */
  lemma {:induction false} RetriedIsSent(s: State)
    requires Invariant(s) && s.enabled && s.uploads != [] && s.uploads[0].status == Errored
    ensures var head := s.uploads[0]; var t := Step(s, Retry(head.id));
            && t.doc == s.doc && t.inFlight == s.inFlight + multiset{head.id}
            && t.uploads == [head.(status := Sending)] + s.uploads[1..]
  {
    var id := s.uploads[0].id;
    OnlyHeadHas(s.uploads, Queued);
    var waiting := WithStatus(s.uploads, id, Queued);
    OnlyHeadHas(waiting, Sending);
    assert FirstQueued(waiting, 0) == 0;
    assert !AnyWith(waiting, Sending) && !AnyWith(waiting, Errored);
  }

  lemma {:induction false} RemovedOne(uploads: seq<Upload>, k: nat, rest: seq<Upload>)
    requires NumbersAscend(uploads) && k < |uploads| && rest == uploads[..k] + uploads[k + 1..]
    ensures Remove(uploads, uploads[k].id) == rest
  {
    IndexOfHere(uploads, k);
    RemoveAt(uploads, uploads[k].id);
  }

  /** A dismissed upload leaves the list, and nothing else does. */
  lemma {:induction false} DismissedOnly(s: State, k: nat, rest: seq<Upload>)
    requires Fits(s) && NumbersAscend(s.uploads) && k < |s.uploads| && rest == s.uploads[..k] + s.uploads[k + 1..]
    ensures var t := Step(s, Dismiss(s.uploads[k].id)); t.doc == s.doc && SameUploads(rest, t.uploads)
  {
    RemovedOne(s.uploads, k, rest);
    var left := s.(uploads := rest);
    ProcessSends(left);
  }

  function Places(files: seq<string>, accepted: set<string>): set<nat> {
    set k: nat | k < |files| && files[k] in accepted
  }

  lemma {:induction false} AcceptedPlaces(files: seq<string>, accepted: set<string>)
    ensures |Places(files, accepted)| == Accepted(files, accepted)
  {
    if files == [] {
      assert Places(files, accepted) == {};
    } else {
      var k := |files| - 1;
      AcceptedPlaces(files[..k], accepted);
      assert Places(files, accepted) == Places(files[..k], accepted) + if files[k] in accepted then {k} else {};
    }
  }

  /** Accepted images are queued behind the others for the given place. Every file has taken a number, those of the
      images being the last ones, in order. */
  lemma {:induction false} QueuedBehind(s: State, files: seq<string>, accepted: set<string>, anchor: nat)
    requires Invariant(s) && s.enabled && anchor <= |s.doc|
    ensures var t := Step(s, QueueImages(files, accepted, anchor)); var n := |s.uploads|;
            && t.doc == s.doc && |t.uploads| == n + |Places(files, accepted)| && t.nextId == s.nextId + |files|
            && SameUploads(s.uploads, t.uploads[..n])
            && forall k :: n <= k < |t.uploads| ==> t.uploads[k].anchor == anchor && t.uploads[k].id == t.nextId - (|t.uploads| - 1 - k)
  {
    AcceptedPlaces(files, accepted);
    var images, unsupported := Accepted(files, accepted), Unsupported(files, accepted);
    if images > 0 {
      ProcessSends(Added(s, FirstNumber(s.nextId, unsupported), images, anchor));
    }
  }

  /** Typing replaces what was selected; the list and the requests stay, and the anchors are mapped. */
  lemma {:induction false} TextReplaced(s: State, left: string, middle: string, right: string, insert: string)
    requires Fits(s) && s.doc == left + middle + right
    ensures var from, to := |left|, |left + middle|; var t := Step(s, Edit(from, to, insert));
            && t.doc == left + insert + right && t.inFlight == s.inFlight && |t.uploads| == |s.uploads|
            && forall k :: 0 <= k < |t.uploads| ==>
                 t.uploads[k] == s.uploads[k].(anchor := MapPosition(s.uploads[k].anchor, from, to, |insert|))
  {
    assert s.doc[..|left|] == left && s.doc[|left + middle|..] == right;
  }

  /** The text before an anchor, or behind it, is the same after a change that does not touch it. */
  lemma MappedAnchor(doc: string, anchor: nat, from: nat, to: nat, insert: string)
    requires anchor <= |doc| && from <= to <= |doc|
    ensures var mapped := MapPosition(anchor, from, to, |insert|); var result := doc[..from] + insert + doc[to..];
            && mapped <= |result|
            && (anchor < from || (anchor == from && from < to) ==> result[..mapped] == doc[..anchor])
            && (to <= anchor && (from < anchor || from == to) ==> result[mapped..] == doc[anchor..])
            && (from < anchor < to ==> mapped == from + |insert|)
  {
  }
}
