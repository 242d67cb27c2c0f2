/** The image uploads of the editor: a queue that is worked off one upload at a time while the text changes. */
module UploadQueue {
  import opened Seqs

  datatype Status = Queued | Sending | Errored
  /** `batch` tells which images were queued together; the editor does not keep it. */
  datatype Upload = Upload(id: nat, anchor: nat, status: Status, batch: nat)
  /** Where a character of the document came from. */
  datatype Origin = Typed | Image(id: nat, batch: nat)

  /** `inFlight` holds the requests whose outcome is still open, also for uploads that were dismissed. */
  datatype State = State(uploads: seq<Upload>, nextId: nat, inFlight: multiset<nat>, enabled: bool, doc: string, origins: seq<Origin>)

  datatype Event =
    | QueueImages(files: seq<string>, accepted: set<string>, anchor: nat)
    | Retry(id: nat)
    | Dismiss(id: nat)
    | Complete(id: nat, text: string)
    | Fail(id: nat)
    | Edit(from: nat, to: nat, insert: string)
    | SetEnabled(enabled: bool)

  // ---------------------------------------------------------------- the list

  function IndexOf(uploads: seq<Upload>, id: nat): (k: nat)
    ensures k <= |uploads| && (k < |uploads| ==> uploads[k].id == id)
    ensures forall j :: 0 <= j < k ==> uploads[j].id != id
  {
    if uploads == [] then 0
    else
      var k := IndexOf(uploads[..|uploads| - 1], id);
      if k < |uploads| - 1 || uploads[|uploads| - 1].id == id then k else |uploads|
  }

  function FirstQueued(uploads: seq<Upload>, from: nat): (k: nat)
    requires from <= |uploads|
    ensures from <= k <= |uploads| && (k < |uploads| ==> uploads[k].status == Queued)
    ensures forall j :: from <= j < k ==> uploads[j].status != Queued
    decreases |uploads| - from
  {
    if from == |uploads| || uploads[from].status == Queued then from else FirstQueued(uploads, from + 1)
  }

  function WithStatus(uploads: seq<Upload>, id: nat, status: Status): (r: seq<Upload>)
    ensures |r| == |uploads|
  {
    seq(|uploads|, k requires 0 <= k < |uploads| => if uploads[k].id == id then uploads[k].(status := status) else uploads[k])
  }

  function Remove(uploads: seq<Upload>, id: nat): seq<Upload> {
    if uploads == [] then []
    else
      var k := |uploads| - 1;
      if uploads[k].id == id then Remove(uploads[..k], id) else Remove(uploads[..k], id) + [uploads[k]]
  }

  predicate AnyWith(uploads: seq<Upload>, status: Status) {
    exists k :: 0 <= k < |uploads| && uploads[k].status == status
  }

  /** processNextUpload: nothing happens while an upload is sent or failed; otherwise the first queued one is sent. */
  function Process(s: State): State {
    if !s.enabled || AnyWith(s.uploads, Sending) || AnyWith(s.uploads, Errored) then s
    else
      var k := FirstQueued(s.uploads, 0);
      if k == |s.uploads| then s
      else
        var id := s.uploads[k].id;
        s.(uploads := WithStatus(s.uploads, id, Sending), inFlight := s.inFlight + multiset{id})
  }

  // ---------------------------------------------------------------- the text

  /** mapPos(position, 1) for one change: a position stays before a replacement that starts there, and moves behind
      an insertion there. */
  function MapPosition(position: nat, from: nat, to: nat, inserted: nat): nat
    requires from <= to
  {
    if position < from || (position == from && from < to) then position
    else if position < to then from + inserted
    else position - (to - from) + inserted
  }

  function MapAnchors(uploads: seq<Upload>, from: nat, to: nat, inserted: nat): (r: seq<Upload>)
    requires from <= to
    ensures |r| == |uploads|
  {
    seq(|uploads|, k requires 0 <= k < |uploads| => uploads[k].(anchor := MapPosition(uploads[k].anchor, from, to, inserted)))
  }

  function Tagged(n: nat, origin: Origin): (r: seq<Origin>)
    ensures |r| == n
  {
    seq(n, i => origin)
  }

  function Replace(s: State, from: nat, to: nat, insert: string, origin: Origin): State
    requires from <= to <= |s.doc| == |s.origins|
  {
    s.(uploads := MapAnchors(s.uploads, from, to, |insert|),
       doc := s.doc[..from] + insert + s.doc[to..],
       origins := s.origins[..from] + Tagged(|insert|, origin) + s.origins[to..])
  }

  // ---------------------------------------------------------------- the events

  function Accepted(files: seq<string>, accepted: set<string>): (n: nat)
    ensures n <= |files|
  {
    if files == [] then 0
    else Accepted(files[..|files| - 1], accepted) + if files[|files| - 1] in accepted then 1 else 0
  }

  /** The number of the first image of a batch; the files that are no images come first. */
  function FirstNumber(nextId: nat, unsupported: nat): nat {
    nextId + unsupported + 1
  }

  function Unsupported(files: seq<string>, accepted: set<string>): nat {
    |files| - Accepted(files, accepted)
  }

  /** The new uploads of a batch, numbered from `first` on. */
  function NewUploads(count: nat, first: nat, anchor: nat): (r: seq<Upload>)
    ensures |r| == count
  {
    seq(count, k requires 0 <= k => Upload(first + k, anchor, Queued, first))
  }

  predicate Possible(s: State, e: Event) {
    match e
    case QueueImages(files, accepted, anchor) => anchor <= |s.doc|
    case Complete(id, text) => id in s.inFlight
    case Fail(id) => id in s.inFlight
    case Edit(from, to, insert) => from <= to <= |s.doc|
    case _ => true
  }

  function Added(s: State, first: nat, images: nat, anchor: nat): State
    requires images > 0
  {
    s.(nextId := first + images - 1, uploads := s.uploads + NewUploads(images, first, anchor))
  }

  /** The files that are no images get their numbers first. */
  function Numbered(s: State, unsupported: nat): State {
    s.(nextId := s.nextId + unsupported)
  }

  function QueueSome(s: State, unsupported: nat, images: nat, anchor: nat): State {
    if !s.enabled then s
    else if images == 0 then Numbered(s, unsupported)
    else Process(Added(s, FirstNumber(s.nextId, unsupported), images, anchor))
  }

  function QueueFiles(s: State, files: seq<string>, accepted: set<string>, anchor: nat): State {
    QueueSome(s, Unsupported(files, accepted), Accepted(files, accepted), anchor)
  }

  predicate Fits(s: State) {
    |s.doc| == |s.origins| && forall k :: 0 <= k < |s.uploads| ==> s.uploads[k].anchor <= |s.doc|
  }

  /** The image of upload `k` is inserted at its anchor, and the upload leaves the list. */
  function Inserted(s: State, k: nat, text: string): State
    requires Fits(s) && k < |s.uploads|
  {
    var upload := s.uploads[k];
    var t := Replace(s, upload.anchor, upload.anchor, text, Image(upload.id, upload.batch));
    t.(uploads := Remove(t.uploads, upload.id))
  }

  function RequestOver(s: State, id: nat): State {
    s.(inFlight := s.inFlight - multiset{id})
  }

  /** The request of an upload succeeded: nothing happens if it was dismissed. */
  function Completed(s: State, id: nat, text: string): State
    requires Fits(s)
  {
    var k := IndexOf(s.uploads, id);
    if k == |s.uploads| then RequestOver(s, id) else Process(Inserted(RequestOver(s, id), k, text))
  }

  function Step(s: State, e: Event): State
    requires Possible(s, e) && Fits(s)
  {
    match e
    case QueueImages(files, accepted, anchor) => QueueFiles(s, files, accepted, anchor)
    case Retry(id) => if s.enabled then Process(s.(uploads := WithStatus(s.uploads, id, Queued))) else s
    case Dismiss(id) => Process(s.(uploads := Remove(s.uploads, id)))
    case Complete(id, text) => Completed(s, id, text)
    case Fail(id) => RequestOver(s, id).(uploads := WithStatus(s.uploads, id, Errored))
    case Edit(from, to, insert) => Replace(s, from, to, insert, Typed)
    case SetEnabled(enabled) => s.(enabled := enabled)
  }

  lemma {:induction false} QueueIs(s: State, files: seq<string>, accepted: set<string>, anchor: nat, unsupported: nat, images: nat)
    requires Fits(s) && anchor <= |s.doc| && images == Accepted(files, accepted) && unsupported == |files| - images
    ensures Step(s, QueueImages(files, accepted, anchor)) == QueueSome(s, unsupported, images, anchor)
  {
  }

  // ---------------------------------------------------------------- at most one upload at a time

  predicate NumberBefore(uploads: seq<Upload>, i: nat, j: nat)
    requires i < |uploads| && j < |uploads|
  {
    uploads[i].id < uploads[j].id
  }

  predicate NumbersAscend(uploads: seq<Upload>) {
    forall i, j :: 0 <= i < j < |uploads| ==> NumberBefore(uploads, i, j)
  }

  predicate SameAnchor(u: Upload, v: Upload) {
    u.batch == v.batch ==> u.anchor == v.anchor
  }

  /** Numbers ascend, and only the head of the list may be sent or failed. */
  predicate InLine(s: State) {
    && NumbersAscend(s.uploads)
    && (forall k :: 0 <= k < |s.uploads| ==> s.uploads[k].id <= s.nextId)
    && (forall k :: 0 < k < |s.uploads| ==> s.uploads[k].status == Queued)
    && (forall k :: 0 < k < |s.uploads| ==> s.uploads[k].id !in s.inFlight)
    && (forall id :: id in s.inFlight ==> id <= s.nextId)
  }

  /** The uploads and the images of a batch: equal anchors, behind the images that are already in the text; and the
      images stand in the order of their numbers. */
  predicate BatchesInOrder(s: State) {
    && (forall j, k {:trigger SameAnchor(s.uploads[j], s.uploads[k])} ::
          0 <= j < |s.uploads| && 0 <= k < |s.uploads| ==> SameAnchor(s.uploads[j], s.uploads[k]))
    && (forall p, k {:trigger Behind(s.origins[p], p, s.uploads[k])} ::
          0 <= p < |s.origins| && 0 <= k < |s.uploads| ==> Behind(s.origins[p], p, s.uploads[k]))
    && (forall p, q {:trigger ImagesInOrder(s.origins[p], s.origins[q])} ::
          0 <= p < q < |s.origins| ==> ImagesInOrder(s.origins[p], s.origins[q]))
    && (forall p :: 0 <= p < |s.origins| && s.origins[p].Image? ==> s.origins[p].batch <= s.nextId && s.origins[p].id <= s.nextId)
    && (forall k :: 0 <= k < |s.uploads| ==> s.uploads[k].batch <= s.nextId)
  }

  /** The upload comes after the image, in number and, within the batch, in the text. */
  predicate Behind(origin: Origin, p: nat, upload: Upload) {
    origin.Image? ==> origin.id < upload.id && (origin.batch == upload.batch ==> p < upload.anchor)
  }

  predicate ImagesInOrder(first: Origin, second: Origin) {
    first.Image? && second.Image? && first.batch == second.batch ==> first.id <= second.id
  }

  predicate Invariant(s: State) {
    Fits(s) && InLine(s) && BatchesInOrder(s)
  }

  /** The same uploads with other statuses. */
  predicate SameButStatus(uploads: seq<Upload>, other: seq<Upload>) {
    |other| == |uploads| && forall k :: 0 <= k < |uploads| ==> other[k] == uploads[k].(status := other[k].status)
  }

  lemma StatusesApart(s: State, other: seq<Upload>)
    requires Fits(s) && BatchesInOrder(s) && NumbersAscend(s.uploads) && SameButStatus(s.uploads, other)
    ensures var t := s.(uploads := other);
            Fits(t) && BatchesInOrder(t) && NumbersAscend(other)
  {
    var t := s.(uploads := other);
    forall i, j | 0 <= i < j < |other| ensures NumberBefore(other, i, j) {
      assert NumberBefore(s.uploads, i, j);
    }
    forall j, k | 0 <= j < |other| && 0 <= k < |other| ensures SameAnchor(other[j], other[k]) {
      assert SameAnchor(s.uploads[j], s.uploads[k]);
    }
    forall p, k | 0 <= p < |s.origins| && 0 <= k < |other| ensures Behind(s.origins[p], p, other[k]) {
      assert Behind(s.origins[p], p, s.uploads[k]);
    }
  }

  lemma StatusKeeps(s: State, id: nat, status: Status)
    requires Invariant(s) && (status == Queued || forall k :: 0 < k < |s.uploads| ==> s.uploads[k].id != id)
    ensures Invariant(s.(uploads := WithStatus(s.uploads, id, status)))
  {
    StatusesApart(s, WithStatus(s.uploads, id, status));
  }

  /** The head is the only upload with its number. */
  lemma OnlyHead(s: State)
    requires InLine(s) && s.uploads != []
    ensures forall k :: 0 < k < |s.uploads| ==> s.uploads[k].id != s.uploads[0].id
  {
    forall k | 0 < k < |s.uploads| ensures s.uploads[k].id != s.uploads[0].id {
      assert NumberBefore(s.uploads, 0, k);
    }
  }

  lemma SentKeeps(s: State)
    requires Invariant(s) && s.uploads != []
    ensures var id := s.uploads[0].id;
            Invariant(s.(uploads := WithStatus(s.uploads, id, Sending), inFlight := s.inFlight + multiset{id}))
  {
    OnlyHead(s);
    StatusKeeps(s, s.uploads[0].id, Sending);
  }

  /** If nothing is sent or failed, the first queued upload is the head. */
  lemma ProcessKeeps(s: State)
    requires Invariant(s)
    ensures Invariant(Process(s))
  {
    if s.enabled && !AnyWith(s.uploads, Sending) && !AnyWith(s.uploads, Errored) && s.uploads != [] {
      assert s.uploads[0].status == Queued;
      assert FirstQueued(s.uploads, 0) == 0;
      SentKeeps(s);
    }
  }

  /** A removal keeps the order of the others. */
  lemma {:induction false} RemoveAt(uploads: seq<Upload>, id: nat)
    requires NumbersAscend(uploads)
    ensures var k := IndexOf(uploads, id);
            Remove(uploads, id) == if k == |uploads| then uploads else uploads[..k] + uploads[k + 1..]
  {
    if uploads != [] {
      var n := |uploads| - 1;
      forall i, j | 0 <= i < j < n ensures NumberBefore(uploads[..n], i, j) {
        assert NumberBefore(uploads, i, j);
      }
      RemoveAt(uploads[..n], id);
      SplitSnoc(uploads);
      var k := IndexOf(uploads, id);
      if k < n {
        assert NumberBefore(uploads, k, n);
        assert uploads[..n][k + 1..] + [uploads[n]] == uploads[k + 1..];
        Assoc(uploads[..k], uploads[..n][k + 1..], [uploads[n]]);
      }
    }
  }

  /** `rest` is `uploads` without the element at `k`. */
  predicate Without(uploads: seq<Upload>, rest: seq<Upload>, k: nat) {
    k < |uploads| && |rest| == |uploads| - 1 && forall j :: 0 <= j < |rest| ==> rest[j] == uploads[Source(j, k)]
  }

  function Source(j: int, k: nat): int {
    if j < k then j else j + 1
  }

  lemma RemoveInLine(s: State, rest: seq<Upload>, k: nat)
    requires InLine(s) && Without(s.uploads, rest, k)
    ensures InLine(s.(uploads := rest))
  {
    forall i, j | 0 <= i < j < |rest| ensures NumberBefore(rest, i, j) {
      assert NumberBefore(s.uploads, Source(i, k), Source(j, k));
    }
  }

  lemma RemoveInOrder(s: State, rest: seq<Upload>, k: nat)
    requires Fits(s) && BatchesInOrder(s) && Without(s.uploads, rest, k)
    ensures Fits(s.(uploads := rest)) && BatchesInOrder(s.(uploads := rest))
  {
    forall i, j | 0 <= i < |rest| && 0 <= j < |rest| ensures SameAnchor(rest[i], rest[j]) {
      assert SameAnchor(s.uploads[Source(i, k)], s.uploads[Source(j, k)]);
    }
    forall p, j | 0 <= p < |s.origins| && 0 <= j < |rest| ensures Behind(s.origins[p], p, rest[j]) {
      assert Behind(s.origins[p], p, s.uploads[Source(j, k)]);
    }
  }

  lemma {:induction false} RestKeeps(s: State, rest: seq<Upload>, k: nat)
    requires Invariant(s) && (rest == s.uploads || Without(s.uploads, rest, k))
    ensures Invariant(s.(uploads := rest))
  {
    if rest != s.uploads {
      RemoveInLine(s, rest, k);
      RemoveInOrder(s, rest, k);
    }
  }

  lemma {:induction false} RemovedRest(uploads: seq<Upload>, id: nat) returns (k: nat)
    requires NumbersAscend(uploads)
    ensures Remove(uploads, id) == uploads || Without(uploads, Remove(uploads, id), k)
  {
    k := IndexOf(uploads, id);
    RemoveAt(uploads, id);
  }

  lemma {:induction false} RemoveKeeps(s: State, id: nat)
    requires Invariant(s)
    ensures Invariant(s.(uploads := Remove(s.uploads, id)))
  {
    var k := RemovedRest(s.uploads, id);
    RestKeeps(s, Remove(s.uploads, id), k);
  }

  // ---------------------------------------------------------------- edits of the text

  /** Where the surviving character at `q` of the new text was. */
  function OldPosition(q: int, from: nat, to: nat, inserted: nat): int {
    if q < from then q else q - inserted + (to - from)
  }

  /** An edit of the text keeps the queue in line. */
  lemma ReplaceInLine(s: State, from: nat, to: nat, insert: string, origin: Origin)
    requires Fits(s) && InLine(s) && from <= to <= |s.doc|
    ensures InLine(Replace(s, from, to, insert, origin)) && Fits(Replace(s, from, to, insert, origin))
  {
    MappedAscend(s.uploads, from, to, |insert|);
  }

  lemma MappedAscend(uploads: seq<Upload>, from: nat, to: nat, inserted: nat)
    requires NumbersAscend(uploads) && from <= to
    ensures NumbersAscend(MapAnchors(uploads, from, to, inserted))
  {
    forall i, j | 0 <= i < j < |uploads| ensures NumberBefore(MapAnchors(uploads, from, to, inserted), i, j) {
      assert NumberBefore(uploads, i, j);
    }
  }

  /** Equal anchors stay equal. */
  lemma MappedAnchors(s: State, from: nat, to: nat, inserted: nat, j: nat, k: nat)
    requires BatchesInOrder(s) && from <= to && j < |s.uploads| && k < |s.uploads|
    ensures SameAnchor(MapAnchors(s.uploads, from, to, inserted)[j], MapAnchors(s.uploads, from, to, inserted)[k])
  {
    assert SameAnchor(s.uploads[j], s.uploads[k]);
  }

  /** A character of the new text: old ones come from the old text, in order. */
  lemma ReplacedOrigins(s: State, from: nat, to: nat, insert: string, origin: Origin, q: nat)
    requires Fits(s) && from <= to <= |s.doc| && q < |Replace(s, from, to, insert, origin).origins|
    ensures var t := Replace(s, from, to, insert, origin);
            if from <= q < from + |insert| then t.origins[q] == origin
            else 0 <= OldPosition(q, from, to, |insert|) < |s.origins| && t.origins[q] == s.origins[OldPosition(q, from, to, |insert|)]
  {
  }

  /** An edit that types text keeps the order of batches. */
  lemma EditKeeps(s: State, from: nat, to: nat, insert: string)
    requires Invariant(s) && from <= to <= |s.doc|
    ensures Invariant(Replace(s, from, to, insert, Typed))
  {
    var t := Replace(s, from, to, insert, Typed);
    var n := |insert|;
    ReplaceInLine(s, from, to, insert, Typed);
    forall j, k | 0 <= j < |t.uploads| && 0 <= k < |t.uploads| ensures SameAnchor(t.uploads[j], t.uploads[k]) {
      MappedAnchors(s, from, to, n, j, k);
    }
    forall q, k | 0 <= q < |t.origins| && 0 <= k < |t.uploads| ensures Behind(t.origins[q], q, t.uploads[k]) {
      ReplacedOrigins(s, from, to, insert, Typed, q);
      if q < from || from + n <= q {
        assert Behind(s.origins[OldPosition(q, from, to, n)], OldPosition(q, from, to, n), s.uploads[k]);
      }
    }
    forall p, q | 0 <= p < q < |t.origins| ensures ImagesInOrder(t.origins[p], t.origins[q]) {
      ReplacedOrigins(s, from, to, insert, Typed, p);
      ReplacedOrigins(s, from, to, insert, Typed, q);
      if !(from <= p < from + n) && !(from <= q < from + n) {
        assert ImagesInOrder(s.origins[OldPosition(p, from, to, n)], s.origins[OldPosition(q, from, to, n)]);
      }
    }
    forall p | 0 <= p < |t.origins| && t.origins[p].Image? ensures t.origins[p].batch <= t.nextId && t.origins[p].id <= t.nextId {
      ReplacedOrigins(s, from, to, insert, Typed, p);
    }
  }

  // ---------------------------------------------------------------- a finished upload

  /** What remains of the queue when its head is done: later numbers, and behind the inserted image. */
  function Finish(s: State, text: string): State
    requires Fits(s) && s.uploads != []
  {
    var head := s.uploads[0];
    var t := Replace(s, head.anchor, head.anchor, text, Image(head.id, head.batch));
    t.(uploads := t.uploads[1..])
  }

  lemma FinishInLine(s: State, text: string)
    requires Invariant(s) && s.uploads != []
    ensures InLine(Finish(s, text)) && Fits(Finish(s, text))
  {
    var head := s.uploads[0];
    var t := Replace(s, head.anchor, head.anchor, text, Image(head.id, head.batch));
    ReplaceInLine(s, head.anchor, head.anchor, text, Image(head.id, head.batch));
    forall i, j | 0 <= i < j < |t.uploads| - 1 ensures NumberBefore(t.uploads[1..], i, j) {
      assert NumberBefore(t.uploads, i + 1, j + 1);
    }
  }

  /** The image of the head stands behind the earlier images of its batch, and before the later uploads. */
  lemma FinishBehind(s: State, text: string, q: nat, k: nat)
    requires Invariant(s) && s.uploads != []
    requires q < |Finish(s, text).origins| && k < |Finish(s, text).uploads|
    ensures Behind(Finish(s, text).origins[q], q, Finish(s, text).uploads[k])
  {
    var head := s.uploads[0];
    var at, n := head.anchor, |text|;
    var origin := Image(head.id, head.batch);
    ReplacedOrigins(s, at, at, text, origin, q);
    assert Finish(s, text).uploads[k] == MapAnchors(s.uploads, at, at, n)[k + 1];
    if q < at || at + n <= q {
      assert Behind(s.origins[OldPosition(q, at, at, n)], OldPosition(q, at, at, n), s.uploads[k + 1]);
    } else {
      assert NumberBefore(s.uploads, 0, k + 1);
      assert SameAnchor(head, s.uploads[k + 1]);
    }
  }

  lemma FinishImages(s: State, text: string, p: nat, q: nat)
    requires Invariant(s) && s.uploads != []
    requires p < q < |Finish(s, text).origins|
    ensures ImagesInOrder(Finish(s, text).origins[p], Finish(s, text).origins[q])
  {
    var head := s.uploads[0];
    var at, n := head.anchor, |text|;
    var origin := Image(head.id, head.batch);
    var oldP, oldQ := OldPosition(p, at, at, n), OldPosition(q, at, at, n);
    ReplacedOrigins(s, at, at, text, origin, p);
    ReplacedOrigins(s, at, at, text, origin, q);
    if !(at <= p < at + n) {
      assert Behind(s.origins[oldP], oldP, head);
    }
    if !(at <= q < at + n) {
      assert Behind(s.origins[oldQ], oldQ, head);
    }
    if !(at <= p < at + n) && !(at <= q < at + n) {
      assert ImagesInOrder(s.origins[oldP], s.origins[oldQ]);
    }
  }

  lemma FinishKeeps(s: State, text: string)
    requires Invariant(s) && s.uploads != []
    ensures Invariant(Finish(s, text))
  {
    var t := Finish(s, text);
    FinishInLine(s, text);
    forall j, k | 0 <= j < |t.uploads| && 0 <= k < |t.uploads| ensures SameAnchor(t.uploads[j], t.uploads[k]) {
      MappedAnchors(s, s.uploads[0].anchor, s.uploads[0].anchor, |text|, j + 1, k + 1);
    }
    forall q, k | 0 <= q < |t.origins| && 0 <= k < |t.uploads| ensures Behind(t.origins[q], q, t.uploads[k]) {
      FinishBehind(s, text, q, k);
    }
    forall p, q | 0 <= p < q < |t.origins| ensures ImagesInOrder(t.origins[p], t.origins[q]) {
      FinishImages(s, text, p, q);
    }
    forall p | 0 <= p < |t.origins| && t.origins[p].Image? ensures t.origins[p].batch <= t.nextId && t.origins[p].id <= t.nextId {
      ReplacedOrigins(s, s.uploads[0].anchor, s.uploads[0].anchor, text, Image(s.uploads[0].id, s.uploads[0].batch), p);
    }
  }

  lemma {:induction false} RemoveHead(uploads: seq<Upload>)
    requires uploads != [] && NumbersAscend(uploads)
    ensures Remove(uploads, uploads[0].id) == uploads[1..]
  {
    RemoveAt(uploads, uploads[0].id);
    assert uploads[..0] + uploads[1..] == uploads[1..];
  }

  lemma InsertedIsFinish(s: State, text: string)
    requires Fits(s) && InLine(s) && s.uploads != []
    ensures Inserted(s, 0, text) == Finish(s, text)
  {
    MappedAscend(s.uploads, s.uploads[0].anchor, s.uploads[0].anchor, |text|);
    RemoveHead(MapAnchors(s.uploads, s.uploads[0].anchor, s.uploads[0].anchor, |text|));
  }

  /** Only the head can be finished: a request that is still open belongs to the head or to a dismissed upload. */
  lemma OpenRequestOfHead(s: State, id: nat)
    requires Invariant(s) && id in s.inFlight && IndexOf(s.uploads, id) < |s.uploads|
    ensures IndexOf(s.uploads, id) == 0
  {
  }

  lemma RequestOverKeeps(s: State, id: nat)
    requires Invariant(s)
    ensures Invariant(RequestOver(s, id))
  {
  }

  lemma InsertedKeeps(s: State, id: nat, text: string)
    requires Invariant(s) && id in s.inFlight && IndexOf(s.uploads, id) < |s.uploads|
    ensures Invariant(RequestOver(s, id)) && Invariant(Inserted(RequestOver(s, id), IndexOf(s.uploads, id), text))
  {
    OpenRequestOfHead(s, id);
    RequestOverKeeps(s, id);
    InsertedIsFinish(RequestOver(s, id), text);
    FinishKeeps(RequestOver(s, id), text);
  }

  lemma CompletedKeeps(s: State, id: nat, text: string)
    requires Invariant(s) && id in s.inFlight
    ensures Invariant(Completed(s, id, text))
  {
    if IndexOf(s.uploads, id) < |s.uploads| {
      InsertedKeeps(s, id, text);
      ProcessKeeps(Inserted(RequestOver(s, id), IndexOf(s.uploads, id), text));
    } else {
      RequestOverKeeps(s, id);
    }
  }

  // ---------------------------------------------------------------- new uploads

  function AddedAt(s: State, first: nat, anchor: nat, k: nat): Upload {
    if k < |s.uploads| then s.uploads[k] else Upload(first + (k - |s.uploads|), anchor, Queued, first)
  }

  lemma AddInLine(s: State, first: nat, images: nat, anchor: nat)
    requires Invariant(s) && first > s.nextId && images > 0 && anchor <= |s.doc|
    ensures InLine(Added(s, first, images, anchor)) && Fits(Added(s, first, images, anchor))
    ensures forall k :: 0 <= k < |s.uploads| + images ==> Added(s, first, images, anchor).uploads[k] == AddedAt(s, first, anchor, k)
  {
    var t := Added(s, first, images, anchor);
    assert forall k :: 0 <= k < |t.uploads| ==> t.uploads[k] == AddedAt(s, first, anchor, k);
    forall i, j | 0 <= i < j < |t.uploads| ensures NumberBefore(t.uploads, i, j) {
      if j < |s.uploads| {
        assert NumberBefore(s.uploads, i, j);
      }
    }
  }

  lemma AddKeeps(s: State, first: nat, images: nat, anchor: nat)
    requires Invariant(s) && first > s.nextId && images > 0 && anchor <= |s.doc|
    ensures Invariant(Added(s, first, images, anchor))
  {
    var t := Added(s, first, images, anchor);
    AddInLine(s, first, images, anchor);
    forall j, k | 0 <= j < |t.uploads| && 0 <= k < |t.uploads| ensures SameAnchor(t.uploads[j], t.uploads[k]) {
      assert t.uploads[j] == AddedAt(s, first, anchor, j) && t.uploads[k] == AddedAt(s, first, anchor, k);
      if j < |s.uploads| && k < |s.uploads| {
        assert SameAnchor(s.uploads[j], s.uploads[k]);
      }
    }
    forall p, k | 0 <= p < |t.origins| && 0 <= k < |t.uploads| ensures Behind(t.origins[p], p, t.uploads[k]) {
      assert t.uploads[k] == AddedAt(s, first, anchor, k);
      if k < |s.uploads| {
        assert Behind(s.origins[p], p, s.uploads[k]);
      } else if s.origins[p].Image? {
        ImageNumberIssued(s, p);
      }
    }
  }

  /** The numbers of images in the text were issued. */
  lemma ImageNumberIssued(s: State, p: nat)
    requires Invariant(s) && p < |s.origins| && s.origins[p].Image?
    ensures s.origins[p].batch <= s.nextId && s.origins[p].id <= s.nextId
  {
  }

  lemma NumberedKeeps(s: State, n: nat)
    requires Invariant(s)
    ensures Invariant(Numbered(s, n))
  {
  }

  lemma {:induction false} AddedKeeps(s: State, first: nat, images: nat, anchor: nat)
    requires Invariant(s) && first > s.nextId && images > 0 && anchor <= |s.doc|
    ensures Invariant(Process(Added(s, first, images, anchor)))
  {
    AddKeeps(s, first, images, anchor);
    ProcessKeeps(Added(s, first, images, anchor));
  }

  lemma {:induction false} QueueKeeps(s: State, unsupported: nat, images: nat, anchor: nat)
    requires Invariant(s) && anchor <= |s.doc|
    ensures Invariant(QueueSome(s, unsupported, images, anchor))
  {
    if images > 0 {
      AddedKeeps(s, FirstNumber(s.nextId, unsupported), images, anchor);
    } else {
      NumberedKeeps(s, unsupported);
    }
  }

  // ---------------------------------------------------------------- every run

  lemma {:induction false} QueueFilesKeeps(s: State, files: seq<string>, accepted: set<string>, anchor: nat)
    requires Invariant(s) && anchor <= |s.doc|
    ensures Invariant(QueueFiles(s, files, accepted, anchor))
  {
    QueueKeeps(s, Unsupported(files, accepted), Accepted(files, accepted), anchor);
  }

  lemma {:induction false} RetryKeeps(s: State, id: nat)
    requires Invariant(s)
    ensures Invariant(Process(s.(uploads := WithStatus(s.uploads, id, Queued))))
  {
    StatusKeeps(s, id, Queued);
    ProcessKeeps(s.(uploads := WithStatus(s.uploads, id, Queued)));
  }

  lemma {:induction false} DismissKeeps(s: State, id: nat)
    requires Invariant(s)
    ensures Invariant(Process(s.(uploads := Remove(s.uploads, id))))
  {
    RemoveKeeps(s, id);
    ProcessKeeps(s.(uploads := Remove(s.uploads, id)));
  }

  lemma {:induction false} FailKeeps(s: State, id: nat)
    requires Invariant(s) && id in s.inFlight
    ensures Invariant(RequestOver(s, id).(uploads := WithStatus(s.uploads, id, Errored)))
  {
    RequestOverKeeps(s, id);
    StatusKeeps(RequestOver(s, id), id, Errored);
  }

  lemma {:induction false} StepKeeps(s: State, e: Event)
    requires Invariant(s) && Possible(s, e)
    ensures Invariant(Step(s, e))
  {
    match e
    case QueueImages(files, accepted, anchor) => QueueFilesKeeps(s, files, accepted, anchor);
    case Retry(id) => RetryKeeps(s, id);
    case Dismiss(id) => DismissKeeps(s, id);
    case Complete(id, text) => CompletedKeeps(s, id, text);
    case Fail(id) => FailKeeps(s, id);
    case Edit(from, to, insert) => EditKeeps(s, from, to, insert);
    case SetEnabled(enabled) =>
  }

  function Start(enabled: bool, doc: string): State {
    State([], 0, multiset{}, enabled, doc, Tagged(|doc|, Typed))
  }

  /** The states that the events can lead to. */
  ghost predicate Leads(s: State, events: seq<Event>, t: State)
    decreases |events|
  {
    if events == [] then s == t
    else
      var k := |events| - 1;
      exists r :: Leads(s, events[..k], r) && Fits(r) && Possible(r, events[k]) && Step(r, events[k]) == t
  }

  lemma {:induction false} RunKeeps(enabled: bool, doc: string, events: seq<Event>, t: State)
    requires Leads(Start(enabled, doc), events, t)
    ensures Invariant(t)
    decreases |events|
  {
    if events != [] {
      var k := |events| - 1;
      var r :| Leads(Start(enabled, doc), events[..k], r) && Fits(r) && Possible(r, events[k]) && Step(r, events[k]) == t;
      RunKeeps(enabled, doc, events[..k], r);
      StepKeeps(r, events[k]);
    }
  }

  /** In every reachable state at most one upload is not queued, and it is the head of the list. */
  lemma OnlyHeadNotQueued(enabled: bool, doc: string, events: seq<Event>, t: State, k: nat)
    requires Leads(Start(enabled, doc), events, t) && k < |t.uploads| && t.uploads[k].status != Queued
    ensures k == 0
  {
    RunKeeps(enabled, doc, events, t);
  }

  lemma BatchInOrder(t: State, p: nat, q: nat)
    requires BatchesInOrder(t) && p < |t.origins| && q < |t.origins| && t.origins[p].Image? && t.origins[q].Image?
    requires t.origins[p].batch == t.origins[q].batch && t.origins[p].id < t.origins[q].id
    ensures p < q
  {
    assert q < p ==> ImagesInOrder(t.origins[q], t.origins[p]);
  }

  lemma BatchBehind(t: State, q: nat, k: nat)
    requires BatchesInOrder(t) && q < |t.origins| && t.origins[q].Image? && k < |t.uploads|
    requires t.uploads[k].batch == t.origins[q].batch
    ensures q < t.uploads[k].anchor
  {
    assert Behind(t.origins[q], q, t.uploads[k]);
  }

  /** In every reachable state the images of a batch stand in the text in the order in which they were queued. */
  lemma ImagesInQueueOrder(enabled: bool, doc: string, events: seq<Event>, t: State, p: nat, q: nat)
    requires Leads(Start(enabled, doc), events, t)
    requires p < |t.origins| && q < |t.origins| && t.origins[p].Image? && t.origins[q].Image?
    requires t.origins[p].batch == t.origins[q].batch && t.origins[p].id < t.origins[q].id
    ensures p < q
  {
    RunKeeps(enabled, doc, events, t);
    BatchInOrder(t, p, q);
  }

  /** And all of them stand before the place where the remaining images of the batch will be inserted. */
  lemma RemainingImagesFollow(enabled: bool, doc: string, events: seq<Event>, t: State, q: nat, k: nat)
    requires Leads(Start(enabled, doc), events, t)
    requires q < |t.origins| && t.origins[q].Image? && k < |t.uploads| && t.uploads[k].batch == t.origins[q].batch
    ensures q < t.uploads[k].anchor
  {
    RunKeeps(enabled, doc, events, t);
    BatchBehind(t, q, k);
  }

  // ---------------------------------------------------------------- the component

  class Uploads {
    var uploads: seq<Upload>
    var nextUploadId: nat
    var enabled: bool
    var doc: string
    ghost var inFlight: multiset<nat>
    ghost var origins: seq<Origin>

    ghost function Now(): State
      reads this
    {
      State(uploads, nextUploadId, inFlight, enabled, doc, origins)
    }

    ghost predicate Valid()
      reads this
    {
      Invariant(Now())
    }

    constructor (enabled: bool, doc: string)
      ensures Valid() && Now() == Start(enabled, doc)
    {
      this.uploads, this.nextUploadId, this.enabled, this.doc := [], 0, enabled, doc;
      this.inFlight, this.origins := multiset{}, Tagged(|doc|, Typed);
    }

    method ProcessNextUpload()
      requires Valid()
      modifies this`uploads, this`inFlight
      ensures Valid() && Now() == Process(old(Now()))
    {
      ProcessKeeps(Now());
      if !enabled || AnyWith(uploads, Sending) || AnyWith(uploads, Errored) {
        return;
      }
      var next := FirstQueued(uploads, 0);
      if next == |uploads| {
        return;
      }
      inFlight := inFlight + multiset{uploads[next].id};
      uploads := WithStatus(uploads, uploads[next].id, Sending);
    }

    method CountAccepted(files: seq<string>, accepted: set<string>) returns (images: nat)
      ensures images == Accepted(files, accepted) <= |files|
    {
      images := 0;
      for index := 0 to |files|
        invariant images == Accepted(files[..index], accepted) <= index
      {
        assert files[..index + 1][..index] == files[..index];
        images := images + if files[index] in accepted then 1 else 0;
      }
      assert files[..|files|] == files;
    }

    method AddUploads(unsupported: nat, images: nat, anchor: nat)
      requires Valid() && images > 0 && anchor <= |doc|
      modifies this`uploads, this`nextUploadId
      ensures Valid() && Now() == Added(old(Now()), FirstNumber(old(nextUploadId), unsupported), images, anchor)
    {
      AddKeeps(Now(), nextUploadId + unsupported + 1, images, anchor);
      nextUploadId := nextUploadId + unsupported;
      uploads := uploads + NewUploads(images, nextUploadId + 1, anchor);
      nextUploadId := nextUploadId + images;
    }

    method AddAndProcess(unsupported: nat, images: nat, anchor: nat)
      requires Valid() && images > 0 && anchor <= |doc|
      modifies this`uploads, this`nextUploadId, this`inFlight
      ensures Valid() && Now() == Process(Added(old(Now()), FirstNumber(old(nextUploadId), unsupported), images, anchor))
    {
      AddUploads(unsupported, images, anchor);
      ProcessNextUpload();
    }

    method SkipNumbers(unsupported: nat)
      requires Valid()
      modifies this`nextUploadId
      ensures Valid() && Now() == Numbered(old(Now()), unsupported)
    {
      NumberedKeeps(Now(), unsupported);
      nextUploadId := nextUploadId + unsupported;
    }

    method QueueCounted(unsupported: nat, images: nat, anchor: nat)
      requires Valid() && anchor <= |doc|
      modifies this
      ensures Valid() && Now() == QueueSome(old(Now()), unsupported, images, anchor)
    {
      if !enabled {
        return;
      }
      if images == 0 {
        SkipNumbers(unsupported);
      } else {
        AddAndProcess(unsupported, images, anchor);
      }
    }

    method QueueImageUploads(files: seq<string>, accepted: set<string>, anchor: nat)
      requires Valid() && anchor <= |doc|
      modifies this
      ensures Valid() && Now() == Step(old(Now()), QueueImages(files, accepted, anchor))
    {
      ghost var before := Now();
      var images := CountAccepted(files, accepted);
      var unsupported := |files| - images;
      QueueIs(before, files, accepted, anchor, unsupported, images);
      QueueCounted(unsupported, images, anchor);
    }

    method RetryUpload(id: nat)
      requires Valid()
      modifies this`uploads, this`inFlight
      ensures Valid() && Now() == Step(old(Now()), Retry(id))
    {
      if !enabled {
        return;
      }
      StatusKeeps(Now(), id, Queued);
      uploads := WithStatus(uploads, id, Queued);
      ProcessNextUpload();
    }

    method DismissUpload(id: nat)
      requires Valid()
      modifies this`uploads, this`inFlight
      ensures Valid() && Now() == Step(old(Now()), Dismiss(id))
    {
      RemoveKeeps(Now(), id);
      uploads := Remove(uploads, id);
      ProcessNextUpload();
    }

    /** A change of the document maps the anchors of all uploads. */
    method ReplaceText(from: nat, to: nat, insert: string, ghost origin: Origin)
      requires from <= to <= |doc| && Fits(Now())
      modifies this`uploads, this`doc, this`origins
      ensures Now() == Replace(old(Now()), from, to, insert, origin)
    {
      uploads := MapAnchors(uploads, from, to, |insert|);
      doc := doc[..from] + insert + doc[to..];
      origins := origins[..from] + Tagged(|insert|, origin) + origins[to..];
    }

    method EditText(from: nat, to: nat, insert: string)
      requires Valid() && from <= to <= |doc|
      modifies this`uploads, this`doc, this`origins
      ensures Valid() && Now() == Step(old(Now()), Edit(from, to, insert))
    {
      EditKeeps(Now(), from, to, insert);
      ReplaceText(from, to, insert, Typed);
    }

    method InsertImage(k: nat, text: string)
      requires Fits(Now()) && k < |uploads|
      modifies this`uploads, this`doc, this`origins
      ensures Now() == Inserted(old(Now()), k, text)
    {
      var upload := uploads[k];
      ReplaceText(upload.anchor, upload.anchor, text, Image(upload.id, upload.batch));
      uploads := Remove(uploads, upload.id);
    }

    method Close(id: nat)
      modifies this`inFlight
      ensures Now() == RequestOver(old(Now()), id)
    {
      inFlight := inFlight - multiset{id};
    }

    /** The request for an upload succeeded. */
    method OnUploaded(id: nat, text: string)
      requires Valid() && id in inFlight
      modifies this
      ensures Valid() && Now() == Step(old(Now()), Complete(id, text))
    {
      var current := IndexOf(uploads, id);
      RequestOverKeeps(Now(), id);
      if current == |uploads| {
        Close(id);
        return;
      }
      InsertedKeeps(Now(), id, text);
      Close(id);
      InsertImage(current, text);
      ProcessNextUpload();
    }

    /** The request for an upload failed. */
    method OnFailed(id: nat)
      requires Valid() && id in inFlight
      modifies this`uploads, this`inFlight
      ensures Valid() && Now() == Step(old(Now()), Fail(id))
    {
      StepKeeps(Now(), Fail(id));
      inFlight := inFlight - multiset{id};
      uploads := WithStatus(uploads, id, Errored);
    }
  }
}
