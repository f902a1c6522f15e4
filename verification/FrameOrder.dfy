/** Which runs of frames a reassembly takes without calling anything corrupt,
    said of the frames alone. */
module FrameOrder {
  import opened ObjectStream
  import opened Reassembly

  predicate OpensAt(frames: seq<Frame>, i: nat, id: BundleId) {
    i < |frames| && frames[i].Open? && frames[i].bundle.id == id
  }

  predicate RecordAt(frames: seq<Frame>, i: nat, id: BundleId) {
    i < |frames| && frames[i].Record? && frames[i].record.bundle == id
  }

  /** Records of one bundle among frames [from, to). */
  function RecordsOf(frames: seq<Frame>, from: nat, to: nat, id: BundleId): seq<DataRecord> {
    if to <= from then [] else
    RecordsOf(frames, from, to - 1, id) + (if RecordAt(frames, to - 1, id) then [frames[to - 1].record] else [])
  }

  /** A bundle is complete at its last record, and not before one. */
  function Need(bundle: ProofBundle): nat {
    if bundle.recordCount == 0 then 1 else bundle.recordCount
  }

  /** Before frame k, the bundle last opened by frame i still lacks records. */
  ghost predicate OpenSince(frames: seq<Frame>, i: nat, k: nat, id: BundleId) {
    && i < k <= |frames| && OpensAt(frames, i, id) && (forall j: nat :: i < j < k ==> !OpensAt(frames, j, id))
    && |RecordsOf(frames, i + 1, k, id)| < Need(frames[i].bundle)
  }

  ghost predicate IsOpen(frames: seq<Frame>, k: nat, id: BundleId) {
    exists i: nat :: OpenSince(frames, i, k, id)
  }

  function OpenedIds(frames: seq<Frame>, k: nat): set<BundleId>
    requires k <= |frames|
  {
    if k == 0 then {} else OpenedIds(frames, k - 1) + (if frames[k - 1].Open? then {frames[k - 1].bundle.id} else {})
  }

  ghost function OpenIds(frames: seq<Frame>, k: nat): set<BundleId>
    requires k <= |frames|
  {
    set id | id in OpenedIds(frames, k) && IsOpen(frames, k, id)
  }

  /** A header finds its bundle closed and room for it; a record finds its bundle open. */
  ghost predicate InOrder(frames: seq<Frame>, k: nat, limit: nat)
    requires k < |frames|
  {
    match frames[k]
    case Open(bundle) => !IsOpen(frames, k, bundle.id) && |OpenIds(frames, k)| < limit
    case Record(record) => IsOpen(frames, k, record.bundle)
    case Other => false
  }

  function Before(frames: seq<Frame>, k: nat, limit: nat): Pending
    requires k <= |frames|
  {
    After(map[], limit, frames[..k])
  }

  // ----- the reassembly keeps exactly the open bundles

  ghost predicate TracksOne(frames: seq<Frame>, k: nat, pending: Pending, id: BundleId) {
    && (id in pending <==> IsOpen(frames, k, id))
    && (forall i: nat :: OpenSince(frames, i, k, id) && id in pending ==>
          pending[id] == Whole(frames[i].bundle, RecordsOf(frames, i + 1, k, id)))
  }

  ghost predicate Tracks(frames: seq<Frame>, k: nat, pending: Pending) {
    forall id :: TracksOne(frames, k, pending, id)
  }

  lemma {:induction false} OpenedAt(frames: seq<Frame>, i: nat, k: nat, id: BundleId)
    requires i < k <= |frames| && OpensAt(frames, i, id)
    ensures id in OpenedIds(frames, k)
    decreases k
  {
    if i < k - 1 { OpenedAt(frames, i, k - 1, id); }
  }

  lemma OpenAreHeld(frames: seq<Frame>, k: nat, pending: Pending)
    requires k <= |frames| && Tracks(frames, k, pending)
    ensures |OpenIds(frames, k)| == |pending|
  {
    hide OpenSince;
    forall id ensures id in OpenIds(frames, k) <==> id in pending.Keys {
      assert TracksOne(frames, k, pending, id);
      if IsOpen(frames, k, id) {
        var i: nat :| OpenSince(frames, i, k, id);
        assert i < k && OpensAt(frames, i, id) by { SinceOpens(frames, i, k, id); }
        OpenedAt(frames, i, k, id);
      }
    }
    assert OpenIds(frames, k) == pending.Keys;
  }

  lemma SinceOpens(frames: seq<Frame>, i: nat, k: nat, id: BundleId)
    requires OpenSince(frames, i, k, id)
    ensures i < k <= |frames| && OpensAt(frames, i, id)
  {
  }

  /** How one more frame changes what is open. */
  lemma OpenNext(frames: seq<Frame>, i: nat, k: nat, id: BundleId)
    requires k < |frames|
    ensures OpenSince(frames, i, k + 1, id) <==>
            if i == k then OpensAt(frames, k, id)
            else && OpenSince(frames, i, k, id) && !OpensAt(frames, k, id)
                 && |RecordsOf(frames, i + 1, k, id)| + (if RecordAt(frames, k, id) then 1 else 0) < Need(frames[i].bundle)
    ensures i < k ==>
              RecordsOf(frames, i + 1, k + 1, id)
              == RecordsOf(frames, i + 1, k, id) + (if RecordAt(frames, k, id) then [frames[k].record] else [])
  {
  }

  /** Only the last header of a bundle can still be open. */
  lemma OneSince(frames: seq<Frame>, i: nat, j: nat, k: nat, id: BundleId)
    requires OpenSince(frames, i, k, id) && OpenSince(frames, j, k, id)
    ensures i == j
  {
  }

  lemma OtherFrames(frames: seq<Frame>, k: nat, pending: Pending, limit: nat, id: BundleId)
    requires k < |frames| && TracksOne(frames, k, pending, id) && !OpensAt(frames, k, id) && !RecordAt(frames, k, id)
    ensures TracksOne(frames, k + 1, Next(pending, limit, frames[k]), id)
  {
    hide OpenSince, RecordsOf;
    var after := Next(pending, limit, frames[k]);
    assert id in after <==> id in pending;
    assert id in pending ==> after[id] == pending[id];
    var next := k + 1;
    forall i: nat ensures OpenSince(frames, i, next, id) <==> OpenSince(frames, i, k, id) {
      OpenNext(frames, i, k, id);
      SinceBound(frames, i, k, id);
    }
    forall i: nat | OpenSince(frames, i, k, id)
      ensures RecordsOf(frames, i + 1, next, id) == RecordsOf(frames, i + 1, k, id)
    {
      SinceOpens(frames, i, k, id);
      OpenNext(frames, i, k, id);
    }
  }

  lemma SinceBound(frames: seq<Frame>, i: nat, k: nat, id: BundleId)
    ensures OpenSince(frames, i, k, id) ==> i < k && i < |frames| && |RecordsOf(frames, i + 1, k, id)| < Need(frames[i].bundle)
  {
  }

  lemma HeaderFrame(frames: seq<Frame>, k: nat, pending: Pending, limit: nat, id: BundleId)
    requires k < |frames| && OpensAt(frames, k, id) && |pending| < limit
    ensures TracksOne(frames, k + 1, Next(pending, limit, frames[k]), id)
  {
    var next := k + 1;
    forall i: nat ensures OpenSince(frames, i, next, id) <==> i == k {
      OpenNext(frames, i, k, id);
    }
    assert OpenSince(frames, k, next, id);
    assert RecordsOf(frames, k + 1, k + 1, id) == [];
  }

  lemma RecordFrame(frames: seq<Frame>, k: nat, pending: Pending, limit: nat, id: BundleId)
    requires k < |frames| && RecordAt(frames, k, id) && TracksOne(frames, k, pending, id) && IsOpen(frames, k, id)
    ensures TracksOne(frames, k + 1, Next(pending, limit, frames[k]), id)
  {
    var s: nat :| OpenSince(frames, s, k, id);
    hide OpenSince, RecordsOf;
    SinceOpens(frames, s, k, id);
    OpenNext(frames, s, k, id);
    var next := k + 1;
    forall i: nat ensures OpenSince(frames, i, next, id) ==> i == s {
      OpenNext(frames, i, k, id);
      if i != s && OpenSince(frames, i, k, id) { OneSince(frames, i, s, k, id); }
    }
  }

  lemma StepTracks(frames: seq<Frame>, k: nat, pending: Pending, limit: nat)
    requires k < |frames| && Tracks(frames, k, pending) && InOrder(frames, k, limit)
    ensures Tracks(frames, k + 1, Next(pending, limit, frames[k]))
  {
    hide TracksOne, IsOpen, Next, OpenIds;
    OpenAreHeld(frames, k, pending);
    var next, after := k + 1, Next(pending, limit, frames[k]);
    forall id ensures TracksOne(frames, next, after, id) {
      assert TracksOne(frames, k, pending, id);
      if OpensAt(frames, k, id) { HeaderFrame(frames, k, pending, limit, id); }
      else if RecordAt(frames, k, id) { RecordFrame(frames, k, pending, limit, id); }
      else { OtherFrames(frames, k, pending, limit, id); }
    }
  }

  /** A record completes a bundle exactly at the last record it needs; the bundle
      is the one last opened under its id, with its records in order. */
  lemma StepAnswers(frames: seq<Frame>, k: nat, pending: Pending, limit: nat)
    requires k < |frames| && Tracks(frames, k, pending)
    ensures Answer(pending, limit, frames[k]).Corrupt? <==> !InOrder(frames, k, limit)
    ensures Answer(pending, limit, frames[k]).Done? <==>
            frames[k].Record? && exists i: nat :: Completes(frames, i, k)
    ensures forall i: nat :: Completes(frames, i, k) && Answer(pending, limit, frames[k]).Done? ==>
              Answer(pending, limit, frames[k]).whole
              == Whole(frames[i].bundle, RecordsOf(frames, i + 1, k + 1, frames[k].record.bundle))
  {
    hide OpenIds, RecordsOf;
    OpenAreHeld(frames, k, pending);
    match frames[k]
    case Open(bundle) => assert TracksOne(frames, k, pending, bundle.id);
    case Record(record) =>
      assert TracksOne(frames, k, pending, record.bundle);
      if IsOpen(frames, k, record.bundle) {
        var s: nat :| OpenSince(frames, s, k, record.bundle);
        assert Answer(pending, limit, frames[k]).Done? <==> Completes(frames, s, k);
        forall i: nat | Completes(frames, i, k) ensures i == s { OneSince(frames, i, s, k, record.bundle); }
        OpenNext(frames, s, k, record.bundle);
      }
    case Other =>
  }

  /** Frame k is the last record of the bundle frame i opened. */
  ghost predicate Completes(frames: seq<Frame>, i: nat, k: nat) {
    && k < |frames| && frames[k].Record? && OpenSince(frames, i, k, frames[k].record.bundle)
    && |RecordsOf(frames, i + 1, k, frames[k].record.bundle)| + 1 == Need(frames[i].bundle)
  }

  ghost predicate AllInOrder(frames: seq<Frame>, n: nat, limit: nat)
    requires n <= |frames|
  {
    forall k: nat :: k < n ==> InOrder(frames, k, limit)
  }

  lemma {:induction false} OrderedTracks(frames: seq<Frame>, n: nat, limit: nat)
    requires n <= |frames| && AllInOrder(frames, n, limit)
    ensures Tracks(frames, n, Before(frames, n, limit))
    decreases n
  {
    hide Tracks, InOrder, Next;
    if n == 0 {
      NothingOpen(frames);
      assert frames[..0] == [];
    } else {
      OrderedTracks(frames, n - 1, limit);
      StepTracks(frames, n - 1, Before(frames, n - 1, limit), limit);
      assert frames[..n] == frames[..n - 1] + [frames[n - 1]];
      RunMore(map[], limit, frames[..n - 1], frames[n - 1]);
    }
  }

  lemma NothingOpen(frames: seq<Frame>)
    ensures Tracks(frames, 0, map[])
  {
    forall id ensures TracksOne(frames, 0, map[], id) {
    }
  }

  ghost predicate NoneCorrupt(answers: seq<Taken>) {
    forall k :: 0 <= k < |answers| ==> !answers[k].Corrupt?
  }

  /** A run is free of corruption exactly when every header finds its bundle
      closed and room for it, and every record finds its bundle open. */
  lemma {:induction false} CleanExact(frames: seq<Frame>, n: nat, limit: nat)
    requires n <= |frames|
    ensures NoneCorrupt(Answers(map[], limit, frames[..n])) <==> AllInOrder(frames, n, limit)
    decreases n
  {
    hide Tracks, InOrder, Next, Answer;
    if n == 0 {
      assert frames[..0] == [];
    } else {
      var front := frames[..n - 1];
      CleanExact(frames, n - 1, limit);
      assert frames[..n] == front + [frames[n - 1]];
      RunMore(map[], limit, front, frames[n - 1]);
      var answers, last := Answers(map[], limit, front), Answer(After(map[], limit, front), limit, frames[n - 1]);
      hide Answers;
      CleanAppend(answers, last);
      if AllInOrder(frames, n - 1, limit) {
        OrderedTracks(frames, n - 1, limit);
        StepAnswers(frames, n - 1, Before(frames, n - 1, limit), limit);
      }
    }
  }

  lemma CleanAppend(answers: seq<Taken>, last: Taken)
    ensures NoneCorrupt(answers + [last]) <==> NoneCorrupt(answers) && !last.Corrupt?
  {
    if NoneCorrupt(answers + [last]) {
      assert (answers + [last])[|answers|] == last;
      forall k | 0 <= k < |answers| ensures !answers[k].Corrupt? { assert (answers + [last])[k] == answers[k]; }
    }
  }

  lemma CleanRun(frames: seq<Frame>, limit: nat)
    ensures NoneCorrupt(Answers(map[], limit, frames)) <==> AllInOrder(frames, |frames|, limit)
  {
    assert frames[..|frames|] == frames;
    CleanExact(frames, |frames|, limit);
  }

  /** In a clean run, what each record completes. */
  lemma CompletedExact(frames: seq<Frame>, k: nat, limit: nat)
    requires k < |frames| && AllInOrder(frames, k, limit)
    ensures var answer := Answer(Before(frames, k, limit), limit, frames[k]);
            && (answer.Done? <==> exists i: nat :: Completes(frames, i, k))
            && forall i: nat :: Completes(frames, i, k) && answer.Done? ==>
                 answer.whole == Whole(frames[i].bundle, RecordsOf(frames, i + 1, k + 1, frames[k].record.bundle))
  {
    hide Tracks, InOrder, Answer, OpenSince, RecordsOf;
    OrderedTracks(frames, k, limit);
    StepAnswers(frames, k, Before(frames, k, limit), limit);
  }

  /** Whatever arrives, no more bundles are held open than the limit. */
  lemma {:induction false} OpenBounded(pending: Pending, limit: nat, frames: seq<Frame>)
    requires |pending| <= limit
    ensures |After(pending, limit, frames)| <= limit
    decreases |frames|
  {
    if frames != [] {
      StepBounded(pending, limit, frames[0]);
      hide Next;
      OpenBounded(Next(pending, limit, frames[0]), limit, frames[1..]);
    }
  }

  lemma StepBounded(pending: Pending, limit: nat, frame: Frame)
    requires |pending| <= limit
    ensures |Next(pending, limit, frame)| <= limit
  {
    if frame.Record? && frame.record.bundle in pending {
      var id := frame.record.bundle;
      assert (pending - {id}).Keys == pending.Keys - {id};
      assert pending[id := Push(pending[id], frame.record)].Keys == pending.Keys;
    }
    if frame.Open? {
      var id := frame.bundle.id;
      assert pending[id := Whole(frame.bundle, [])].Keys == pending.Keys + {id};
    }
  }
}
