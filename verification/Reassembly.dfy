/** Bundles put back together from one connection that carries every worker's
    lane, in whatever order the lanes were interleaved. */
module Reassembly {
  import opened Wrappers
  import opened ObjectStream
  import opened JumpAhead

  const COMPLETED_MAX := U64_MAX

  /** A delivered frame, decoded. Anything else the wire can carry is `Other`. */
  datatype Frame = Open(bundle: ProofBundle) | Record(record: DataRecord) | Other

  datatype Taken = Corrupt | Waiting | Done(whole: Whole)

  type Pending = map<BundleId, Whole>

  /** What one frame does to the open bundles. */
  function Next(pending: Pending, limit: nat, frame: Frame): Pending {
    match frame
    case Open(bundle) => if |pending| >= limit then pending else pending[bundle.id := Whole(bundle, [])]
    case Record(record) =>
      if record.bundle !in pending then pending else
      var got := Push(pending[record.bundle], record);
      if |got.records| < got.bundle.recordCount then pending[record.bundle := got] else pending - {record.bundle}
    case Other => pending
  }

  /** What one frame answers. */
  function Answer(pending: Pending, limit: nat, frame: Frame): Taken {
    match frame
    case Open(bundle) => if |pending| >= limit || bundle.id in pending then Corrupt else Waiting
    case Record(record) =>
      if record.bundle !in pending then Corrupt else
      var got := Push(pending[record.bundle], record);
      if |got.records| < got.bundle.recordCount then Waiting else Done(got)
    case Other => Corrupt
  }

  function Push(whole: Whole, record: DataRecord): Whole {
    Whole(whole.bundle, whole.records + [record])
  }

  class BundleReassembly {
    var pending: Pending
    const limit: nat
    var completed: nat

    constructor (limit: nat)
      ensures pending == map[] && this.limit == limit && completed == 0
    {
      pending := map[];
      this.limit := limit;
      completed := 0;
    }

    /** Takes in one frame, and answers with the bundle it completes, if it does. */
    method Take(frame: Frame) returns (r: Taken)
      modifies this
      ensures r == Answer(old(pending), limit, frame)
      ensures pending == Next(old(pending), limit, frame)
      ensures completed == if r.Done? && old(completed) < COMPLETED_MAX then old(completed) + 1 else old(completed)
    {
      match frame {
        case Open(bundle) =>
          if |pending| >= limit { return Corrupt; }
          var replaced := bundle.id in pending;
          pending := pending[bundle.id := Whole(bundle, [])];
          if replaced { return Corrupt; }
          return Waiting;
        case Record(record) =>
          if record.bundle !in pending { return Corrupt; }
          var got := Push(pending[record.bundle], record);
          pending := pending[record.bundle := got];
          if |got.records| < got.bundle.recordCount { return Waiting; }
          pending := pending - {record.bundle};
          if completed < COMPLETED_MAX { completed := completed + 1; }
          return Done(got);
        case Other => return Corrupt;
      }
    }
  }

  // ----- lanes and their interleavings

  /** The worker whose bundle a frame belongs to. */
  function Sender(frame: Frame): Option<nat> {
    match frame
    case Open(bundle) => Some(bundle.id.worker)
    case Record(record) => Some(record.bundle.worker)
    case Other => None
  }

  predicate FromLane(frame: Frame, lane: nat) {
    Sender(frame) == Some(lane)
  }

  ghost predicate FromLanes(frames: seq<Frame>, lanes: nat) {
    forall i :: 0 <= i < |frames| ==> Sender(frames[i]).Some? && Sender(frames[i]).value < lanes
  }

  /** The frames of one lane, in the order they were delivered. */
  function Of(frames: seq<Frame>, lane: nat): seq<Frame> {
    if frames == [] then []
    else (if FromLane(frames[0], lane) then [frames[0]] else []) + Of(frames[1..], lane)
  }

  function RecordFrames(records: seq<DataRecord>): (r: seq<Frame>)
    ensures |r| == |records|
  {
    seq(|records|, i requires 0 <= i < |records| => Record(records[i]))
  }

  /** One lane as it is submitted: each bundle's header, then its records. */
  function Wire(lane: seq<Whole>): seq<Frame> {
    if lane == [] then [] else [Open(lane[0].bundle)] + RecordFrames(lane[0].records) + Wire(lane[1..])
  }

  /** How far a lane has been delivered: whole bundles, and the records of an open one. */
  datatype Progress = Progress(done: nat, got: Option<nat>)

  ghost predicate Reached(lane: seq<Whole>, p: Progress) {
    && p.done <= |lane|
    && (p.got.Some? ==> p.done < |lane| && p.got.value < |lane[p.done].records|)
  }

  /** What a lane has still to deliver. */
  ghost function Rest(lane: seq<Whole>, p: Progress): seq<Frame>
    requires Reached(lane, p)
  {
    match p.got
    case None => Wire(lane[p.done..])
    case Some(j) => RecordFrames(lane[p.done].records[j..]) + Wire(lane[p.done + 1..])
  }

  /** The lane's progress after its next frame. */
  ghost function Onward(lane: seq<Whole>, p: Progress): Progress
    requires Reached(lane, p) && p.done < |lane|
  {
    match p.got
    case None => Progress(p.done, Some(0))
    case Some(j) => if j + 1 < |lane[p.done].records| then Progress(p.done, Some(j + 1)) else Progress(p.done + 1, None)
  }

  ghost function NextFrame(lane: seq<Whole>, p: Progress): Frame
    requires Reached(lane, p) && p.done < |lane|
  {
    match p.got
    case None => Open(lane[p.done].bundle)
    case Some(j) => Record(lane[p.done].records[j])
  }

  lemma RestStep(lane: seq<Whole>, p: Progress, worker: nat)
    requires LaneOf(lane, worker) && Reached(lane, p) && Rest(lane, p) != []
    ensures p.done < |lane| && Reached(lane, Onward(lane, p))
    ensures Rest(lane, p) == [NextFrame(lane, p)] + Rest(lane, Onward(lane, p))
  {
    hide Wire, RecordFrames, BundleOf, LaneOf;
    StillRunning(lane, p, worker);
    if p.got.None? { RestOpens(lane, p.done); } else { RestRecords(lane, p.done, p.got.value); }
  }

  lemma StillRunning(lane: seq<Whole>, p: Progress, worker: nat)
    requires LaneOf(lane, worker) && Reached(lane, p) && Rest(lane, p) != []
    ensures p.done < |lane| && |lane[p.done].records| > 0
  {
    hide RecordFrames;
    if p.done < |lane| { assert BundleOf(lane[p.done], worker); }
  }

  lemma RestOpens(lane: seq<Whole>, done: nat)
    requires done < |lane|
    ensures Wire(lane[done..])
         == [Open(lane[done].bundle)] + (RecordFrames(lane[done].records[0..]) + Wire(lane[done + 1..]))
  {
    hide RecordFrames;
    assert lane[done..][1..] == lane[done + 1..];
    assert lane[done].records[0..] == lane[done].records;
    WireStep(lane[done..]);
  }

  lemma RestRecords(lane: seq<Whole>, done: nat, j: nat)
    requires done < |lane| && j < |lane[done].records|
    ensures Rest(lane, Progress(done, Some(j)))
         == [Record(lane[done].records[j])] + Rest(lane, Onward(lane, Progress(done, Some(j))))
  {
    hide Wire, RecordFrames;
    var records, after := lane[done].records, Wire(lane[done + 1..]);
    RecordFramesStep(records, j);
    Regroup(Record(records[j]), RecordFrames(records[j + 1..]), after);
    if j + 1 == |records| { assert [] + after == after; }
  }

  lemma WireStep(lane: seq<Whole>)
    requires lane != []
    ensures Wire(lane) == [Open(lane[0].bundle)] + (RecordFrames(lane[0].records) + Wire(lane[1..]))
  {
  }

  lemma RecordFramesStep(records: seq<DataRecord>, j: nat)
    requires j < |records|
    ensures RecordFrames(records[j..]) == [Record(records[j])] + RecordFrames(records[j + 1..])
    ensures j + 1 == |records| ==> RecordFrames(records[j + 1..]) == []
  {
  }

  // ----- the invariant

  ghost predicate Lanes(lanes: seq<seq<Whole>>) {
    forall l :: 0 <= l < |lanes| ==> LaneOf(lanes[l], l)
  }

  ghost predicate At(lanes: seq<seq<Whole>>, at: seq<Progress>) {
    |at| == |lanes| && forall l :: 0 <= l < |lanes| ==> Reached(lanes[l], at[l])
  }

  /** The lane's open bundle, if it has one, holds the records delivered so far. */
  ghost predicate Holds(lane: seq<Whole>, p: Progress, pending: Pending)
    requires Reached(lane, p)
  {
    p.got.Some? ==>
      var whole := lane[p.done];
      && whole.bundle.id in pending
      && pending[whole.bundle.id] == Whole(whole.bundle, whole.records[..p.got.value])
  }

  ghost predicate OpenIn(lane: seq<Whole>, p: Progress, id: BundleId)
    requires Reached(lane, p)
  {
    p.got.Some? && id == lane[p.done].bundle.id
  }

  /** The open bundles are exactly the lanes' current ones. */
  ghost predicate Held(lanes: seq<seq<Whole>>, at: seq<Progress>, pending: Pending)
    requires At(lanes, at)
  {
    && (forall l :: 0 <= l < |lanes| ==> Holds(lanes[l], at[l], pending))
    && (forall id :: id in pending ==> id.worker < |lanes| && OpenIn(lanes[id.worker], at[id.worker], id))
  }

  /** Distinct ids from distinct lanes are no more than the lanes. */
  lemma {:induction false} FewIds(ids: set<BundleId>, workers: set<nat>)
    requires forall a, b :: a in ids && b in ids && a.worker == b.worker ==> a == b
    requires forall a :: a in ids ==> a.worker in workers
    ensures |ids| <= |workers|
  {
    if ids != {} {
      var a :| a in ids;
      FewIds(ids - {a}, workers - {a.worker});
    }
  }

  ghost function Below(n: nat): (r: set<nat>)
    ensures |r| == n && forall l: nat :: l in r <==> l < n
  {
    if n == 0 then {} else Below(n - 1) + {n - 1}
  }

  /** At most one open bundle per lane; and none from a lane between bundles. */
  lemma FewOpen(lanes: seq<seq<Whole>>, at: seq<Progress>, pending: Pending, l: nat)
    requires At(lanes, at) && Held(lanes, at, pending)
    ensures |pending| <= |lanes|
    ensures forall a, b :: a in pending && b in pending && a.worker == b.worker ==> a == b
    ensures l < |lanes| && at[l].got.None? ==> |pending| < |lanes|
  {
    hide Holds;
    FewIds(pending.Keys, Below(|lanes|));
    if l < |lanes| && at[l].got.None? { FewIds(pending.Keys, Below(|lanes|) - {l}); }
  }

  /** Only lane l's entries changed, and they follow its new progress. */
  lemma HeldUpdate(lanes: seq<seq<Whole>>, at: seq<Progress>, pending: Pending, l: nat, p: Progress, after: Pending)
    requires Lanes(lanes) && At(lanes, at) && Held(lanes, at, pending)
    requires l < |lanes| && Reached(lanes[l], p) && Holds(lanes[l], p, after)
    requires forall id :: id in after && id.worker == l ==> OpenIn(lanes[l], p, id)
    requires forall id :: id in after && id.worker != l ==> id in pending
    requires forall id :: id in pending && id.worker != l ==> id in after && after[id] == pending[id]
    ensures At(lanes, at[l := p]) && Held(lanes, at[l := p], after)
  {
    forall k | 0 <= k < |lanes| ensures Holds(lanes[k], at[l := p][k], after) {
      if k != l && at[k].got.Some? {
        assert Holds(lanes[k], at[k], pending) && LaneOf(lanes[k], k);
        assert BundleOf(lanes[k][at[k].done], k);
      }
    }
  }

  /** A header of lane l. */
  lemma OpenStep(lanes: seq<seq<Whole>>, at: seq<Progress>, pending: Pending, l: nat)
    requires Lanes(lanes) && At(lanes, at) && Held(lanes, at, pending)
    requires l < |lanes| && at[l].done < |lanes[l]| && at[l].got.None?
    ensures var frame, p := Open(lanes[l][at[l].done].bundle), Onward(lanes[l], at[l]);
            && At(lanes, at[l := p]) && Held(lanes, at[l := p], Next(pending, |lanes|, frame))
            && Answer(pending, |lanes|, frame) == Waiting
  {
    var whole := lanes[l][at[l].done];
    assert LaneOf(lanes[l], l) && BundleOf(whole, l);
    FewOpen(lanes, at, pending, l);
    assert whole.records[..0] == [];
    hide Held;
    NoneOpen(lanes, at, pending, l);
    HeldUpdate(lanes, at, pending, l, Onward(lanes[l], at[l]), pending[whole.bundle.id := Whole(whole.bundle, [])]);
  }

  ghost predicate NoneFrom(pending: Pending, l: nat) {
    forall id :: id in pending ==> id.worker != l
  }

  lemma NoneOpen(lanes: seq<seq<Whole>>, at: seq<Progress>, pending: Pending, l: nat)
    requires At(lanes, at) && Held(lanes, at, pending) && l < |lanes|
    ensures forall id :: id in pending && id.worker == l ==> OpenIn(lanes[l], at[l], id)
  {
  }

  /** A record of lane l. */
  lemma RecordStep(lanes: seq<seq<Whole>>, at: seq<Progress>, pending: Pending, l: nat)
    requires Lanes(lanes) && At(lanes, at) && Held(lanes, at, pending)
    requires l < |lanes| && at[l].got.Some?
    ensures var whole, j := lanes[l][at[l].done], at[l].got.value;
            var frame, p := Record(whole.records[j]), Onward(lanes[l], at[l]);
            && At(lanes, at[l := p]) && Held(lanes, at[l := p], Next(pending, |lanes|, frame))
            && Answer(pending, |lanes|, frame) == if j + 1 < |whole.records| then Waiting else Done(whole)
  {
    var whole, j := lanes[l][at[l].done], at[l].got.value;
    assert LaneOf(lanes[l], l) && BundleOf(whole, l) && Holds(lanes[l], at[l], pending);
    assert whole.records[..j] + [whole.records[j]] == whole.records[..j + 1];
    NoneOpen(lanes, at, pending, l);
    hide Held;
    if j + 1 < |whole.records| {
      HeldUpdate(lanes, at, pending, l, Onward(lanes[l], at[l]),
                 pending[whole.bundle.id := Whole(whole.bundle, whole.records[..j + 1])]);
    } else {
      assert whole.records[..j + 1] == whole.records;
      HeldUpdate(lanes, at, pending, l, Onward(lanes[l], at[l]), pending - {whole.bundle.id});
    }
  }

  /** One frame of lane l: never corruption, and the invariant again. */
  lemma TakeStep(lanes: seq<seq<Whole>>, at: seq<Progress>, pending: Pending, l: nat)
    requires Lanes(lanes) && At(lanes, at) && Held(lanes, at, pending)
    requires l < |lanes| && at[l].done < |lanes[l]|
    ensures var frame, p := NextFrame(lanes[l], at[l]), Onward(lanes[l], at[l]);
            && At(lanes, at[l := p]) && Held(lanes, at[l := p], Next(pending, |lanes|, frame))
            && Answer(pending, |lanes|, frame) ==
               if p.done == at[l].done then Waiting else Done(lanes[l][at[l].done])
  {
    hide Held, Next, Answer, Lanes;
    if at[l].got.None? { OpenStep(lanes, at, pending, l); } else { RecordStep(lanes, at, pending, l); }
  }

  // ----- whole runs

  /** The open bundles after a run of frames. */
  function After(pending: Pending, limit: nat, frames: seq<Frame>): Pending
    decreases |frames|
  {
    if frames == [] then pending else After(Next(pending, limit, frames[0]), limit, frames[1..])
  }

  /** The answers over a run of frames. */
  function Answers(pending: Pending, limit: nat, frames: seq<Frame>): seq<Taken>
    decreases |frames|
  {
    if frames == [] then []
    else [Answer(pending, limit, frames[0])] + Answers(Next(pending, limit, frames[0]), limit, frames[1..])
  }

  /** The bundles of one worker that were completed, in order. */
  function Emitted(answers: seq<Taken>, worker: nat): seq<Whole> {
    if answers == [] then []
    else (if answers[0].Done? && answers[0].whole.bundle.id.worker == worker then [answers[0].whole] else [])
         + Emitted(answers[1..], worker)
  }

  /** Frames of the lanes only, each lane's in its own order. */
  ghost predicate Interleaves(frames: seq<Frame>, lanes: seq<seq<Whole>>, at: seq<Progress>)
    requires At(lanes, at)
  {
    && FromLanes(frames, |lanes|)
    && forall l :: 0 <= l < |lanes| ==> Of(frames, l) <= Rest(lanes[l], at[l])
  }

  /** The lane the first frame came from, and what is left afterwards. */
  lemma FirstFrame(lanes: seq<seq<Whole>>, at: seq<Progress>, frames: seq<Frame>) returns (l: nat)
    requires Lanes(lanes) && At(lanes, at) && Interleaves(frames, lanes, at) && frames != []
    ensures l < |lanes| && at[l].done < |lanes[l]| && FromLane(frames[0], l)
    ensures frames[0] == NextFrame(lanes[l], at[l])
    ensures At(lanes, at[l := Onward(lanes[l], at[l])])
    ensures Rest(lanes[l], at[l]) == [frames[0]] + Rest(lanes[l], Onward(lanes[l], at[l]))
    ensures Interleaves(frames[1..], lanes, at[l := Onward(lanes[l], at[l])])
  {
    hide Wire, RecordFrames;
    l := Sender(frames[0]).value;
    assert LaneOf(lanes[l], l);
    OfFirst(frames, l);
    assert Of(frames, l) <= Rest(lanes[l], at[l]);
    RestStep(lanes[l], at[l], l);
    assert Of(frames, l)[0] == Rest(lanes[l], at[l])[0];
    forall k | 0 <= k < |lanes|
      ensures Of(frames[1..], k) <= Rest(lanes[k], at[l := Onward(lanes[l], at[l])][k])
    {
      OfFirst(frames, k);
      assert Of(frames, k) <= Rest(lanes[k], at[k]);
      if k == l { PrefixTail(frames[0], Of(frames[1..], k), Rest(lanes[k], Onward(lanes[l], at[l]))); }
    }
  }

  lemma OfFirst(frames: seq<Frame>, k: nat)
    requires frames != []
    ensures Of(frames, k) == if FromLane(frames[0], k) then [frames[0]] + Of(frames[1..], k) else Of(frames[1..], k)
  {
  }

  lemma PrefixTail(f: Frame, a: seq<Frame>, b: seq<Frame>)
    requires [f] + a <= [f] + b
    ensures a <= b
  {
    assert ([f] + a)[1..] == a && ([f] + b)[1..] == b;
  }

  /** The invariant after a run, whatever the interleaving: nothing corrupt,
      and each lane's bundles completed in its own order. */
  lemma {:induction false} RunKeeps(lanes: seq<seq<Whole>>, at: seq<Progress>, pending: Pending, frames: seq<Frame>)
    returns (end: seq<Progress>)
    requires Lanes(lanes) && At(lanes, at) && Held(lanes, at, pending) && Interleaves(frames, lanes, at)
    ensures At(lanes, end) && Held(lanes, end, After(pending, |lanes|, frames))
    ensures Corrupt !in Answers(pending, |lanes|, frames)
    ensures forall l :: 0 <= l < |lanes| ==>
              LaneRan(lanes[l], l, at[l], end[l], frames, Answers(pending, |lanes|, frames))
    decreases |frames|
  {
    if frames == [] {
      end := at;
    } else {
      hide Held, Lanes, Interleaves, Next, Answer, Of, Rest, FromLane, Emitted, NextFrame, Onward;
      var l := FirstFrame(lanes, at, frames);
      var p := Onward(lanes[l], at[l]);
      TakeStep(lanes, at, pending, l);
      ReachedOnward(lanes, at, l);
      end := RunKeeps(lanes, at[l := p], Next(pending, |lanes|, frames[0]), frames[1..]);
      var answers := Answers(Next(pending, |lanes|, frames[0]), |lanes|, frames[1..]);
      forall k | 0 <= k < |lanes|
        ensures LaneRan(lanes[k], k, at[k], end[k], frames, [Answer(pending, |lanes|, frames[0])] + answers)
      {
        assert LaneRan(lanes[k], k, at[l := p][k], end[k], frames[1..], answers);
        LaneStep(lanes, at, l, k, end[k], frames, Answer(pending, |lanes|, frames[0]), answers);
      }
    }
  }

  /** One lane over a run: its completed bundles, and what it has yet to deliver. */
  ghost predicate LaneRan(lane: seq<Whole>, l: nat, from: Progress, to: Progress, frames: seq<Frame>,
                          answers: seq<Taken>)
  {
    && Reached(lane, from) && Reached(lane, to) && from.done <= to.done
    && Emitted(answers, l) == lane[from.done..to.done]
    && Of(frames, l) + Rest(lane, to) == Rest(lane, from)
  }

  lemma ReachedOnward(lanes: seq<seq<Whole>>, at: seq<Progress>, l: nat)
    requires At(lanes, at) && l < |lanes| && at[l].done < |lanes[l]|
    ensures at[l].done <= Onward(lanes[l], at[l]).done <= at[l].done + 1
  {
  }

  lemma LaneStep(lanes: seq<seq<Whole>>, at: seq<Progress>, l: nat, k: nat, to: Progress, frames: seq<Frame>,
                 first: Taken, answers: seq<Taken>)
    requires Lanes(lanes) && At(lanes, at) && l < |lanes| && k < |lanes| && at[l].done < |lanes[l]| && frames != []
    requires FromLane(frames[0], l)
    requires Rest(lanes[l], at[l]) == [frames[0]] + Rest(lanes[l], Onward(lanes[l], at[l]))
    requires first ==
             if Onward(lanes[l], at[l]).done == at[l].done then Waiting else Done(lanes[l][at[l].done])
    requires LaneRan(lanes[k], k, if k == l then Onward(lanes[l], at[l]) else at[k], to, frames[1..], answers)
    ensures LaneRan(lanes[k], k, at[k], to, frames, [first] + answers)
  {
    hide Rest, Wire, Of, Emitted, LaneOf, BundleOf;
    OfFirst(frames, k);
    EmittedFirst(first, answers, k);
    OwnWorker(lanes, l, at[l].done);
    ReachedOnward(lanes, at, l);
    if k == l {
      Regroup(frames[0], Of(frames[1..], k), Rest(lanes[k], to));
      if first.Done? { SliceFront(lanes[l], at[l].done, to.done); }
    }
  }

  lemma OwnWorker(lanes: seq<seq<Whole>>, l: nat, i: nat)
    requires Lanes(lanes) && l < |lanes| && i < |lanes[l]|
    ensures lanes[l][i].bundle.id.worker == l
  {
    assert LaneOf(lanes[l], l) && BundleOf(lanes[l][i], l);
  }

  lemma Regroup(f: Frame, a: seq<Frame>, b: seq<Frame>)
    ensures ([f] + a) + b == [f] + (a + b)
  {
  }

  lemma SliceFront(lane: seq<Whole>, i: nat, j: nat)
    requires i < j <= |lane|
    ensures lane[i..j] == [lane[i]] + lane[i + 1..j]
  {
  }

  lemma EmittedFirst(first: Taken, answers: seq<Taken>, k: nat)
    ensures Emitted([first] + answers, k) ==
            (if first.Done? && first.whole.bundle.id.worker == k then [first.whole] else []) + Emitted(answers, k)
  {
    assert ([first] + answers)[1..] == answers;
  }

  /** For every interleaving of the lanes that keeps each lane's order, with
      one slot per lane: no corruption, at most one open bundle per lane, and
      each lane's bundles in order. A lane delivered to its end has had every
      bundle completed exactly once. */
  lemma AnyInterleaving(lanes: seq<seq<Whole>>, frames: seq<Frame>)
    requires Lanes(lanes)
    requires FromLanes(frames, |lanes|)
    requires forall l :: 0 <= l < |lanes| ==> Of(frames, l) <= Wire(lanes[l])
    ensures var answers, open := Answers(map[], |lanes|, frames), After(map[], |lanes|, frames);
            && Corrupt !in answers
            && |open| <= |lanes| && (forall id :: id in open ==> id.worker < |lanes|)
            && (forall a, b :: a in open && b in open && a.worker == b.worker ==> a == b)
            && (forall l :: 0 <= l < |lanes| ==> Emitted(answers, l) <= lanes[l])
            && (forall l :: 0 <= l < |lanes| && Of(frames, l) == Wire(lanes[l]) ==>
                  Emitted(answers, l) == lanes[l] && NoneFrom(open, l))
  {
    hide Answers, After, Emitted, Of, Wire, Sender, Held, Lanes, FromLanes;
    var at := Starts(lanes);
    AtStart(lanes, frames);
    var end := RunKeeps(lanes, at, map[], frames);
    var answers, open := Answers(map[], |lanes|, frames), After(map[], |lanes|, frames);
    FewOpen(lanes, end, open, 0);
    WorkersIn(lanes, end, open);
    forall l | 0 <= l < |lanes|
      ensures Emitted(answers, l) <= lanes[l]
      ensures Of(frames, l) == Wire(lanes[l]) ==>
                Emitted(answers, l) == lanes[l] && NoneFrom(open, l)
    {
      LaneDone(lanes, at, end, frames, answers, open, l);
    }
  }

  /** Every lane before its first frame. */
  ghost function Starts(lanes: seq<seq<Whole>>): seq<Progress> {
    seq(|lanes|, l => Progress(0, None))
  }

  lemma AtStart(lanes: seq<seq<Whole>>, frames: seq<Frame>)
    requires FromLanes(frames, |lanes|) && forall l :: 0 <= l < |lanes| ==> Of(frames, l) <= Wire(lanes[l])
    ensures At(lanes, Starts(lanes)) && Held(lanes, Starts(lanes), map[]) && Interleaves(frames, lanes, Starts(lanes))
  {
    hide Of, Wire;
    forall l | 0 <= l < |lanes| ensures Rest(lanes[l], Starts(lanes)[l]) == Wire(lanes[l]) {
      assert lanes[l][0..] == lanes[l];
    }
  }

  lemma WorkersIn(lanes: seq<seq<Whole>>, at: seq<Progress>, pending: Pending)
    requires At(lanes, at) && Held(lanes, at, pending)
    ensures forall id :: id in pending ==> id.worker < |lanes|
  {
  }

  lemma LaneDone(lanes: seq<seq<Whole>>, at: seq<Progress>, end: seq<Progress>, frames: seq<Frame>,
                 answers: seq<Taken>, open: Pending, l: nat)
    requires Lanes(lanes) && at == Starts(lanes) && At(lanes, end) && Held(lanes, end, open) && l < |lanes|
    requires LaneRan(lanes[l], l, at[l], end[l], frames, answers)
    ensures Emitted(answers, l) <= lanes[l]
    ensures Of(frames, l) == Wire(lanes[l]) ==>
              Emitted(answers, l) == lanes[l] && NoneFrom(open, l)
  {
    hide Emitted, Of, Wire;
    assert LaneOf(lanes[l], l);
    assert lanes[l][0..] == lanes[l];
    if Of(frames, l) == Wire(lanes[l]) {
      SpentLane(lanes[l], l, end[l], Of(frames, l));
      NoneOpen(lanes, end, open, l);
    }
  }

  lemma SpentLane(lane: seq<Whole>, l: nat, p: Progress, frames: seq<Frame>)
    requires LaneOf(lane, l) && Reached(lane, p) && frames + Rest(lane, p) == frames
    ensures p == Progress(|lane|, None)
  {
    assert |Rest(lane, p)| == 0;
  }

  /** The frames of one connection: every lane's, whole and in its own order. */
  ghost predicate Delivers(frames: seq<Frame>, lanes: seq<seq<Whole>>) {
    FromLanes(frames, |lanes|) && forall l :: 0 <= l < |lanes| ==> Of(frames, l) == Wire(lanes[l])
  }

  /** The lanes over one connection, whatever their interleaving: the completed
      bundles are the lanes, and nothing is left open. */
  lemma DeliveredLanes(lanes: seq<seq<Whole>>, frames: seq<Frame>)
    requires Lanes(lanes) && Delivers(frames, lanes)
    ensures Completed(Answers(map[], |lanes|, frames), |lanes|) == lanes && After(map[], |lanes|, frames) == map[]
    ensures Corrupt !in Answers(map[], |lanes|, frames)
  {
    hide Answers, After, Emitted, Of, Wire, FromLanes;
    AnyInterleaving(lanes, frames);
    var open := After(map[], |lanes|, frames);
    assert forall id :: id in open ==> !NoneFrom(open, id.worker);
  }

  /** Feeds a run of frames to one reassembly. */
  method Reassemble(limit: nat, frames: seq<Frame>) returns (answers: seq<Taken>, open: Pending)
    ensures answers == Answers(map[], limit, frames) && open == After(map[], limit, frames)
  {
    hide Answer, Next;
    var reassembly := new BundleReassembly(limit);
    answers := [];
    assert frames[..0] == [];
    for i := 0 to |frames|
      invariant fresh(reassembly) && reassembly.limit == limit
      invariant answers == Answers(map[], limit, frames[..i])
      invariant reassembly.pending == After(map[], limit, frames[..i])
    {
      RunMore(map[], limit, frames[..i], frames[i]);
      assert frames[..i + 1] == frames[..i] + [frames[i]];
      var answer := reassembly.Take(frames[i]);
      answers := answers + [answer];
    }
    assert frames[..|frames|] == frames;
    open := reassembly.pending;
  }

  lemma {:induction false} RunMore(pending: Pending, limit: nat, frames: seq<Frame>, frame: Frame)
    ensures After(pending, limit, frames + [frame]) == Next(After(pending, limit, frames), limit, frame)
    ensures Answers(pending, limit, frames + [frame])
         == Answers(pending, limit, frames) + [Answer(After(pending, limit, frames), limit, frame)]
    decreases |frames|
  {
    hide Answer, Next;
    if frames == [] {
      assert ([] + [frame])[1..] == [];
    } else {
      RunMore(Next(pending, limit, frames[0]), limit, frames[1..], frame);
      assert (frames + [frame])[1..] == frames[1..] + [frame];
    }
  }

  /** The completed bundles, worker by worker. */
  function Completed(answers: seq<Taken>, workers: nat): seq<seq<Whole>> {
    seq(workers, l requires 0 <= l < workers => Emitted(answers, l))
  }

  /** The records of the completed bundles, in the order the bundles completed. */
  function Received(answers: seq<Taken>): seq<DataRecord> {
    if answers == [] then []
    else (if answers[0].Done? then answers[0].whole.records else []) + Received(answers[1..])
  }

  ghost predicate Keyed(pending: Pending) {
    forall id :: id in pending ==> pending[id].bundle.id == id
  }

  /** Only the lanes' own bundles complete. */
  lemma {:induction false} OwnBundles(pending: Pending, limit: nat, frames: seq<Frame>, workers: nat)
    requires Keyed(pending) && FromLanes(frames, workers)
    ensures FromWorkers(Answers(pending, limit, frames), workers)
    decreases |frames|
  {
    if frames != [] {
      OwnBundle(pending, limit, frames[0], workers);
      OwnBundles(Next(pending, limit, frames[0]), limit, frames[1..], workers);
    }
  }

  lemma OwnBundle(pending: Pending, limit: nat, frame: Frame, workers: nat)
    requires Keyed(pending) && Sender(frame).Some? && Sender(frame).value < workers
    ensures Keyed(Next(pending, limit, frame))
    ensures Answer(pending, limit, frame).Done? ==>
              Answer(pending, limit, frame).whole.bundle.id.worker < workers
  {
  }

  ghost predicate FromWorkers(answers: seq<Taken>, workers: nat) {
    forall i :: 0 <= i < |answers| && answers[i].Done? ==> answers[i].whole.bundle.id.worker < workers
  }

  lemma {:induction false} LanePrepend(whole: Whole, lane: seq<Whole>)
    ensures LaneRecords([whole] + lane) == whole.records + LaneRecords(lane)
    decreases |lane|
  {
    hide LaneRecords;
    if lane == [] {
      assert [whole] + lane == [] + [whole];
      LaneAppend([], whole);
      NoLaneRecords();
    } else {
      var front, last := lane[..|lane| - 1], lane[|lane| - 1];
      LanePrepend(whole, front);
      assert [whole] + lane == ([whole] + front) + [last];
      assert lane == front + [last];
      LaneAppend([whole] + front, last);
      LaneAppend(front, last);
      ThreeRuns(whole.records, LaneRecords(front), last.records);
    }
  }

  lemma NoLaneRecords()
    ensures LaneRecords([]) == []
  {
  }

  lemma ThreeRuns(a: seq<DataRecord>, b: seq<DataRecord>, c: seq<DataRecord>)
    ensures (a + b) + c == a + (b + c)
  {
  }

  /** One more answer adds its bundle's records, under whichever worker. */
  lemma {:induction false} BagStep(first: Taken, answers: seq<Taken>, workers: nat)
    ensures multiset(AllRecords(Completed([first] + answers, workers)))
         == multiset(AllRecords(Completed(answers, workers)))
            + (if first.Done? && first.whole.bundle.id.worker < workers then multiset(first.whole.records) else multiset{})
    decreases workers
  {
    hide Emitted, LaneRecords;
    if workers > 0 {
      var w := workers - 1;
      BagStep(first, answers, w);
      AllSplit([first] + answers, w);
      AllSplit(answers, w);
      EmittedFirst(first, answers, w);
      if first.Done? && first.whole.bundle.id.worker == w {
        LanePrepend(first.whole, Emitted(answers, w));
      } else {
        assert [] + Emitted(answers, w) == Emitted(answers, w);
      }
    }
  }

  lemma AllSplit(answers: seq<Taken>, w: nat)
    ensures AllRecords(Completed(answers, w + 1)) == AllRecords(Completed(answers, w)) + LaneRecords(Emitted(answers, w))
  {
    hide Emitted, LaneRecords;
    assert Completed(answers, w + 1) == Completed(answers, w) + [Emitted(answers, w)];
    AllAppend(Completed(answers, w), Emitted(answers, w));
  }

  /** What came in, in completion order, is what the workers' lanes hold. */
  lemma {:induction false} SameRecords(answers: seq<Taken>, workers: nat)
    requires FromWorkers(answers, workers)
    ensures multiset(Received(answers)) == multiset(AllRecords(Completed(answers, workers)))
    decreases |answers|
  {
    hide Emitted, LaneRecords, AllRecords, Completed;
    if answers == [] {
      NothingCompleted(workers);
    } else {
      SameRecords(answers[1..], workers);
      BagStep(answers[0], answers[1..], workers);
      assert answers == [answers[0]] + answers[1..];
    }
  }

  lemma {:induction false} NothingCompleted(workers: nat)
    ensures AllRecords(Completed([], workers)) == []
  {
    if workers > 0 {
      NothingCompleted(workers - 1);
      AllSplit([], workers - 1);
    }
  }

  /** The whole transfer: the workers' lanes are produced, carried over one
      connection in any interleaving, and reassembled with one slot per worker.
      The records that come out, in whatever order their bundles completed,
      tile the object: sorted by offset they are its bytes. */
  method Transfer(seed: Word, objectBytes: nat, workers: nat, recordBytes: nat, frames: seq<Frame>)
    returns (lanes: Option<seq<seq<Whole>>>, received: seq<DataRecord>)
    requires |seed| == 64 && objectBytes <= U64_MAX
    ensures lanes.Some? <==> 0 < workers <= GroupsOf(objectBytes) && recordBytes in {65_536, 131_072, 196_608}
    ensures lanes.Some? ==> |lanes.value| == workers && Produced(lanes.value, seed, objectBytes, recordBytes)
    ensures lanes.Some? && Delivers(frames, lanes.value) ==> Restores(received, seed, objectBytes)
  {
    hide ObjectBytes, AllRecords, Answers, Delivers, Produced, Received, Completed, GroupsOf, RangedRecordBytes,
      Restores;
    received := [];
    lanes := ParallelObject(seed, objectBytes, workers, recordBytes);
    if lanes.None? { return; }
    var answers, open := Reassemble(workers, frames);
    received := Received(answers);
    if Delivers(frames, lanes.value) { Delivered(lanes.value, seed, objectBytes, recordBytes, frames); }
  }

  /** Records whose offset order is unique, tiles the object, and is its bytes. */
  ghost predicate Restores(records: seq<DataRecord>, seed: Word, objectBytes: nat)
    requires |seed| == 64
  {
    && (exists order :: Sorted(order, records))
    && forall order :: Sorted(order, records) ==>
         Tiles(order, seed, 0, objectBytes) && Payloads(order) == ObjectBytes(seed, 0, objectBytes)
  }

  lemma Delivered(lanes: seq<seq<Whole>>, seed: Word, objectBytes: nat, recordBytes: nat, frames: seq<Frame>)
    requires Produced(lanes, seed, objectBytes, recordBytes) && Delivers(frames, lanes)
    ensures Restores(Received(Answers(map[], |lanes|, frames)), seed, objectBytes)
  {
    hide Answers, After, Received, Completed, AllRecords, Tiles, LaneFramed, Of, Wire, Lanes, Restores;
    ProducedLanes(lanes, seed, objectBytes, recordBytes);
    var answers := Answers(map[], |lanes|, frames);
    DeliveredLanes(lanes, frames);
    OwnBundles(map[], |lanes|, frames, |lanes|);
    SameRecords(answers, |lanes|);
    TilesRestore(AllRecords(lanes), Received(answers), seed, objectBytes);
  }

  lemma TilesRestore(tiles: seq<DataRecord>, records: seq<DataRecord>, seed: Word, objectBytes: nat)
    requires |seed| == 64 && Tiles(tiles, seed, 0, objectBytes) && multiset(records) == multiset(tiles)
    ensures Restores(records, seed, objectBytes)
  {
    TilesAscend(tiles, seed, 0, objectBytes);
    assert Sorted(tiles, records);
    hide Tiles, Payloads, ObjectBytes, Ascends;
    forall order | Sorted(order, records)
      ensures Tiles(order, seed, 0, objectBytes) && Payloads(order) == ObjectBytes(seed, 0, objectBytes)
    {
      assert Sorted(order, tiles);
      hide Sorted;
      InOffsetOrder(tiles, order, seed, 0, objectBytes);
    }
  }

  lemma ProducedLanes(lanes: seq<seq<Whole>>, seed: Word, objectBytes: nat, recordBytes: nat)
    requires Produced(lanes, seed, objectBytes, recordBytes)
    ensures Lanes(lanes)
  {
    hide Tiles, Slab, LaneOf, Numbered, LanePlaced;
    forall l | 0 <= l < |lanes| ensures LaneOf(lanes[l], l) {
      assert LaneFramed(lanes[l], seed, l, Slab(objectBytes, |lanes|, l), recordBytes);
    }
  }
}
