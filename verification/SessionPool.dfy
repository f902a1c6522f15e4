/** The bounded pool of sessions a serve drives, as steps of one main thread
    and one thread per session, in any interleaving. */
module SessionPool {
  import opened Wrappers

  const CONCURRENT_SESSIONS := 8

  // ----- errors

  datatype SessionState = Connecting | ControlReserved | Later(state: nat)
  datatype Kind = Interrupted(state: SessionState) | Otherwise(kind: nat)
  datatype Error = Session(kind: Kind) | Unrelated(code: nat)

  predicate PeerSpoke(state: SessionState) {
    !(state.Connecting? || state.ControlReserved?)
  }

  /** A failure counts unless its session was cut off before the peer's first message. */
  predicate SpokenFor(error: Error) {
    match error
    case Session(Interrupted(state)) => PeerSpoke(state)
    case _ => true
  }

  /** How a session or an accept ended. */
  type Ending = Option<Error>

  // ----- the state

  /** A session's thread: at work, done and announced, exited, or joined.
      The announcement is sent before the thread can be seen to have finished. */
  datatype Thread = Working | Announced(ending: Ending) | Finished(ending: Ending) | Joined

  datatype ReapWake = Take(id: nat) | Wait | Breach

  /** Where a reap stands. */
  datatype Reap = Receiving | Counting(at: nat, finished: nat) | Looking(finished: nat) | Joining(id: nat)

  /** Where the main thread stands. `retry` says why it reaps: to retry an
      accept that failed, or to make room for one that did not. */
  datatype Main =
    | Turn
    | Accepting
    | Reaping(retry: bool, accepted: Ending, reap: Reap)
    | Finishing(accepted: Ending)
    | Ended(result: Ending)
    | Broken

  /** A session joined, and how it ended. */
  datatype Settlement = Settlement(id: nat, ending: Ending)

  /** `endings` is the channel, in sending order. `answer` is the last accept's
      result, and `log` every join so far. */
  datatype State = State(
    sessions: Option<nat>,
    turns: nat,
    main: Main,
    running: seq<nat>,
    endings: seq<nat>,
    threads: seq<Thread>,
    failed: Ending,
    answer: Ending,
    log: seq<Settlement>)

  function Begin(sessions: Option<nat>): State {
    State(sessions, 0, Turn, [], [], [], None, None, [])
  }

  // ----- the steps

  datatype Step =
    | NextTurn
    | Accept(result: Ending)
    | Receive
    | Timeout
    | Count
    | Look
    | Join
    | Ends(id: nat, ending: Ending)
    | Exits(id: nat)

  /** What a wake does with the finished count and the announcement it found. */
  function WakeOn(finished: nat, announced: Option<nat>): ReapWake {
    match announced
    case Some(id) => Take(id)
    case None => if finished == 0 then Wait else Breach
  }

  /** The failure on record after a session: bounded serves keep the first that counts. */
  function Settle(sessions: Option<nat>, ending: Ending, failed: Ending): Ending {
    if ending.None? || !SpokenFor(ending.value) then failed
    else if sessions.Some? && failed.None? then ending
    else failed
  }

  function Spawn(s: State): State {
    s.(main := Turn, running := s.running + [|s.threads|], threads := s.threads + [Working])
  }

  /** What follows an accept, once nothing more is to be retried. */
  function MakeRoom(s: State, accepted: Ending): State {
    if |s.running| >= CONCURRENT_SESSIONS then s.(main := Reaping(false, accepted, Receiving))
    else if accepted.None? then Spawn(s)
    else s.(main := Finishing(accepted))
  }

  function AfterAccept(s: State, accepted: Ending): State {
    if accepted.Some? && s.running != [] then s.(main := Reaping(true, accepted, Receiving))
    else MakeRoom(s, accepted)
  }

  function IndexOf(ids: seq<nat>, id: nat): (r: nat)
    requires id in ids
    ensures r < |ids| && ids[r] == id && id !in ids[..r]
  {
    if ids[0] == id then 0 else
    assert ids == [ids[0]] + ids[1..];
    1 + IndexOf(ids[1..], id)
  }

  function Without(ids: seq<nat>, id: nat): seq<nat>
    requires id in ids
  {
    var at := IndexOf(ids, id);
    ids[..at] + ids[at + 1..]
  }

  /** The thread joined, its slot released, and its end settled. */
  function JoinSession(s: State, id: nat): State
    requires id in s.running && id < |s.threads| && s.threads[id].Finished?
  {
    var ending := s.threads[id].ending;
    s.(running := Without(s.running, id), threads := s.threads[id := Joined],
       failed := Settle(s.sessions, ending, s.failed), log := s.log + [Settlement(id, ending)])
  }

  predicate IsFinished(s: State, id: nat) {
    id < |s.threads| && s.threads[id].Finished?
  }

  function Woken(s: State, retry: bool, accepted: Ending, finished: nat): State {
    match WakeOn(finished, if s.endings == [] then None else Some(s.endings[0]))
    case Take(id) => s.(endings := s.endings[1..], main := Reaping(retry, accepted, Joining(id)))
    case Wait => s.(main := Reaping(retry, accepted, Receiving))
    case Breach => s.(main := Broken)
  }

  /** One step of a reap, where it is enabled. */
  function ReapStep(s: State, step: Step): Option<State>
    requires s.main.Reaping?
  {
    var Reaping(retry, accepted, reap) := s.main;
    match (reap, step)
    case (Receiving, Receive) =>
      if s.endings == [] then None
      else Some(s.(endings := s.endings[1..], main := Reaping(retry, accepted, Joining(s.endings[0]))))
    case (Receiving, Timeout) => Some(s.(main := Reaping(retry, accepted, Counting(0, 0))))
    case (Counting(at, finished), Count) =>
      if at < |s.running| then
        var more := if IsFinished(s, s.running[at]) then 1 else 0;
        Some(s.(main := Reaping(retry, accepted, Counting(at + 1, finished + more))))
      else Some(s.(main := Reaping(retry, accepted, Looking(finished))))
    case (Looking(finished), Look) => Some(Woken(s, retry, accepted, finished))
    case (Joining(id), Join) =>
      if id !in s.running then Some(s.(main := Broken))
      else if !IsFinished(s, id) then None
      else if retry then Some(JoinSession(s, id).(main := Accepting))
      else Some(MakeRoom(JoinSession(s, id), accepted))
    case _ => None
  }

  /** One step of the main thread or of a session's thread, where it is enabled. */
  function Next(s: State, step: Step): Option<State> {
    match step
    case Ends(id, ending) =>
      if id < |s.threads| && s.threads[id].Working?
      then Some(s.(threads := s.threads[id := Announced(ending)], endings := s.endings + [id])) else None
    case Exits(id) =>
      if id < |s.threads| && s.threads[id].Announced?
      then Some(s.(threads := s.threads[id := Finished(s.threads[id].ending)])) else None
    case NextTurn =>
      if !s.main.Turn? then None
      else if s.sessions.Some? && s.turns >= s.sessions.value then Some(s.(main := Finishing(None)))
      else Some(s.(main := Accepting, turns := s.turns + 1))
    case Accept(result) => if s.main.Accepting? then Some(AfterAccept(s.(answer := result), result)) else None
    case _ =>
      if s.main.Reaping? then ReapStep(s, step)
      else if s.main.Finishing? && step.Join? then FinishStep(s)
      else None
  }

  /** Joins the next session in order, or answers with the verdict. */
  function FinishStep(s: State): Option<State>
    requires s.main.Finishing?
  {
    if s.running == [] then Some(s.(main := Ended(if s.failed.Some? then s.failed else s.main.accepted)))
    else if IsFinished(s, s.running[0]) then Some(JoinSession(s, s.running[0]))
    else None
  }

  /** The state after a run, if every step of it was enabled. */
  function After(s: State, steps: seq<Step>): Option<State>
    decreases |steps|
  {
    if steps == [] then Some(s)
    else match Next(s, steps[0]) case None => None case Some(t) => After(t, steps[1..])
  }

  // ----- the invariant

  ghost predicate Distinct(ids: seq<nat>) {
    forall i, j :: 0 <= i < j < |ids| ==> ids[i] != ids[j]
  }

  ghost predicate Spoke(t: Thread) {
    t.Announced? || t.Finished?
  }

  ghost predicate Ascending(ids: seq<nat>) {
    forall i, j :: 0 <= i < j < |ids| ==> ids[i] < ids[j]
  }

  /** The slots: the held sessions are exactly the threads not yet joined, oldest first. */
  ghost predicate Slots(running: seq<nat>, threads: seq<Thread>) {
    && Ascending(running)
    && (forall id :: id in running ==> id < |threads| && !threads[id].Joined?)
    && (forall id :: 0 <= id < |threads| && !threads[id].Joined? ==> id in running)
  }

  /** The announcements: until the serve finishes, the channel holds exactly
      the sessions that have announced, but for the one in hand. */
  ghost predicate Announcements(endings: seq<nat>, threads: seq<Thread>, inHand: Option<nat>) {
    && Distinct(endings)
    && (forall id :: id in endings ==> id < |threads| && Spoke(threads[id]) && inHand != Some(id))
    && (forall id :: 0 <= id < |threads| && Spoke(threads[id]) && inHand != Some(id) ==> id in endings)
    && (inHand.Some? ==> inHand.value < |threads| && Spoke(threads[inHand.value]))
  }

  /** The session whose announcement the reap has taken. */
  function InHand(main: Main): Option<nat> {
    if main.Reaping? && main.reap.Joining? then Some(main.reap.id) else None
  }

  ghost predicate Settled(log: seq<Settlement>, id: nat) {
    exists i :: 0 <= i < |log| && log[i].id == id
  }

  /** The joins: each session at most once, and exactly the joined threads. */
  ghost predicate Joins(log: seq<Settlement>, threads: seq<Thread>) {
    && (forall i, j :: 0 <= i < j < |log| ==> log[i].id != log[j].id)
    && (forall i :: 0 <= i < |log| ==> log[i].id < |threads| && threads[log[i].id].Joined?)
    && (forall id :: 0 <= id < |threads| && threads[id].Joined? ==> Settled(log, id))
  }

  predicate Surfaces(ending: Ending) {
    ending.Some? && SpokenFor(ending.value)
  }

  /** The first failure in the log its peer had spoken by. */
  ghost function FirstFailure(log: seq<Settlement>): Ending {
    if log == [] then None
    else var earlier := FirstFailure(log[..|log| - 1]);
         var last := log[|log| - 1].ending;
         if earlier.Some? then earlier else if Surfaces(last) then last else None
  }

  ghost predicate Verdict(s: State) {
    s.failed == if s.sessions.Some? then FirstFailure(s.log) else None
  }

  /** A serve stops after the bound's turns, or at an accept that failed. */
  ghost predicate AllTurns(s: State) {
    if s.answer.None? then s.sessions == Some(s.turns) && |s.threads| == s.turns else |s.threads| + 1 == s.turns
  }

  /** Where the main thread may stand, and how many turns it has taken. */
  ghost predicate Control(s: State) {
    && |s.running| <= CONCURRENT_SESSIONS
    && (s.sessions.Some? ==> s.turns <= s.sessions.value)
    && match s.main
       case Turn => |s.threads| == s.turns && s.answer.None?
       case Accepting => |s.threads| + 1 == s.turns
       case Reaping(retry, accepted, reap) =>
         && |s.threads| + 1 == s.turns && s.running != [] && (retry <==> accepted.Some?) && accepted == s.answer
         && (!retry ==> |s.running| == CONCURRENT_SESSIONS)
         && (reap.Counting? ==> reap.at <= |s.running| && (reap.finished > 0 ==> s.endings != []))
         && (reap.Looking? ==> reap.finished > 0 ==> s.endings != [])
       case Finishing(accepted) =>
         && accepted == s.answer && AllTurns(s)
       case Ended(result) =>
         && s.running == [] && AllTurns(s)
         && result == if s.failed.Some? then s.failed else s.answer
       case Broken => false
  }

  ghost predicate Serving(main: Main) {
    main.Turn? || main.Accepting? || main.Reaping?
  }

  ghost predicate Inv(s: State) {
    && Slots(s.running, s.threads) && Joins(s.log, s.threads) && Verdict(s) && Control(s)
    && (Serving(s.main) ==> Announcements(s.endings, s.threads, InHand(s.main)))
  }

  // ----- how the parts change

  /** A thread moves on without being joined. */
  lemma ThreadMoves(running: seq<nat>, log: seq<Settlement>, threads: seq<Thread>, id: nat, t: Thread)
    requires Slots(running, threads) && Joins(log, threads)
    requires id < |threads| && !threads[id].Joined? && !t.Joined?
    ensures Slots(running, threads[id := t]) && Joins(log, threads[id := t])
  {
  }

  lemma Announces(endings: seq<nat>, threads: seq<Thread>, inHand: Option<nat>, id: nat, t: Thread)
    requires Announcements(endings, threads, inHand) && id < |threads| && threads[id].Working? && Spoke(t)
    ensures Announcements(endings + [id], threads[id := t], inHand)
  {
    assert (endings + [id])[|endings|] == id;
    assert forall k :: k in endings ==> k in endings + [id];
  }

  lemma StillAnnounced(endings: seq<nat>, threads: seq<Thread>, inHand: Option<nat>, id: nat, t: Thread)
    requires Announcements(endings, threads, inHand) && id < |threads| && Spoke(threads[id]) && Spoke(t)
    ensures Announcements(endings, threads[id := t], inHand)
  {
  }

  lemma Spawned(running: seq<nat>, log: seq<Settlement>, threads: seq<Thread>)
    requires Slots(running, threads) && Joins(log, threads)
    ensures Slots(running + [|threads|], threads + [Working]) && Joins(log, threads + [Working])
  {
    hide Slots, Joins;
    SpawnedSlot(running, threads);
    SpawnedLog(log, threads);
  }

  lemma SpawnedSlot(running: seq<nat>, threads: seq<Thread>)
    requires Slots(running, threads)
    ensures Slots(running + [|threads|], threads + [Working])
  {
    var more := running + [|threads|];
    assert more[|running|] == |threads|;
    assert forall k :: k in running ==> k in more;
    assert forall i :: 0 <= i < |running| ==> more[i] == running[i] && running[i] in running;
  }

  lemma SpawnedLog(log: seq<Settlement>, threads: seq<Thread>)
    requires Joins(log, threads)
    ensures Joins(log, threads + [Working])
  {
  }

  lemma SpawnedQuiet(endings: seq<nat>, threads: seq<Thread>)
    requires Announcements(endings, threads, None)
    ensures Announcements(endings, threads + [Working], None)
  {
  }

  /** The oldest announcement taken. */
  lemma Taken(endings: seq<nat>, threads: seq<Thread>)
    requires Announcements(endings, threads, None) && endings != []
    ensures Announcements(endings[1..], threads, Some(endings[0]))
  {
    assert endings == [endings[0]] + endings[1..];
    var rest := endings[1..];
    assert forall i :: 0 <= i < |rest| ==> rest[i] == endings[i + 1];
    forall id | id in rest ensures id in endings && id != endings[0] {
      var i :| 0 <= i < |rest| && rest[i] == id;
    }
  }

  lemma {:induction false} WithoutOnly(ids: seq<nat>, id: nat)
    requires Ascending(ids) && id in ids
    ensures Ascending(Without(ids, id)) && |Without(ids, id)| == |ids| - 1
    ensures forall k :: k in Without(ids, id) <==> k in ids && k != id
  {
    var at := IndexOf(ids, id);
    var rest := Without(ids, id);
    assert forall i :: 0 <= i < |rest| ==> rest[i] == ids[if i < at then i else i + 1];
    forall k | k in ids && k != id ensures k in rest {
      var i :| 0 <= i < |ids| && ids[i] == k;
      assert rest[if i < at then i else i - 1] == k;
    }
  }

  /** A session joined: its slot gone, and one more line in the log. */
  lemma JoinedOnce(running: seq<nat>, log: seq<Settlement>, threads: seq<Thread>, id: nat, ending: Ending)
    requires Slots(running, threads) && Joins(log, threads) && id in running
    ensures id < |threads|
    ensures Slots(Without(running, id), threads[id := Joined])
    ensures Joins(log + [Settlement(id, ending)], threads[id := Joined])
  {
    hide Without;
    WithoutOnly(running, id);
    LogGrows(log, threads, id, ending);
  }

  lemma LogGrows(log: seq<Settlement>, threads: seq<Thread>, id: nat, ending: Ending)
    requires Joins(log, threads) && id < |threads| && !threads[id].Joined?
    ensures Joins(log + [Settlement(id, ending)], threads[id := Joined])
  {
    var more, after := log + [Settlement(id, ending)], threads[id := Joined];
    assert more[|log|].id == id;
    forall k | 0 <= k < |after| && after[k].Joined? ensures Settled(more, k) {
      if k != id {
        assert Settled(log, k);
        var i :| 0 <= i < |log| && log[i].id == k;
        assert more[i].id == k;
      }
    }
  }

  lemma Released(endings: seq<nat>, threads: seq<Thread>, id: nat)
    requires Announcements(endings, threads, Some(id)) && id < |threads|
    ensures Announcements(endings, threads[id := Joined], None)
  {
  }

  lemma VerdictGrows(s: State, id: nat, ending: Ending)
    requires Verdict(s)
    ensures Settle(s.sessions, ending, s.failed)
         == if s.sessions.Some? then FirstFailure(s.log + [Settlement(id, ending)]) else None
  {
    assert (s.log + [Settlement(id, ending)])[..|s.log|] == s.log;
  }

  // ----- every step keeps the invariant

  lemma ThreadStep(s: State, step: Step)
    requires Inv(s) && (step.Ends? || step.Exits?) && Next(s, step).Some?
    ensures Inv(Next(s, step).value)
  {
    hide Slots, Joins, Announcements, FirstFailure;
    var t := Next(s, step).value;
    var id := step.id;
    ThreadMoves(s.running, s.log, s.threads, id, t.threads[id]);
    if Serving(s.main) {
      if step.Ends? { Announces(s.endings, s.threads, InHand(s.main), id, t.threads[id]); }
      else { StillAnnounced(s.endings, s.threads, InHand(s.main), id, t.threads[id]); }
    }
  }

  lemma RoomKeeps(s: State, accepted: Ending)
    requires Slots(s.running, s.threads) && Joins(s.log, s.threads) && Verdict(s)
    requires |s.running| <= CONCURRENT_SESSIONS && (s.sessions.Some? ==> s.turns <= s.sessions.value)
    requires |s.threads| + 1 == s.turns && accepted == s.answer && (accepted.Some? ==> s.running == [])
    requires Announcements(s.endings, s.threads, None)
    ensures Inv(MakeRoom(s, accepted))
  {
    hide Slots, Joins, Announcements, FirstFailure;
    Spawned(s.running, s.log, s.threads);
    SpawnedQuiet(s.endings, s.threads);
  }

  lemma AcceptKeeps(s: State, result: Ending)
    requires Inv(s) && s.main.Accepting?
    ensures Inv(AfterAccept(s.(answer := result), result))
  {
    hide Slots, Joins, Announcements, FirstFailure, MakeRoom;
    if result.None? || s.running == [] { RoomKeeps(s.(answer := result), result); }
  }

  /** What joining a finished session keeps, wherever the join happens. */
  lemma JoinParts(s: State, id: nat)
    requires Slots(s.running, s.threads) && Joins(s.log, s.threads) && Verdict(s)
    requires id in s.running && IsFinished(s, id)
    ensures var t := JoinSession(s, id);
            && Slots(t.running, t.threads) && Joins(t.log, t.threads) && Verdict(t)
            && |t.running| == |s.running| - 1 && |t.threads| == |s.threads|
  {
    hide Slots, Joins, FirstFailure, Without, Settle;
    var ending := s.threads[id].ending;
    JoinedOnce(s.running, s.log, s.threads, id, ending);
    FewerSlots(s.running, s.threads, id);
    VerdictGrows(s, id, ending);
  }

  lemma JoinKeeps(s: State)
    requires Inv(s) && s.main.Reaping? && s.main.reap.Joining? && ReapStep(s, Join).Some?
    ensures Inv(ReapStep(s, Join).value)
  {
    var id := s.main.reap.id;
    HandIsHeld(s, id);
    hide Slots, Joins, Announcements, Verdict, MakeRoom, Without, Settle;
    JoinParts(s, id);
    Released(s.endings, s.threads, id);
    var t := JoinSession(s, id);
    if s.main.retry { SameVerdict(t, Accepting); } else { RoomKeeps(t, s.main.accepted); }
  }

  lemma SameVerdict(s: State, main: Main)
    requires Verdict(s)
    ensures Verdict(s.(main := main))
  {
  }

  /** The session in hand still has its slot, and has spoken. */
  lemma HandIsHeld(s: State, id: nat)
    requires Inv(s) && s.main.Reaping? && s.main.reap == Joining(id)
    ensures id in s.running && id < |s.threads| && Spoke(s.threads[id])
  {
  }

  lemma FewerSlots(running: seq<nat>, threads: seq<Thread>, id: nat)
    requires Slots(running, threads) && id in running
    ensures |Without(running, id)| == |running| - 1
  {
    hide Without;
    WithoutOnly(running, id);
  }

  /** A finished session has announced, so a wake never finds the one without the other. */
  lemma FinishedAnnounced(s: State, at: nat)
    requires Inv(s) && s.main.Reaping? && !s.main.reap.Joining? && at < |s.running| && IsFinished(s, s.running[at])
    ensures s.endings != []
  {
    assert s.running[at] in s.endings;
  }

  lemma ReapKeeps(s: State, step: Step)
    requires Inv(s) && s.main.Reaping? && ReapStep(s, step).Some?
    ensures Inv(ReapStep(s, step).value)
  {
    hide Slots, Joins, Announcements, FirstFailure, MakeRoom, Without, Settle;
    match s.main.reap
    case Receiving => if step.Receive? { Taken(s.endings, s.threads); }
    case Counting(at, finished) =>
      if at < |s.running| && IsFinished(s, s.running[at]) { FinishedAnnounced(s, at); }
    case Looking(finished) => if s.endings != [] { Taken(s.endings, s.threads); }
    case Joining(id) => JoinKeeps(s);
  }

  lemma FinishKeeps(s: State)
    requires Inv(s) && s.main.Finishing? && FinishStep(s).Some?
    ensures Inv(FinishStep(s).value)
  {
    if s.running != [] {
      var id := s.running[0];
      assert id in s.running;
      hide Slots, Joins, Verdict, Without, Settle;
      JoinParts(s, id);
    } else {
      SameVerdict(s, Ended(if s.failed.Some? then s.failed else s.main.accepted));
    }
  }

  lemma StepKeeps(s: State, step: Step)
    requires Inv(s) && Next(s, step).Some?
    ensures Inv(Next(s, step).value)
  {
    hide Slots, Joins, Announcements, FirstFailure, AfterAccept, ReapStep, FinishStep;
    if step.Ends? || step.Exits? { ThreadStep(s, step); }
    else if step.Accept? { AcceptKeeps(s, step.result); }
    else if step.NextTurn? { }
    else if s.main.Reaping? { ReapKeeps(s, step); }
    else { FinishKeeps(s); }
  }

  lemma BeginKeeps(sessions: Option<nat>)
    ensures Inv(Begin(sessions))
  {
  }

  lemma {:induction false} RunKeeps(s: State, steps: seq<Step>)
    requires Inv(s) && After(s, steps).Some?
    ensures Inv(After(s, steps).value) && After(s, steps).value.sessions == s.sessions
    decreases |steps|
  {
    hide Inv, Next;
    if steps != [] {
      StepKeeps(s, steps[0]);
      SessionsFixed(s, steps[0]);
      RunKeeps(Next(s, steps[0]).value, steps[1..]);
    }
  }

  lemma SessionsFixed(s: State, step: Step)
    requires Next(s, step).Some?
    ensures Next(s, step).value.sessions == s.sessions
  {
  }

  // ----- what every run keeps

  /** The surfaced failure is the first in joining order that its peer had spoken by. */
  lemma {:induction false} FirstIsFirst(log: seq<Settlement>) returns (at: nat)
    ensures at <= |log| && forall j :: 0 <= j < at ==> !Surfaces(log[j].ending)
    ensures FirstFailure(log) == if at < |log| then log[at].ending else None
    ensures at < |log| ==> Surfaces(log[at].ending)
    decreases |log|
  {
    if log == [] {
      at := 0;
    } else {
      var earlier := log[..|log| - 1];
      at := FirstIsFirst(earlier);
      if at == |earlier| && !Surfaces(log[at].ending) { at := |log|; }
    }
  }

  /** Over every run: at most eight sessions held, no session joined twice, an
      announced session still held, and no breach. An end is waited for only
      with all eight held, or to retry an accept that failed beside some. */
  lemma PoolSafety(sessions: Option<nat>, steps: seq<Step>)
    requires After(Begin(sessions), steps).Some?
    ensures var s := After(Begin(sessions), steps).value;
            && |s.running| <= 8 && !s.main.Broken?
            && (forall i, j :: 0 <= i < j < |s.log| ==> s.log[i].id != s.log[j].id)
            && (forall id :: 0 <= id < |s.threads| ==> (id in s.running <==> !Settled(s.log, id)))
            && (Serving(s.main) ==> forall id :: id in s.endings ==> id in s.running)
            && (InHand(s.main).Some? ==> InHand(s.main).value in s.running)
            && (sessions.Some? ==> |s.threads| <= sessions.value)
            && (s.main.Reaping? ==> if s.answer.None? then |s.running| == 8 else s.running != [])
  {
    BeginKeeps(sessions);
    RunKeeps(Begin(sessions), steps);
  }

  /** How many of the first n held sessions have finished. */
  function FinishedIn(s: State, n: nat): nat
    requires n <= |s.running|
  {
    if n == 0 then 0 else FinishedIn(s, n - 1) + (if IsFinished(s, s.running[n - 1]) then 1 else 0)
  }

  function Counts(n: nat): seq<Step> {
    if n == 0 then [] else Counts(n - 1) + [Count]
  }

  lemma {:induction false} CountsAll(s: State, retry: bool, accepted: Ending, n: nat)
    requires n <= |s.running|
    ensures After(s.(main := Reaping(retry, accepted, Counting(0, 0))), Counts(n))
         == Some(s.(main := Reaping(retry, accepted, Counting(n, FinishedIn(s, n)))))
    decreases n
  {
    hide Next, After, IsFinished, FinishedIn;
    var from := s.(main := Reaping(retry, accepted, Counting(0, 0)));
    if n == 0 {
      NoStep(from);
      NoneFinished(s);
    } else {
      CountsAll(s, retry, accepted, n - 1);
      CountOne(s, retry, accepted, n - 1);
      RunOn(from, Counts(n - 1), [Count]);
    }
  }

  lemma NoStep(s: State)
    ensures After(s, []) == Some(s)
  {
  }

  lemma NoneFinished(s: State)
    ensures FinishedIn(s, 0) == 0
  {
  }

  lemma CountOne(s: State, retry: bool, accepted: Ending, n: nat)
    requires n < |s.running|
    ensures After(s.(main := Reaping(retry, accepted, Counting(n, FinishedIn(s, n)))), [Count])
         == Some(s.(main := Reaping(retry, accepted, Counting(n + 1, FinishedIn(s, n + 1)))))
  {
    OneStep(s.(main := Reaping(retry, accepted, Counting(n, FinishedIn(s, n)))), Count);
    hide After;
  }

  lemma OneStep(s: State, step: Step)
    ensures After(s, [step]) == Next(s, step)
  {
    hide Next;
    assert [step][1..] == [];
  }

  /** The wake of a reap in any state at all, no thread moving meanwhile: an
      announcement is taken, silence is waited on, and sessions that finished
      without announcing are not waited for. */
  lemma WakeExact(s: State)
    requires s.main.Reaping? && s.main.reap.Receiving?
    ensures var Reaping(retry, accepted, _) := s.main;
            After(s, [Timeout] + (Counts(|s.running| + 1) + [Look])) == Some(
              if s.endings != [] then s.(endings := s.endings[1..], main := Reaping(retry, accepted, Joining(s.endings[0])))
              else if exists i :: 0 <= i < |s.running| && IsFinished(s, s.running[i]) then s.(main := Broken)
              else s)
  {
    var Reaping(retry, accepted, _) := s.main;
    var n := |s.running|;
    var a := s.(main := Reaping(retry, accepted, Counting(0, 0)));
    var b := s.(main := Reaping(retry, accepted, Counting(n, FinishedIn(s, n))));
    var c := s.(main := Reaping(retry, accepted, Looking(FinishedIn(s, n))));
    OneStep(s, Timeout);
    assert After(s, [Timeout]) == Some(a);
    CountsAll(s, retry, accepted, n);
    OneStep(b, Count);
    assert After(b, [Count]) == Some(c);
    OneStep(c, Look);
    AnyFinished(s, n);
    hide Next, After, IsFinished;
    RunOn(a, Counts(n), [Count]);
    RunOn(a, Counts(n + 1), [Look]);
    RunOn(s, [Timeout], Counts(n + 1) + [Look]);
    assert s.(main := s.main) == s;
  }

  lemma {:induction false} AnyFinished(s: State, n: nat)
    requires n <= |s.running|
    ensures FinishedIn(s, n) > 0 <==> exists i :: 0 <= i < n && IsFinished(s, s.running[i])
    decreases n
  {
    hide IsFinished;
    if n > 0 { AnyFinished(s, n - 1); }
  }

  /** k clients that come while none of their sessions ends. */
  function Clients(k: nat): seq<Step> {
    if k == 0 then [] else Clients(k - 1) + [NextTurn, Accept(None)]
  }

  ghost predicate Holds(s: State, k: nat) {
    && s.main == Turn && s.turns == k && s.running == seq(k, i => i) && s.threads == seq(k, _ => Working)
    && s.endings == [] && s.log == [] && s.answer.None?
  }

  /** Up to eight clients at once are all served at once. */
  lemma {:induction false} EightAtOnce(sessions: Option<nat>, k: nat)
    requires k <= 8 && (sessions.Some? ==> k <= sessions.value)
    ensures After(Begin(sessions), Clients(k)).Some? && Holds(After(Begin(sessions), Clients(k)).value, k)
    ensures After(Begin(sessions), Clients(k)).value.sessions == sessions
    decreases k
  {
    if k > 0 {
      EightAtOnce(sessions, k - 1);
      var s := After(Begin(sessions), Clients(k - 1)).value;
      RunOn(Begin(sessions), Clients(k - 1), [NextTurn, Accept(None)]);
      OneMoreClient(s, k - 1);
    }
  }

  lemma OneMoreClient(s: State, k: nat)
    requires Holds(s, k) && k < CONCURRENT_SESSIONS && (s.sessions.Some? ==> k < s.sessions.value)
    ensures var after := After(s, [NextTurn, Accept(None)]);
            after.Some? && Holds(after.value, k + 1) && after.value.sessions == s.sessions
  {
    var waiting := Next(s, NextTurn).value;
    var t := Next(waiting, Accept(None)).value;
    assert seq(k, i => i) + [k] == seq(k + 1, i => i);
    assert t.threads == seq(k + 1, _ => Working);
    assert [NextTurn, Accept(None)][1..] == [Accept(None)];
    assert After(waiting, [Accept(None)]) == Some(t);
  }

  /** Every ending on record is one a session's thread announced during the run. */
  ghost predicate Told(threads: seq<Thread>, log: seq<Settlement>, past: seq<Step>) {
    && (forall id :: 0 <= id < |threads| && Spoke(threads[id]) ==> Ends(id, threads[id].ending) in past)
    && (forall i :: 0 <= i < |log| ==> Ends(log[i].id, log[i].ending) in past)
  }

  lemma StepTold(s: State, past: seq<Step>, step: Step)
    requires Told(s.threads, s.log, past) && Next(s, step).Some?
    ensures Told(Next(s, step).value.threads, Next(s, step).value.log, past + [step])
  {
    hide Without, Settle, WakeOn;
    assert forall e :: e in past ==> e in past + [step];
    assert (past + [step])[|past|] == step;
  }

  lemma {:induction false} RunTold(s: State, past: seq<Step>, steps: seq<Step>)
    requires Told(s.threads, s.log, past) && After(s, steps).Some?
    ensures Told(After(s, steps).value.threads, After(s, steps).value.log, past + steps)
    decreases |steps|
  {
    hide Told, Next;
    if steps == [] {
      assert past + steps == past;
    } else {
      StepTold(s, past, steps[0]);
      RunTold(Next(s, steps[0]).value, past + [steps[0]], steps[1..]);
      assert past + [steps[0]] + steps[1..] == past + steps;
    }
  }

  // ----- in which order sessions are joined

  /** The sessions in the order they announced their ends. */
  function EndOrder(past: seq<Step>): seq<nat> {
    if past == [] then []
    else EndOrder(past[..|past| - 1]) + (if past[|past| - 1].Ends? then [past[|past| - 1].id] else [])
  }

  function Ids(log: seq<Settlement>): seq<nat> {
    if log == [] then [] else Ids(log[..|log| - 1]) + [log[|log| - 1].id]
  }

  function Hand(main: Main): seq<nat> {
    if InHand(main).Some? then [InHand(main).value] else []
  }

  /** While it serves: joined, in hand, and waiting, in the order announced. */
  ghost predicate Fifo(s: State, past: seq<Step>) {
    Serving(s.main) ==> Ids(s.log) + Hand(s.main) + s.endings == EndOrder(past)
  }

  lemma EndOrderAppend(past: seq<Step>, step: Step)
    ensures EndOrder(past + [step]) == EndOrder(past) + (if step.Ends? then [step.id] else [])
  {
    assert (past + [step])[..|past|] == past;
  }

  lemma IdsAppend(log: seq<Settlement>, entry: Settlement)
    ensures Ids(log + [entry]) == Ids(log) + [entry.id]
  {
    assert (log + [entry])[..|log|] == log;
  }

  lemma StepFifo(s: State, past: seq<Step>, step: Step)
    requires Inv(s) && Fifo(s, past) && Next(s, step).Some?
    ensures Fifo(Next(s, step).value, past + [step])
  {
    hide Inv, Ids, EndOrder, ReapStep, Without, Settle;
    EndOrderAppend(past, step);
    if s.main.Reaping? && !step.Ends? && !step.Exits? { ReapFifo(s, step); }
  }

  /** A reap moves announcements along; it neither drops nor reorders one. */
  lemma ReapFifo(s: State, step: Step)
    requires Inv(s) && s.main.Reaping? && ReapStep(s, step).Some?
    ensures var t := ReapStep(s, step).value;
            Serving(t.main) ==> Ids(t.log) + Hand(t.main) + t.endings == Ids(s.log) + Hand(s.main) + s.endings
  {
    hide Inv, Ids, Without, Settle, MakeRoom;
    if step.Join? {
      JoiningHolds(s);
      IdsAppend(s.log, Settlement(s.main.reap.id, s.threads[s.main.reap.id].ending));
      RoomFifo(JoinSession(s, s.main.reap.id), s.main.accepted);
    } else if s.endings != [] {
      assert s.endings == [s.endings[0]] + s.endings[1..];
    }
  }

  lemma RoomFifo(s: State, accepted: Ending)
    ensures var t := MakeRoom(s, accepted); t.log == s.log && t.endings == s.endings && Hand(t.main) == []
  {
  }

  lemma JoiningHolds(s: State)
    requires Inv(s) && s.main.Reaping? && Next(s, Join).Some?
    ensures s.main.reap.Joining? && s.main.reap.id in s.running && IsFinished(s, s.main.reap.id)
  {
    if s.main.reap.Joining? { HandIsHeld(s, s.main.reap.id); }
  }

  lemma {:induction false} RunFifo(s: State, past: seq<Step>, steps: seq<Step>)
    requires Inv(s) && Fifo(s, past) && After(s, steps).Some?
    ensures Fifo(After(s, steps).value, past + steps)
    decreases |steps|
  {
    hide Inv, Fifo, Next;
    if steps == [] {
      assert past + steps == past;
    } else {
      StepKeeps(s, steps[0]);
      StepFifo(s, past, steps[0]);
      RunFifo(Next(s, steps[0]).value, past + [steps[0]], steps[1..]);
      assert past + [steps[0]] + steps[1..] == past + steps;
    }
  }

  /** Until it finishes, a serve joins sessions in the order they announced,
      and has lost no announcement; from then on, oldest first. */
  lemma JoinOrder(sessions: Option<nat>, steps: seq<Step>)
    requires After(Begin(sessions), steps).Some?
    ensures var s := After(Begin(sessions), steps).value;
            && (Serving(s.main) ==> Ids(s.log) + Hand(s.main) + s.endings == EndOrder(steps))
            && (s.main.Finishing? && Next(s, Join).Some? && s.running != [] ==>
                  && IsFinished(s, s.running[0])
                  && Next(s, Join).value.log == s.log + [Settlement(s.running[0], s.threads[s.running[0]].ending)]
                  && forall id :: id in s.running ==> s.running[0] <= id)
  {
    hide Inv, Next, Ids, EndOrder, After, FirstFailure;
    BeginKeeps(sessions);
    RunKeeps(Begin(sessions), steps);
    assert Fifo(Begin(sessions), []) by { EmptyFifo(sessions); }
    RunFifo(Begin(sessions), [], steps);
    assert [] + steps == steps;
    var s := After(Begin(sessions), steps).value;
    if s.main.Finishing? && Next(s, Join).Some? && s.running != [] { OldestFirst(s); }
  }

  lemma EmptyFifo(sessions: Option<nat>)
    ensures Fifo(Begin(sessions), [])
  {
  }

  lemma OldestFirst(s: State)
    requires Inv(s) && s.main.Finishing? && Next(s, Join).Some? && s.running != []
    ensures s.running[0] < |s.threads| && s.threads[s.running[0]].Finished?
    ensures Next(s, Join).value.log == s.log + [Settlement(s.running[0], s.threads[s.running[0]].ending)]
    ensures forall id :: id in s.running ==> s.running[0] <= id
  {
    hide Joins, Verdict, Without, Settle;
  }

  /** A serve that ended has joined every session it spawned, exactly once, and
      answers with the first settled failure spoken for when it was bounded,
      else with the accept's own failure. */
  lemma ServeVerdict(sessions: Option<nat>, steps: seq<Step>)
    requires After(Begin(sessions), steps).Some? && After(Begin(sessions), steps).value.main.Ended?
    ensures var s := After(Begin(sessions), steps).value;
            && s.running == [] && (forall id :: 0 <= id < |s.threads| ==> Settled(s.log, id))
            && (forall i :: 0 <= i < |s.log| ==> s.log[i].id < |s.threads| && Ends(s.log[i].id, s.log[i].ending) in steps)
            && s.main.result == (if sessions.Some? && FirstFailure(s.log).Some? then FirstFailure(s.log) else s.answer)
            && (s.answer.None? ==> sessions == Some(|s.threads|))
  {
    hide FirstFailure, Next;
    BeginKeeps(sessions);
    RunKeeps(Begin(sessions), steps);
    RunTold(Begin(sessions), [], steps);
    assert [] + steps == steps;
  }

  /** Well, or cut off before the peer said anything. */
  ghost predicate Unspoken(ending: Ending) {
    ending in {None, Some(Session(Interrupted(Connecting))), Some(Session(Interrupted(ControlReserved)))}
  }

  /** A failure surfaces exactly when its peer had spoken; a serve in which none
      did answers as its last accept did, and a bounded one in which one did
      answers with the first of them. */
  lemma UnspokenVerdict(sessions: Option<nat>, steps: seq<Step>)
    requires After(Begin(sessions), steps).Some? && After(Begin(sessions), steps).value.main.Ended?
    ensures var s := After(Begin(sessions), steps).value;
            var quiet := forall i :: 0 <= i < |s.log| ==> Unspoken(s.log[i].ending);
            && (sessions.None? || quiet ==> s.main.result == s.answer)
            && (sessions.Some? && !quiet ==>
                  exists at :: && 0 <= at < |s.log| && s.main.result == s.log[at].ending && !Unspoken(s.log[at].ending)
                               && forall i :: 0 <= i < at ==> Unspoken(s.log[i].ending))
  {
    ServeVerdict(sessions, steps);
    var s := After(Begin(sessions), steps).value;
    hide After, FirstFailure;
    forall i | 0 <= i < |s.log| ensures Surfaces(s.log[i].ending) <==> !Unspoken(s.log[i].ending) {
    }
    var at := FirstIsFirst(s.log);
  }

  lemma CanStep(s: State) returns (step: Step)
    requires Inv(s) && !s.main.Ended?
    ensures Next(s, step).Some?
    ensures step.Timeout? ==> s.main.Reaping? && s.main.reap.Receiving?
  {
    hide Joins, Announcements, FirstFailure, MakeRoom, JoinSession, AfterAccept, Woken;
    match s.main
    case Turn => step := NextTurn;
    case Accepting => step := Accept(None);
    case Finishing(_) =>
      if s.running == [] { step := Join; }
      else {
        var id := s.running[0];
        assert id in s.running;
        step := if IsFinished(s, id) then Join else if s.threads[id].Working? then Ends(id, None) else Exits(id);
      }
    case Reaping(_, _, reap) =>
      match reap {
        case Receiving => step := Timeout;
        case Counting(_, _) => step := Count;
        case Looking(_) => step := Look;
        case Joining(id) =>
          HandIsHeld(s, id);
          step := if IsFinished(s, id) then Join else Exits(id);
      }
  }

  // ----- the serve makes progress

  /** A step that only waits: a timeout, a look at a handle, or a wake that finds nothing. */
  predicate Waits(s: State, step: Step) {
    step.Timeout? || step.Count? || (step.Look? && s.endings == [])
  }

  function Effort(t: Thread): nat {
    match t case Working => 2 case Announced(_) => 1 case _ => 0
  }

  function ThreadWork(threads: seq<Thread>): nat {
    if threads == [] then 0 else ThreadWork(threads[..|threads| - 1]) + Effort(threads[|threads| - 1])
  }

  lemma {:induction false} WorkMoves(threads: seq<Thread>, id: nat, t: Thread)
    requires id < |threads|
    ensures ThreadWork(threads[id := t]) + Effort(threads[id]) == ThreadWork(threads) + Effort(t)
  {
    hide Effort;
    var front := threads[..|threads| - 1];
    if id == |threads| - 1 {
      assert threads[id := t][..id] == front;
    } else {
      WorkMoves(front, id, t);
      assert threads[id := t][..|threads| - 1] == front[id := t];
    }
  }

  lemma WorkSpawned(threads: seq<Thread>)
    ensures ThreadWork(threads + [Working]) == ThreadWork(threads) + 2
  {
    assert (threads + [Working])[..|threads|] == threads;
  }

  function MainWork(main: Main): nat {
    match main
    case Turn => 2
    case Accepting => 8
    case Reaping(_, _, reap) => if reap.Joining? then 6 else 7
    case Finishing(_) => 1
    case _ => 0
  }

  /** What a serve of `bound` sessions has left to do: turns to take, threads to
      end and exit, slots to reap, and where the main thread stands. */
  function Work(s: State, bound: nat): nat
    requires s.turns <= bound
  {
    7 * (bound - s.turns) + Load(s) + MainWork(s.main)
  }

  /** Threads to end and exit, and slots to reap. */
  function Load(s: State): nat {
    ThreadWork(s.threads) + 3 * |s.running|
  }

  lemma TurnsBounded(s: State, bound: nat)
    requires Inv(s) && s.sessions == Some(bound)
    ensures s.turns <= bound
  {
  }

  lemma RoomWork(s: State, accepted: Ending)
    ensures var t := MakeRoom(s, accepted);
            Load(t) + MainWork(t.main) <= Load(s) + 7 && t.turns == s.turns
  {
    WorkSpawned(s.threads);
  }

  lemma JoinWork(s: State, id: nat)
    requires Slots(s.running, s.threads) && id in s.running && IsFinished(s, id)
    ensures var t := JoinSession(s, id);
            t.turns == s.turns && t.main == s.main && Load(t) + 3 == Load(s)
            && Load(t.(main := Accepting)) == Load(t) && t.(main := Accepting).turns == t.turns
  {
    hide Slots, Without, Settle;
    FewerSlots(s.running, s.threads, id);
    WorkMoves(s.threads, id, Joined);
  }

  /** Every step that does not merely wait leaves less to do, and waiting leaves no more. */
  lemma StepWork(s: State, step: Step, bound: nat)
    requires Inv(s) && s.sessions == Some(bound) && Next(s, step).Some?
    ensures s.turns <= bound && Next(s, step).value.turns <= bound
    ensures Work(Next(s, step).value, bound) + (if Waits(s, step) then 0 else 1) <= Work(s, bound)
  {
    TurnsBounded(s, bound);
    hide Inv, MakeRoom, AfterAccept, ThreadWork, ReapStep, FinishStep;
    if step.Ends? { WorkMoves(s.threads, step.id, Announced(step.ending)); }
    else if step.Exits? { WorkMoves(s.threads, step.id, Finished(s.threads[step.id].ending)); }
    else if step.Accept? { AcceptWork(s.(answer := step.result), step.result); }
    else if step.NextTurn? { }
    else if s.main.Reaping? { ReapWork(s, step, bound); }
    else { FinishWork(s, bound); }
  }

  lemma AcceptWork(s: State, accepted: Ending)
    ensures var t := AfterAccept(s, accepted);
            Load(t) + MainWork(t.main) <= Load(s) + 7 && t.turns == s.turns
  {
    hide MakeRoom, ThreadWork;
    RoomWork(s, accepted);
  }

  lemma FinishWork(s: State, bound: nat)
    requires Inv(s) && s.main.Finishing? && FinishStep(s).Some? && s.turns <= bound
    ensures FinishStep(s).value.turns == s.turns && Work(FinishStep(s).value, bound) < Work(s, bound)
  {
    hide Slots, Joins, Announcements, Verdict, ThreadWork, JoinSession;
    if s.running != [] {
      FirstHeld(s.running);
      JoinWork(s, s.running[0]);
    }
  }

  lemma FirstHeld(ids: seq<nat>)
    requires ids != []
    ensures ids[0] in ids
  {
  }

  lemma ReapWork(s: State, step: Step, bound: nat)
    requires Inv(s) && s.main.Reaping? && ReapStep(s, step).Some? && s.turns <= bound
    ensures ReapStep(s, step).value.turns == s.turns
    ensures Work(ReapStep(s, step).value, bound) + (if Waits(s, step) then 0 else 1) <= Work(s, bound)
  {
    hide Inv, ThreadWork, MakeRoom, JoinSession;
    if step.Join? { ReapJoinWork(s, bound); }
  }

  lemma ReapJoinWork(s: State, bound: nat)
    requires Inv(s) && s.main.Reaping? && ReapStep(s, Join).Some? && s.turns <= bound
    ensures ReapStep(s, Join).value.turns == s.turns
    ensures Work(ReapStep(s, Join).value, bound) < Work(s, bound)
  {
    hide Inv, Load, MakeRoom, JoinSession;
    JoiningHolds(s);
    JoinWork(s, s.main.reap.id) by { HeldSlots(s); }
    RoomWork(JoinSession(s, s.main.reap.id), s.main.accepted);
  }

  lemma HeldSlots(s: State)
    requires Inv(s)
    ensures Slots(s.running, s.threads)
  {
  }

  /** The steps of a run that did more than wait. */
  function Deeds(s: State, steps: seq<Step>): nat
    requires After(s, steps).Some?
    decreases |steps|
  {
    if steps == [] then 0
    else (if Waits(s, steps[0]) then 0 else 1) + Deeds(Next(s, steps[0]).value, steps[1..])
  }

  lemma {:induction false} RunWork(s: State, steps: seq<Step>, bound: nat)
    requires Inv(s) && s.sessions == Some(bound) && After(s, steps).Some?
    ensures s.turns <= bound && Deeds(s, steps) <= Work(s, bound)
    decreases |steps|
  {
    hide Inv, Next, Work, Waits;
    TurnsBounded(s, bound);
    if steps != [] {
      StepKeeps(s, steps[0]);
      SessionsFixed(s, steps[0]);
      StepWork(s, steps[0], bound);
      RunWork(Next(s, steps[0]).value, steps[1..], bound);
    }
  }

  /** Whatever the interleaving, a serve of n sessions does at most 7n + 2 steps
      that are not waiting. */
  lemma BoundedDeeds(bound: nat, steps: seq<Step>)
    requires After(Begin(Some(bound)), steps).Some?
    ensures Deeds(Begin(Some(bound)), steps) <= 7 * bound + 2
  {
    BeginKeeps(Some(bound));
    RunWork(Begin(Some(bound)), steps, bound);
  }

  /** And it waits only on sessions that are still at work: a wake that goes back
      to waiting found no held session that had ended. */
  lemma WaitsOnWork(sessions: Option<nat>, steps: seq<Step>)
    requires After(Begin(sessions), steps).Some?
    ensures var s := After(Begin(sessions), steps).value;
            s.main.Reaping? && !s.main.reap.Joining? && s.endings == [] ==>
              s.running != [] && forall id :: id in s.running ==> id < |s.threads| && s.threads[id].Working?
  {
    BeginKeeps(sessions);
    RunKeeps(Begin(sessions), steps);
    hide After, Joins, Verdict;
    var s := After(Begin(sessions), steps).value;
    if s.main.Reaping? && !s.main.reap.Joining? && s.endings == [] { SilentWork(s); }
  }

  lemma SilentWork(s: State)
    requires Inv(s) && s.main.Reaping? && !s.main.reap.Joining? && s.endings == []
    ensures s.running != [] && forall id :: id in s.running ==> id < |s.threads| && s.threads[id].Working?
  {
  }

  /** How far a waiting reap is from its next look at the channel. */
  function Looks(s: State): nat {
    if !s.main.Reaping? then 0 else
    match s.main.reap
    case Counting(at, _) => if at <= |s.running| then 2 + |s.running| - at else 2
    case Looking(_) => 1
    case _ => 0
  }

  /** A step that is enabled and is not a timeout: where nothing has been
      announced, it is a session's own. */
  lemma UsefulStep(s: State) returns (step: Step)
    requires Inv(s) && !s.main.Ended?
    ensures Next(s, step).Some? && !step.Timeout?
  {
    if s.main.Reaping? && s.main.reap.Receiving? {
      if s.endings == [] {
        SilentWork(s);
        FirstHeld(s.running);
        step := Ends(s.running[0], None);
      } else {
        step := Receive;
      }
    } else {
      step := CanStep(s);
    }
  }

  /** A serve is never stuck: before its end a step other than a timeout can be taken. */
  lemma NeverStuck(sessions: Option<nat>, steps: seq<Step>) returns (step: Step)
    requires After(Begin(sessions), steps).Some? && !After(Begin(sessions), steps).value.main.Ended?
    ensures Next(After(Begin(sessions), steps).value, step).Some? && !step.Timeout?
  {
    hide Inv, Next;
    BeginKeeps(sessions);
    RunKeeps(Begin(sessions), steps);
    step := UsefulStep(After(Begin(sessions), steps).value);
  }

  /** From any state of a bounded serve there is a step that brings its end closer. */
  lemma Closer(s: State, bound: nat) returns (step: Step)
    requires Inv(s) && s.sessions == Some(bound) && !s.main.Ended?
    ensures s.turns <= bound && Next(s, step).Some? && Next(s, step).value.turns <= bound
    ensures Work(Next(s, step).value, bound) < Work(s, bound)
            || (Work(Next(s, step).value, bound) == Work(s, bound) && Looks(Next(s, step).value) < Looks(s))
  {
    TurnsBounded(s, bound);
    step := UsefulStep(s);
    hide Inv, Work, Next;
    StepWork(s, step, bound);
    if Waits(s, step) { CloserLooks(s, step, bound); }
  }

  lemma CloserLooks(s: State, step: Step, bound: nat)
    requires Inv(s) && s.turns <= bound && Next(s, step).Some? && Waits(s, step) && !step.Timeout?
    ensures Next(s, step).value.turns == s.turns
    ensures Work(Next(s, step).value, bound) == Work(s, bound) && Looks(Next(s, step).value) < Looks(s)
  {
    hide Slots, Joins, Announcements, Verdict, ThreadWork;
  }

  lemma {:induction false} PathToEnd(s: State, bound: nat) returns (more: seq<Step>)
    requires Inv(s) && s.sessions == Some(bound)
    ensures s.turns <= bound && After(s, more).Some? && After(s, more).value.main.Ended?
    decreases if s.turns <= bound then Work(s, bound) else 0, Looks(s)
  {
    TurnsBounded(s, bound);
    if s.main.Ended? {
      more := [];
    } else {
      hide Inv, Next, Work, Looks;
      var step := Closer(s, bound);
      StepKeeps(s, step);
      SessionsFixed(s, step);
      var rest := PathToEnd(Next(s, step).value, bound);
      more := [step] + rest;
      assert more[1..] == rest;
    }
  }

  /** However a bounded serve has run so far, it can still come to its end. */
  lemma CanEnd(bound: nat, steps: seq<Step>) returns (more: seq<Step>)
    requires After(Begin(Some(bound)), steps).Some?
    ensures After(Begin(Some(bound)), steps + more).Some?
    ensures After(Begin(Some(bound)), steps + more).value.main.Ended?
  {
    hide Inv, Next;
    BeginKeeps(Some(bound));
    RunKeeps(Begin(Some(bound)), steps);
    more := PathToEnd(After(Begin(Some(bound)), steps).value, bound);
    RunOn(Begin(Some(bound)), steps, more);
  }

  lemma {:induction false} RunOn(s: State, steps: seq<Step>, more: seq<Step>)
    requires After(s, steps).Some?
    ensures After(s, steps + more) == After(After(s, steps).value, more)
    decreases |steps|
  {
    hide Next;
    if steps == [] {
      assert steps + more == more;
    } else {
      RunOn(Next(s, steps[0]).value, steps[1..], more);
      assert (steps + more)[1..] == steps[1..] + more;
    }
  }
}
