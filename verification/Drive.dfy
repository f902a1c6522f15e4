/** The loop that drives one session until it settles or stalls. */
module Drive {
  import opened Powers

  // Durations in nanoseconds.
  const BUSY_BOUND := 1_000_000
  const IDLE_BOUND := 50_000_000
  const SPINNING_BEFORE_PACING := 64
  const SPINNING_MAX := 0xFFFF_FFFF_FFFF_FFFF

  /** What a service pass answered. */
  datatype Service = Failed | Unsettled | Settled

  /** Everything the engine answers during one pass of the loop. */
  datatype Pass = Pass(service: Service, done: bool, backlog: bool, progress: nat, waited: nat)

  /** How the loop ended; `Running` when the engine's answers ran out first. */
  datatype Outcome = EngineFailed | SessionSettled | CallerDone | Stalled | Running

  function SaturatingSub(a: nat, b: nat): nat {
    if a >= b then a - b else 0
  }

  function WaitBound(backlog: bool): nat {
    if backlog then BUSY_BOUND else IDLE_BOUND
  }

  // ----- what a run of passes amounts to

  /** The progress reported before pass k. */
  function Before(script: seq<Pass>, start: nat, k: nat): nat
    requires k <= |script|
  {
    if k == 0 then start else script[k - 1].progress
  }

  /** Pass k reported the progress already known. */
  predicate Quiet(script: seq<Pass>, start: nat, k: nat)
    requires k < |script|
  {
    script[k].progress == Before(script, start, k)
  }

  /** Quiet passes in a row, ending with pass k. */
  function Run(script: seq<Pass>, start: nat, k: nat): nat
    requires k < |script|
  {
    if !Quiet(script, start, k) then 0 else if k == 0 then 1 else 1 + Run(script, start, k - 1)
  }

  /** Pass k's wait, and the sleep that fills its bound once the loop paces itself. */
  function Cost(script: seq<Pass>, start: nat, k: nat): nat
    requires k < |script|
  {
    var p := script[k];
    if Run(script, start, k) > SPINNING_BEFORE_PACING && p.waited <= WaitBound(p.backlog)
    then p.waited + (WaitBound(p.backlog) - p.waited)
    else p.waited
  }

  /** The costs of passes [from, to). */
  function Total(script: seq<Pass>, start: nat, from: nat, to: nat): nat
    requires from <= to <= |script|
  {
    if from == to then 0 else Total(script, start, from, to - 1) + Cost(script, start, to - 1)
  }

  /** The last pass before k that moved the progress, or the first pass of all. */
  function LastMove(script: seq<Pass>, start: nat, k: nat): (r: nat)
    requires k <= |script|
    ensures r <= k
  {
    if k == 0 then 0 else if !Quiet(script, start, k - 1) then k - 1 else LastMove(script, start, k - 1)
  }

  /** Waits and sleeps since the last progress change, before pass k's own wait. */
  function Spent(script: seq<Pass>, start: nat, k: nat): nat
    requires k <= |script|
  {
    Total(script, start, LastMove(script, start, k), k)
  }

  ghost predicate Stalls(script: seq<Pass>, start: nat, budget: nat, k: nat)
    requires k < |script|
  {
    Quiet(script, start, k) && Spent(script, start, k) >= budget
  }

  /** How pass k ends the loop, if it does. */
  ghost function Ending(script: seq<Pass>, start: nat, budget: nat, k: nat): Outcome
    requires k < |script|
  {
    if script[k].service == Failed then EngineFailed
    else if script[k].service == Settled then SessionSettled
    else if script[k].done then CallerDone
    else if Stalls(script, start, budget, k) then Stalled
    else Running
  }

  /** Drives an engine whose answers are `script`, from progress `start`.
      It ends at the first pass that ends it, and stalls exactly when the
      waits and sleeps since the last progress change reach the budget. */
  method DriveUntil(script: seq<Pass>, start: nat, stallBudget: nat) returns (outcome: Outcome, passes: nat)
    ensures passes <= |script|
    ensures forall j :: 0 <= j < passes ==> Ending(script, start, stallBudget, j) == Running
    ensures outcome == if passes == |script| then Running else Ending(script, start, stallBudget, passes)
    ensures passes < |script| ==> outcome != Running
    ensures outcome == EngineFailed <==> passes < |script| && script[passes].service == Failed
    ensures outcome == SessionSettled <==> passes < |script| && script[passes].service == Settled
    ensures outcome == CallerDone <==> passes < |script| && script[passes].service == Unsettled && script[passes].done
    ensures outcome == Stalled <==>
            && passes < |script| && script[passes].service == Unsettled && !script[passes].done
            && Stalls(script, start, stallBudget, passes)
    ensures forall j :: 0 <= j < passes ==> Run(script, start, j) < QuietLimit(stallBudget)
  {
    var budget := stallBudget;
    var spinning := 0;
    var settledSoFar := start;
    passes := 0;
    while passes < |script|
      invariant passes <= |script|
      invariant settledSoFar == Before(script, start, passes)
      invariant spinning == Spins(script, start, passes)
      invariant budget == SaturatingSub(stallBudget, Spent(script, start, passes))
      invariant forall j :: 0 <= j < passes ==> Ending(script, start, stallBudget, j) == Running
      invariant forall j :: 0 <= j < passes ==> Run(script, start, j) < QuietLimit(stallBudget)
    {
      hide QuietLimit;
      var p := script[passes];
      if p.service == Failed { return EngineFailed, passes; }
      if p.service == Settled { return SessionSettled, passes; }
      if p.done { return CallerDone, passes; }
      var bound := WaitBound(p.backlog);
      if p.progress == settledSoFar {
        spinning := if spinning < SPINNING_MAX then spinning + 1 else spinning;
        if budget == 0 { return Stalled, passes; }
      } else {
        settledSoFar := p.progress;
        budget := stallBudget;
        spinning := 0;
      }
      budget := SaturatingSub(budget, p.waited);
      if spinning > SPINNING_BEFORE_PACING && p.waited <= bound {
        var rest := bound - p.waited;
        budget := SaturatingSub(budget, rest);
      }
      SpentStep(script, start, passes);
      if Run(script, start, passes) >= QuietLimit(stallBudget) { QuietRunEnds(script, start, stallBudget, passes); }
      passes := passes + 1;
    }
    outcome := Running;
  }

  /** The loop's spin counter entering pass k. */
  function Spins(script: seq<Pass>, start: nat, k: nat): nat
    requires k <= |script|
  {
    if k == 0 then 0
    else var run := Run(script, start, k - 1); if run < SPINNING_MAX then run else SPINNING_MAX
  }

  lemma SpentStep(script: seq<Pass>, start: nat, k: nat)
    requires k < |script|
    ensures Spent(script, start, k + 1) ==
            (if Quiet(script, start, k) then Spent(script, start, k) else 0) + Cost(script, start, k)
  {
    if !Quiet(script, start, k) { assert Total(script, start, k, k) == 0; }
  }

  // ----- a run of passes without progress ends

  /** The longest run of quiet passes before the stall is called. */
  function QuietLimit(budget: nat): nat {
    SPINNING_BEFORE_PACING + CeilDiv(budget, BUSY_BOUND) + 1
  }

  /** Past the pacing threshold every quiet pass costs at least the busy bound. */
  lemma {:induction false} PacedSpends(script: seq<Pass>, start: nat, k: nat)
    requires k < |script| && Run(script, start, k) > SPINNING_BEFORE_PACING
    ensures Spent(script, start, k) >= BUSY_BOUND * (Run(script, start, k) - SPINNING_BEFORE_PACING - 1)
  {
    hide Spent, Cost, Total;
    if Run(script, start, k) > SPINNING_BEFORE_PACING + 1 {
      PacedSpends(script, start, k - 1);
      SpentStep(script, start, k - 1);
      PacedCost(script, start, k - 1);
    }
  }

  lemma PacedCost(script: seq<Pass>, start: nat, k: nat)
    requires k < |script| && Run(script, start, k) > SPINNING_BEFORE_PACING
    ensures Cost(script, start, k) >= BUSY_BOUND
  {
  }

  lemma CeilCovers(budget: nat)
    ensures BUSY_BOUND * CeilDiv(budget, BUSY_BOUND) >= budget
  {
  }

  /** Whatever the engine does, a run of quiet passes the loop survives is
      shorter than the limit: the pass that reaches it ends the loop. */
  lemma QuietRunEnds(script: seq<Pass>, start: nat, budget: nat, k: nat)
    requires k < |script| && Run(script, start, k) >= QuietLimit(budget)
    ensures Ending(script, start, budget, k) != Running
  {
    hide Spent, CeilDiv;
    PacedSpends(script, start, k);
    CeilCovers(budget);
    var c, run := CeilDiv(budget, BUSY_BOUND), Run(script, start, k);
    assert BUSY_BOUND * (run - SPINNING_BEFORE_PACING - 1) >= BUSY_BOUND * c;
  }

  /** A stall is a silence: from the last pass that moved the progress to the
      stalling pass nothing moved, and that stretch was waited out in full. It
      overran the budget by no more than one idle bound, where the loop had not
      stalled before and every wait kept to its bound. */
  lemma StallIsSilence(script: seq<Pass>, start: nat, budget: nat, k: nat) returns (from: nat)
    requires k < |script| && Ending(script, start, budget, k) == Stalled
    ensures from <= k && Total(script, start, from, k) >= budget
    ensures forall j :: from <= j <= k ==> script[j].progress == script[k].progress
    ensures from == 0 || !Quiet(script, start, from)
    ensures k > 0 && Ending(script, start, budget, k - 1) == Running && KeepsBound(script[k - 1]) ==>
              && Total(script, start, from, k) <= budget + IDLE_BOUND
              && (budget > 0 ==> Total(script, start, from, k) < budget + IDLE_BOUND)
  {
    from := LastMove(script, start, k);
    Silent(script, start, k);
    if k > 0 { SpentStep(script, start, k - 1); }
  }

  /** The wait took no longer than it was asked to. */
  predicate KeepsBound(p: Pass) {
    p.waited <= WaitBound(p.backlog)
  }

  lemma {:induction false} Silent(script: seq<Pass>, start: nat, k: nat)
    requires k <= |script|
    ensures var from := LastMove(script, start, k);
            && (from == 0 || !Quiet(script, start, from))
            && forall j :: from <= j < k ==> script[j].progress == Before(script, start, k)
    decreases k
  {
    if k > 0 && Quiet(script, start, k - 1) { Silent(script, start, k - 1); }
  }

  // ----- the limit is reached

  /** An engine that never waits and never gets anywhere, backlogged or not. */
  function Spinner(n: nat, backlog: bool): seq<Pass> {
    seq(n, i => Pass(Unsettled, false, backlog, 0, 0))
  }

  lemma {:induction false} SpinnerRun(n: nat, backlog: bool, k: nat)
    requires k < n
    ensures Run(Spinner(n, backlog), 0, k) == k + 1
  {
    if k > 0 { SpinnerRun(n, backlog, k - 1); }
  }

  /** It costs nothing until it is paced, and its whole bound a pass from then on:
      a millisecond with a backlog, fifty without. */
  lemma {:induction false} SpinnerSpent(n: nat, backlog: bool, k: nat)
    requires k <= n
    ensures Spent(Spinner(n, backlog), 0, k) ==
            if k > 64 then (if backlog then 1_000_000 * (k - 64) else 50_000_000 * (k - 64)) else 0
  {
    if k > 0 {
      SpinnerSpent(n, backlog, k - 1);
      SpinnerRun(n, backlog, k - 1);
      SpentStep(Spinner(n, backlog), 0, k - 1);
      hide Spent;
    }
  }

  function SpinnerLimit(budget: nat, backlog: bool): nat {
    64 + CeilDiv(budget, if backlog then 1_000_000 else 50_000_000) + 1
  }

  /** A spinner survives exactly the quiet passes short of its limit, and is called
      stalled at it; with a backlog that is the limit no engine passes. */
  lemma LimitReached(budget: nat, backlog: bool, k: nat)
    requires budget > 0 && k < SpinnerLimit(budget, backlog)
    ensures QuietLimit(budget) == SpinnerLimit(budget, true)
    ensures var script := Spinner(SpinnerLimit(budget, backlog), backlog);
            && Run(script, 0, k) == k + 1
            && Ending(script, 0, budget, k) == if k + 1 < SpinnerLimit(budget, backlog) then Running else Stalled
  {
    hide Spent, Run;
    SpinnerRun(SpinnerLimit(budget, backlog), backlog, k);
    SpinnerSpent(SpinnerLimit(budget, backlog), backlog, k);
  }
}
