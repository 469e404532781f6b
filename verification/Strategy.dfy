/** One benchmark of a recognition strategy: the pass loop over a simulated
    clock, its ledger, its run log, and the report built from them. */
module Strategy {
  import opened Numeric
  import opened CueTimeline
  import opened CueLedger
  import opened Disagreement
  import opened Playback
  import opened PrefixSchedule
  import opened RollingBound

  const GROWING_PREFIX := "growing-prefix"
  const ROLLING_WINDOW := "rolling-window"

  function PlanOf(strategy: string, config: Config, rate: int, total: int): (plan: Plan)
    requires config.Valid() && 0 < rate && 0 <= total
    ensures plan.Valid() && plan.total == total && plan.rate == rate
    ensures plan.Endpoints() == PrefixEndpoints(total, rate, config.initialMs, config.cadenceMs)
  {
    DurationFramesMonotone(config.holdbackMs, config.windowMs, rate);
    Plan(rate, total,
         Max(1, DurationFrames(config.initialMs, rate)), Max(1, DurationFrames(config.cadenceMs, rate)),
         DurationFrames(config.windowMs, rate), DurationFrames(config.holdbackMs, rate),
         strategy == ROLLING_WINDOW)
  }

  // ------------------------------------------------------------ accepted passes

  function PassResult(rec: Recognizer, t: Tick, k: nat): Result<Pass, CueError> {
    rec(t.windowStart, t.prefixEnd, k)
  }

  /** The ledger takes the result of pass `k`. */
  ghost predicate PassAccepted(rec: Recognizer, ticks: seq<Tick>, k: nat)
    requires k < |ticks|
  {
    var committed, t := CommittedBefore(ticks, k), ticks[k];
    && PassResult(rec, t, k).Success?
    && committed <= t.watermark
    && (committed < t.watermark ==> Covers(PassResult(rec, t, k).value.cues, committed, t.watermark))
  }

  ghost predicate AllAccepted(rec: Recognizer, ticks: seq<Tick>) {
    forall k :: 0 <= k < |ticks| ==> PassAccepted(rec, ticks, k)
  }

  /** The run reached the end of the audio with every pass accepted. */
  ghost predicate Completed(plan: Plan, rec: Recognizer, ticks: seq<Tick>) {
    && 0 < plan.total && ticks != [] && ticks[|ticks| - 1].prefixEnd == plan.total && AllAccepted(rec, ticks)
  }

  /** The committed frames are, pass by pass, what that pass recognized. */
  ghost predicate Provenance(rec: Recognizer, ticks: seq<Tick>, frames: seq<Shape>) {
    && AllAccepted(rec, ticks)
    && |frames| == CommittedBefore(ticks, |ticks|)
    && forall k :: 0 <= k < |ticks| ==> PassProvenance(rec, ticks, k, frames)
  }

  ghost predicate PassProvenance(rec: Recognizer, ticks: seq<Tick>, k: nat, frames: seq<Shape>)
    requires k < |ticks|
  {
    var committed, t := CommittedBefore(ticks, k), ticks[k];
    && PassAccepted(rec, ticks, k)
    && 0 <= committed <= t.watermark <= |frames|
    && (committed < t.watermark ==>
          frames[committed..t.watermark] == Span(PassResult(rec, t, k).value.cues, committed, t.watermark))
  }

  /** A recognizer whose output gives every strategy all it needs. */
  ghost predicate Dependable(plan: Plan, rec: Recognizer)
    requires plan.Valid()
  {
    && WellFormed(rec, plan.total) && 0 < plan.total
    && (plan.rolling ==> exists budgetMs :: SafeBudget(plan, budgetMs) && Within(rec, plan.total, budgetMs))
  }

  /** On a dependable recognizer no pass of any schedule is refused. */
  lemma DependablePassesAccepted(plan: Plan, rec: Recognizer, ticks: seq<Tick>)
    requires plan.Valid() && Dependable(plan, rec) && Forward(rec, plan.total) && Schedule(plan, rec, ticks)
    ensures AllAccepted(rec, ticks)
  {
    forall k | 0 <= k < |ticks| ensures PassAccepted(rec, ticks, k) {
      TickShape(plan, rec, ticks, k);
      PlanEndpoints(plan);
      if k > 0 {
        StepsForward(plan, rec, ticks, k);
      }
      if plan.rolling {
        var budgetMs :| SafeBudget(plan, budgetMs) && Within(rec, plan.total, budgetMs);
        SafeBudgetSuffices(plan, rec, ticks, budgetMs, k);
      }
      var t := ticks[k];
      assert t.windowStart < t.prefixEnd;
    }
  }

  /** Once a schedule has lost the cursor, no run of that plan and recognizer completes. */
  lemma LossMeansFailure(plan: Plan, rec: Recognizer, budgetMs: real, lost: seq<Tick>, ticks: seq<Tick>)
    requires Loses(plan, budgetMs, rec, lost) && Schedule(plan, rec, ticks)
    ensures !Completed(plan, rec, ticks)
  {
    var k := |lost| - 1;
    TickShape(plan, rec, lost, k);
    PlanEndpoints(plan);
    if k < |ticks| {
      ScheduleDetermined(plan, rec, lost, ticks, k);
      if k > 0 { ScheduleDetermined(plan, rec, lost, ticks, k - 1); }
      var t := lost[k];
      assert ProperPass(PassResult(rec, t, k), t.windowStart, t.prefixEnd);
      assert !PassAccepted(rec, ticks, k);
    } else if ticks != [] {
      var m := |ticks| - 1;
      ScheduleDetermined(plan, rec, lost, ticks, m);
      StepsForward(plan, rec, lost, m + 1);
    }
  }

  // -------------------------------------------------------------------- the log

  /** The log has a run for every pass of the schedule. */
  ghost predicate Logged(rec: Recognizer, ticks: seq<Tick>, runs: seq<RecognitionRun>) {
    |runs| == |ticks| && forall k :: 0 <= k < |runs| ==> LoggedAt(rec, ticks, runs, k)
  }

  /** Run `k` of the log is pass `k` of the schedule, times in thousandths. */
  ghost predicate LoggedAt(rec: Recognizer, ticks: seq<Tick>, runs: seq<RecognitionRun>, k: nat)
    requires k < |runs| == |ticks|
  {
    && runs[k].prefixEnd == ticks[k].prefixEnd && runs[k].windowStart == ticks[k].windowStart
    && runs[k].elapsedMs == RoundThousandths(Elapsed(rec, ticks[k].windowStart, ticks[k].prefixEnd, k))
    && runs[k].virtualStartMs == RoundThousandths(ticks[k].startMs)
    && runs[k].virtualFinishMs == RoundThousandths(ticks[k].finishMs)
    && runs[k].committedUntil == ticks[k].watermark
  }

  function AcceptedTotal(runs: seq<RecognitionRun>): int {
    if runs == [] then 0 else AcceptedTotal(runs[..|runs| - 1]) + runs[|runs| - 1].acceptedCueCount
  }

  /** The log of a completed run is one the playback delay is meant for. */
  lemma CompletedLog(plan: Plan, rec: Recognizer, ticks: seq<Tick>, runs: seq<RecognitionRun>)
    requires plan.Valid() && Forward(rec, plan.total) && Schedule(plan, rec, ticks) && Completed(plan, rec, ticks)
    requires Logged(rec, ticks, runs)
    ensures RunLog(runs, plan.total)
  {
    forall i, k | 0 <= i <= k < |runs|
      ensures runs[i].committedUntil <= runs[k].committedUntil && runs[i].virtualFinishMs <= runs[k].virtualFinishMs
      ensures i < k ==> runs[i].committedUntil < plan.total
      ensures 0 <= runs[i].committedUntil
    {
      assert LoggedAt(rec, ticks, runs, i) && LoggedAt(rec, ticks, runs, k);
      RunsForward(plan, rec, ticks, i, k);
      TickShape(plan, rec, ticks, i);
      RoundThousandthsMonotone(ticks[i].finishMs, ticks[k].finishMs);
    }
    forall k | 0 <= k < |runs| - 1 ensures runs[k].committedUntil < plan.total {
      assert runs[k].committedUntil <= runs[k + 1].committedUntil;
    }
    TickShape(plan, rec, ticks, |ticks| - 1);
    assert LoggedAt(rec, ticks, runs, |ticks| - 1);
  }

  // ------------------------------------------------------------------- the loop

  datatype StrategyReport = StrategyReport(
    runs: seq<RecognitionRun>, cues: seq<Cue>, minimumDelayMs: real, disagreed: nat)

  /** The inner loop: skip to the newest endpoint that has already arrived. */
  method NextIndex(endpoints: seq<int>, rate: int, index: nat, availableMs: real) returns (next: nat)
    requires 0 < rate && index + 1 < |endpoints|
    ensures Newest(endpoints, rate, index, availableMs, next)
  {
    next := index + 1;
    while next + 1 < |endpoints| && Ms(endpoints[next + 1], rate) <= availableMs
      invariant index < next < |endpoints|
      invariant index + 1 < next ==> Ms(endpoints[next], rate) <= availableMs
    {
      next := next + 1;
    }
  }

  /** The next pass is to take endpoint `index`, with the server free at `availableMs`. */
  ghost predicate Poised(plan: Plan, ticks: seq<Tick>, index: nat, availableMs: real)
    requires plan.Valid()
  {
    && index < |plan.Endpoints()|
    && (ticks == [] ==> index == 0 && availableMs == 0.0)
    && (ticks != [] ==>
          && availableMs == ticks[|ticks| - 1].finishMs
          && Newest(plan.Endpoints(), plan.rate, ticks[|ticks| - 1].index, availableMs, index))
  }

  /** One pass later: the schedule grows by the tick just made. */
  lemma NextTick(plan: Plan, rec: Recognizer, ticks: seq<Tick>, index: nat, availableMs: real)
    requires plan.Valid() && Schedule(plan, rec, ticks) && Poised(plan, ticks, index, availableMs)
    ensures Schedule(plan, rec, ticks + [TickAt(plan, rec, index, availableMs, |ticks|)])
  {
    if ticks != [] {
      ExtendSchedule(plan, rec, ticks, index);
    }
  }

  lemma {:induction false} NextProvenance(rec: Recognizer, ticks: seq<Tick>, t: Tick, s: LedgerState, cues: seq<Cue>)
    requires ValidState(s) && s.generation == 1 && !s.cancelled && s.committed == CommittedBefore(ticks, |ticks|)
    requires Provenance(rec, ticks, Frames(s.cues))
    requires PassResult(rec, t, |ticks|).Success? && PassResult(rec, t, |ticks|).value.cues == cues
    requires AcceptOutcome(s, 1, cues, t.watermark).Success?
    ensures var after := AcceptState(s, 1, cues, t.watermark);
      after.committed == t.watermark && Provenance(rec, ticks + [t], Frames(after.cues))
  {
    var after, longer := AcceptState(s, 1, cues, t.watermark), ticks + [t];
    AcceptedPass(rec, ticks, t, s, cues);
    forall k | 0 <= k < |longer|
      ensures PassAccepted(rec, longer, k) && PassProvenance(rec, longer, k, Frames(after.cues))
    {
      if k < |ticks| {
        OlderPass(rec, ticks, t, k, Frames(s.cues), Frames(after.cues));
      }
    }
  }

  lemma OlderPass(rec: Recognizer, ticks: seq<Tick>, t: Tick, k: nat, frames: seq<Shape>, more: seq<Shape>)
    requires k < |ticks| && PassProvenance(rec, ticks, k, frames) && frames <= more
    ensures PassProvenance(rec, ticks + [t], k, more)
  {
    assert CommittedBefore(ticks + [t], k) == CommittedBefore(ticks, k);
    var a, b := CommittedBefore(ticks, k), ticks[k].watermark;
    assert frames[a..b] == more[a..b];
  }

  lemma AcceptedPass(rec: Recognizer, ticks: seq<Tick>, t: Tick, s: LedgerState, cues: seq<Cue>)
    requires ValidState(s) && s.generation == 1 && !s.cancelled && s.committed == CommittedBefore(ticks, |ticks|)
    requires PassResult(rec, t, |ticks|).Success? && PassResult(rec, t, |ticks|).value.cues == cues
    requires AcceptOutcome(s, 1, cues, t.watermark).Success?
    ensures var after := AcceptState(s, 1, cues, t.watermark);
      && after.committed == t.watermark == |Frames(after.cues)| && Frames(s.cues) <= Frames(after.cues)
      && PassProvenance(rec, ticks + [t], |ticks|, Frames(after.cues))
  {
    AcceptedFrames(s, cues, t.watermark);
    NewestPass(rec, ticks, t, Frames(s.cues), Frames(AcceptState(s, 1, cues, t.watermark).cues), cues);
  }

  lemma NewestPass(
    rec: Recognizer, ticks: seq<Tick>, t: Tick, before: seq<Shape>, after: seq<Shape>, cues: seq<Cue>)
    requires |before| == CommittedBefore(ticks, |ticks|) <= t.watermark == |after|
    requires PassResult(rec, t, |ticks|).Success? && PassResult(rec, t, |ticks|).value.cues == cues
    requires |before| == t.watermark ==> after == before
    requires |before| < t.watermark ==>
      Covers(cues, |before|, t.watermark) && after == before + Span(cues, |before|, t.watermark)
    ensures before <= after && PassProvenance(rec, ticks + [t], |ticks|, after)
  {
    assert CommittedBefore(ticks + [t], |ticks|) == |before|;
  }

  lemma RefusedPass(rec: Recognizer, ticks: seq<Tick>, t: Tick, s: LedgerState)
    requires ValidState(s) && s.generation == 1 && !s.cancelled && s.committed == CommittedBefore(ticks, |ticks|)
    requires PassResult(rec, t, |ticks|).Success? ==>
             AcceptOutcome(s, 1, PassResult(rec, t, |ticks|).value.cues, t.watermark).Failure?
    ensures !AllAccepted(rec, ticks + [t])
  {
    var longer := ticks + [t];
    if PassResult(rec, t, |ticks|).Success? {
      FaultExact(PassResult(rec, t, |ticks|).value.cues);
    }
    assert !PassAccepted(rec, longer, |ticks|);
  }

  /** What holds of the log and the ledger between two passes. */
  ghost predicate Underway(rec: Recognizer, ticks: seq<Tick>, runs: seq<RecognitionRun>, s: LedgerState) {
    && ValidState(s) && s.generation == 1 && !s.cancelled && s.committed == CommittedBefore(ticks, |ticks|)
    && Provenance(rec, ticks, Frames(s.cues))
    && Logged(rec, ticks, runs) && AcceptedTotal(runs) == |s.cues|
  }

  /** The record of a pass, as it is appended to the log. */
  function RunOf(t: Tick, elapsedMs: real, accepted: int): RecognitionRun {
    RecognitionRun(t.prefixEnd, t.windowStart, RoundThousandths(elapsedMs), RoundThousandths(t.startMs),
                   RoundThousandths(t.finishMs), t.watermark, accepted)
  }

  lemma PassDone(rec: Recognizer, ticks: seq<Tick>, runs: seq<RecognitionRun>, s: LedgerState, t: Tick, pass: Pass)
    requires Underway(rec, ticks, runs, s)
    requires PassResult(rec, t, |ticks|) == Success(pass)
    requires AcceptOutcome(s, 1, pass.cues, t.watermark).Success?
    ensures var after := AcceptState(s, 1, pass.cues, t.watermark);
      && after.committed == t.watermark
      && Underway(rec, ticks + [t], runs + [RunOf(t, pass.elapsedMs, |after.cues| - |s.cues|)], after)
  {
    NextProvenance(rec, ticks, t, s, pass.cues);
    StepKeeps(s, Event.Accept(1, pass.cues, t.watermark));
    var run := RunOf(t, pass.elapsedMs, |AcceptState(s, 1, pass.cues, t.watermark).cues| - |s.cues|);
    assert (runs + [run])[..|runs|] == runs;
    forall k | 0 <= k <= |runs| ensures LoggedAt(rec, ticks + [t], runs + [run], k) {
      if k < |runs| { assert LoggedAt(rec, ticks, runs, k); }
    }
  }

  /** One pass: recognize the window, then commit what it gave. */
  method OnePass(plan: Plan, rec: Recognizer, ledger: ImmutableCueLedger, runs: seq<RecognitionRun>,
                 index: nat, availableMs: real, ghost ticks: seq<Tick>)
    returns (r: Result<(RecognitionRun, real), CueError>, ghost t: Tick)
    requires plan.Valid() && Poised(plan, ticks, index, availableMs)
    requires Underway(rec, ticks, runs, ledger.State())
    modifies ledger
    ensures t == TickAt(plan, rec, index, availableMs, |ticks|)
    ensures r.Success? ==> r.value.1 == t.finishMs && Underway(rec, ticks + [t], runs + [r.value.0], ledger.State())
    ensures r.Failure? ==> !AllAccepted(rec, ticks + [t])
  {
    var prefixEnd := plan.Endpoints()[index];
    var arrivalMs := Ms(prefixEnd, plan.rate);
    var virtualStartMs := MaxReal(arrivalMs, availableMs);
    var windowStart := if plan.rolling then Max(0, prefixEnd - plan.window) else 0;
    var pass := rec(windowStart, prefixEnd, |runs|);
    t := TickAt(plan, rec, index, availableMs, |ticks|);
    if pass.Failure? {
      RefusedPass(rec, ticks, t, ledger.State());
      return Failure(pass.error), t;
    }
    var virtualFinishMs := virtualStartMs + pass.value.elapsedMs;
    var final := prefixEnd == plan.total;
    var watermark := if final then plan.total else Max(0, prefixEnd - plan.holdback);
    var run := CommitPass(rec, ledger, runs, prefixEnd, windowStart, watermark, virtualStartMs, virtualFinishMs,
                          pass.value, ticks, t);
    if run.Failure? {
      return Failure(run.error), t;
    }
    return Success((run.value, virtualFinishMs)), t;
  }

  /** Commit a recognized pass up to its watermark and make its log record. */
  method CommitPass(ghost rec: Recognizer, ledger: ImmutableCueLedger, ghost runs: seq<RecognitionRun>,
                    prefixEnd: int, windowStart: int, watermark: int, virtualStartMs: real, virtualFinishMs: real,
                    pass: Pass, ghost ticks: seq<Tick>, ghost t: Tick)
    returns (r: Result<RecognitionRun, CueError>)
    requires Underway(rec, ticks, runs, ledger.State()) && PassResult(rec, t, |ticks|) == Success(pass)
    requires t.prefixEnd == prefixEnd && t.windowStart == windowStart && t.watermark == watermark
    requires t.startMs == virtualStartMs && t.finishMs == virtualFinishMs
    modifies ledger
    ensures r.Success? ==> Underway(rec, ticks + [t], runs + [r.value], ledger.State())
    ensures r.Failure? ==> !AllAccepted(rec, ticks + [t])
  {
    ghost var state := ledger.State();
    var before := |ledger.cues|;
    var accepted := ledger.Accept(1, pass.cues, watermark);
    if accepted.Failure? {
      RefusedPass(rec, ticks, t, state);
      return Failure(accepted.error);
    }
    assert accepted.value;  // the ledger is live, so "rejected" cannot happen
    PassDone(rec, ticks, runs, state, t, pass);
    return Success(RecognitionRun(
      prefixEnd, windowStart, RoundThousandths(pass.elapsedMs), RoundThousandths(virtualStartMs),
      RoundThousandths(virtualFinishMs), ledger.committed, |ledger.cues| - before));
  }

  /** What the ledger and the log hold once the last pass is done. */
  lemma {:induction false} PassesDone(
    plan: Plan, rec: Recognizer, ticks: seq<Tick>, runs: seq<RecognitionRun>, s: LedgerState)
    requires plan.Valid() && Schedule(plan, rec, ticks) && ticks != [] && ticks[|ticks| - 1].prefixEnd == plan.total
    requires Underway(rec, ticks, runs, s)
    ensures AllAccepted(rec, ticks) && RunLength(s.cues, plan.total) && Known(s.cues)
    ensures Provenance(rec, ticks, Frames(s.cues)) && Logged(rec, ticks, runs) && AcceptedTotal(runs) == |s.cues|
  {
    TickShape(plan, rec, ticks, |ticks| - 1);
  }

  lemma LastEndpoint(plan: Plan)
    requires plan.Valid()
    ensures var es := plan.Endpoints(); es != [] && es[|es| - 1] == plan.total
  {
    PlanEndpoints(plan);
  }

  /** The passes of a benchmark: the loop of `benchmark_strategy`. */
  method RunPasses(plan: Plan, rec: Recognizer)
    returns (r: Result<(seq<RecognitionRun>, seq<Cue>), CueError>, ghost ticks: seq<Tick>)
    requires plan.Valid()
    ensures Schedule(plan, rec, ticks) && ticks != []
    ensures r.Success? <==> AllAccepted(rec, ticks)
    ensures r.Success? ==>
      && ticks[|ticks| - 1].prefixEnd == plan.total
      && RunLength(r.value.1, plan.total) && Known(r.value.1)
      && Provenance(rec, ticks, Frames(r.value.1))
      && Logged(rec, ticks, r.value.0) && AcceptedTotal(r.value.0) == |r.value.1|
  {
    LastEndpoint(plan);
    var endpoints := plan.Endpoints();
    var ledger := new ImmutableCueLedger(1);
    var runs: seq<RecognitionRun> := [];
    var availableMs, index := 0.0, 0;
    ticks := [];
    while true
      invariant fresh(ledger) && index < |endpoints|
      invariant Schedule(plan, rec, ticks) && Poised(plan, ticks, index, availableMs)
      invariant Underway(rec, ticks, runs, ledger.State())
      decreases |endpoints| - index
    {
      NextTick(plan, rec, ticks, index, availableMs);
      var pass, t := OnePass(plan, rec, ledger, runs, index, availableMs, ticks);
      ticks := ticks + [t];
      if pass.Failure? {
        return Failure(pass.error), ticks;
      }
      runs := runs + [pass.value.0];
      availableMs := pass.value.1;
      if endpoints[index] == plan.total {
        PassesDone(plan, rec, ticks, runs, ledger.State());
        return Success((runs, ledger.cues)), ticks;
      }
      index := NextIndex(endpoints, plan.rate, index, availableMs);
    }
  }

  /** The baseline is one contiguous timeline of the whole audio. */
  predicate FullPass(baseline: seq<Cue>, total: int) {
    Contiguous(baseline) && First(baseline) == 0 && End(baseline) == total
  }

  /** What a successful benchmark reports about its own run. */
  ghost predicate Reports(plan: Plan, rec: Recognizer, ticks: seq<Tick>, baseline: seq<Cue>, report: StrategyReport)
    requires plan.Valid()
  {
    && RunLength(report.cues, plan.total) && Contiguous(report.cues)
    && Provenance(rec, ticks, Frames(report.cues))
    && Logged(rec, ticks, report.runs) && RunLog(report.runs, plan.total)
    && AcceptedTotal(report.runs) == |report.cues|
    && FullPass(baseline, plan.total) && report.disagreed == Disagreeing(report.cues, baseline)
    && exists least :: LargestDemand(report.runs, plan.rate, least) && report.minimumDelayMs == RoundThousandths(least)
  }

  /** `round(ms * rate / 1000)`. */
  ghost predicate RoundsTo(frames: int, ms: int, rate: int) {
    frames == RoundHalfEven((ms * rate) as real / 1000.0)
  }

  /** The window and the commit of a run, as the durations of the command line give them: the growing
      strategy always starts at 0, the rolling one a window before the prefix ends, and all but the
      held-back frames are committed until the final prefix commits everything. */
  ghost predicate RunAsConfigured(strategy: string, config: Config, rate: int, total: int, run: RecognitionRun) {
    && (strategy == GROWING_PREFIX ==> run.windowStart == 0)
    && (strategy == ROLLING_WINDOW ==>
          forall w :: RoundsTo(w, config.windowMs, rate) ==> run.windowStart == Max(0, run.prefixEnd - w))
    && (run.prefixEnd == total ==> run.committedUntil == total)
    && (run.prefixEnd != total ==>
          forall h :: RoundsTo(h, config.holdbackMs, rate) ==> run.committedUntil == Max(0, run.prefixEnd - h))
  }

  /** Prefixes start at the initial duration, grow by whole cadence steps, and end at the total. */
  ghost predicate PrefixesAsConfigured(config: Config, rate: int, total: int, runs: seq<RecognitionRun>) {
    var initial := Max(1, RoundHalfEven((config.initialMs * rate) as real / 1000.0));
    var step := Max(1, RoundHalfEven((config.cadenceMs * rate) as real / 1000.0));
    && runs != [] && runs[0].prefixEnd == Min(total, initial) && runs[|runs| - 1].prefixEnd == total
    && (forall k :: 0 <= k < |runs| - 1 ==> initial <= runs[k].prefixEnd < total)
    && (forall k :: 0 <= k < |runs| - 1 ==> (runs[k].prefixEnd - initial) % step == 0)
  }

  /** On the unrounded clock a pass starts when its audio is there and the pass before it is done, and
      takes as long as the recognizer; the log keeps these times to the thousandth. */
  ghost predicate OnTheClock(rate: int, rec: Recognizer, ticks: seq<Tick>, runs: seq<RecognitionRun>, k: nat)
    requires 0 < rate && k < |ticks| == |runs|
  {
    var arrival := runs[k].prefixEnd as real * 1000.0 / rate as real;
    var pass := rec(runs[k].windowStart, runs[k].prefixEnd, k);
    && ticks[k].startMs == (if k == 0 then MaxReal(arrival, 0.0) else MaxReal(arrival, ticks[k - 1].finishMs))
    && pass.Success? && ticks[k].finishMs == ticks[k].startMs + pass.value.elapsedMs
    && runs[k].elapsedMs == RoundThousandths(pass.value.elapsedMs)
    && runs[k].virtualStartMs == RoundThousandths(ticks[k].startMs)
    && runs[k].virtualFinishMs == RoundThousandths(ticks[k].finishMs)
  }

  /** The log is that of this strategy, these durations and this recognizer. */
  ghost predicate LogAsConfigured(strategy: string, config: Config, rate: int, total: int, rec: Recognizer,
                                  ticks: seq<Tick>, runs: seq<RecognitionRun>)
    requires 0 < rate
  {
    && |ticks| == |runs| && PrefixesAsConfigured(config, rate, total, runs)
    && (forall k :: 0 <= k < |runs| ==> RunAsConfigured(strategy, config, rate, total, runs[k]))
    && (forall k :: 0 <= k < |runs| ==> OnTheClock(rate, rec, ticks, runs, k))
  }

  lemma PrefixesFollow(
    strategy: string, config: Config, rate: int, total: int, rec: Recognizer, ticks: seq<Tick>,
    runs: seq<RecognitionRun>)
    requires config.Valid() && 0 < rate && 0 <= total && Forward(rec, total)
    requires var plan := PlanOf(strategy, config, rate, total);
      Schedule(plan, rec, ticks) && ticks != [] && ticks[|ticks| - 1].prefixEnd == total
    requires Logged(rec, ticks, runs)
    ensures PrefixesAsConfigured(config, rate, total, runs)
  {
    var plan := PlanOf(strategy, config, rate, total);
    PlanEndpoints(plan);
    forall k | 0 <= k < |runs|
      ensures runs[k].prefixEnd == ticks[k].prefixEnd
      ensures k < |runs| - 1 ==> plan.initial <= ticks[k].prefixEnd < total
      ensures k < |runs| - 1 ==> (ticks[k].prefixEnd - plan.initial) % plan.step == 0
    {
      assert LoggedAt(rec, ticks, runs, k);
      if k < |runs| - 1 {
        OnTheGrid(plan, rec, ticks, k);
      }
    }
  }

  lemma OnTheGrid(plan: Plan, rec: Recognizer, ticks: seq<Tick>, k: nat)
    requires plan.Valid() && Forward(rec, plan.total) && Schedule(plan, rec, ticks) && k + 1 < |ticks|
    ensures plan.initial <= ticks[k].prefixEnd < plan.total && (ticks[k].prefixEnd - plan.initial) % plan.step == 0
  {
    TickShape(plan, rec, ticks, k);
    StepsForward(plan, rec, ticks, k + 1);
    PlanEndpoints(plan);
    var i := ticks[k].index;
    assert ticks[k].prefixEnd == plan.initial + i * plan.step;
    WholeSteps(i, plan.step);
  }

  lemma WholeSteps(i: nat, step: int)
    requires 0 < step
    ensures 0 <= i * step && i * step % step == 0
  {
    var q, r := i * step / step, i * step % step;
    assert i * step == q * step + r;
    ProductsOrdered(0, i, step);
    ProductsOrdered(q + 1, i, step);
    ProductsOrdered(i, q, step);
    ProductsOrdered(q, q, step);
  }

  lemma RunFollows(plan: Plan, strategy: string, config: Config, rec: Recognizer, ticks: seq<Tick>,
                   runs: seq<RecognitionRun>, k: nat)
    requires config.Valid() && plan.Valid() && plan == PlanOf(strategy, config, plan.rate, plan.total)
    requires Schedule(plan, rec, ticks) && AllAccepted(rec, ticks) && Logged(rec, ticks, runs) && k < |runs|
    ensures RunAsConfigured(strategy, config, plan.rate, plan.total, runs[k])
    ensures OnTheClock(plan.rate, rec, ticks, runs, k)
  {
    assert LoggedAt(rec, ticks, runs, k) && PassAccepted(rec, ticks, k);
    TickShape(plan, rec, ticks, k);
    if k > 0 {
      assert FollowsOn(plan, rec, ticks, k);
    }
  }

  /** The log of a completed schedule follows the configuration. */
  lemma LogFollows(
    strategy: string, config: Config, rate: int, total: int, rec: Recognizer, ticks: seq<Tick>,
    runs: seq<RecognitionRun>)
    requires config.Valid() && 0 < rate && 0 <= total && Forward(rec, total)
    requires var plan := PlanOf(strategy, config, rate, total);
      Schedule(plan, rec, ticks) && Completed(plan, rec, ticks)
    requires Logged(rec, ticks, runs)
    ensures LogAsConfigured(strategy, config, rate, total, rec, ticks, runs)
  {
    var plan := PlanOf(strategy, config, rate, total);
    PrefixesFollow(strategy, config, rate, total, rec, ticks, runs);
    forall k | 0 <= k < |runs|
      ensures RunAsConfigured(strategy, config, rate, total, runs[k]) && OnTheClock(rate, rec, ticks, runs, k)
    {
      RunFollows(plan, strategy, config, rec, ticks, runs, k);
    }
  }

  method BenchmarkStrategy(strategy: string, config: Config, rate: int, total: int, rec: Recognizer, baseline: seq<Cue>)
    returns (r: Result<StrategyReport, CueError>, ghost ticks: seq<Tick>)
    requires config.Valid() && 0 < rate && 0 <= total && Forward(rec, total)
    ensures strategy !in {GROWING_PREFIX, ROLLING_WINDOW} ==> r == Failure(UnknownStrategy)
    ensures strategy in {GROWING_PREFIX, ROLLING_WINDOW} ==>
      var plan := PlanOf(strategy, config, rate, total);
      && Schedule(plan, rec, ticks)
      && (r.Success? <==> Completed(plan, rec, ticks) && FullPass(baseline, total))
      && (r.Success? ==> Reports(plan, rec, ticks, baseline, r.value))
      && (Dependable(plan, rec) && FullPass(baseline, total) ==> r.Success?)
    ensures r.Success? ==> LogAsConfigured(strategy, config, rate, total, rec, ticks, r.value.runs)
  {
    ticks := [];
    if strategy != GROWING_PREFIX && strategy != ROLLING_WINDOW {
      return Failure(UnknownStrategy), ticks;
    }
    var plan := PlanOf(strategy, config, rate, total);
    var passes;
    passes, ticks := RunPasses(plan, rec);
    if Dependable(plan, rec) {
      DependablePassesAccepted(plan, rec, ticks);
    }
    if passes.Failure? {
      return Failure(passes.error), ticks;
    }
    var (runs, cues) := passes.value;
    r := Finish(plan, rec, runs, cues, baseline, ticks);
    if r.Success? {
      LogFollows(strategy, config, rate, total, rec, ticks, runs);
    }
  }

  /** Everything after the loop: coverage checks, comparison, delay. */
  method Finish(plan: Plan, ghost rec: Recognizer, runs: seq<RecognitionRun>, cues: seq<Cue>, baseline: seq<Cue>,
                ghost ticks: seq<Tick>)
    returns (r: Result<StrategyReport, CueError>)
    requires plan.Valid() && Forward(rec, plan.total) && Schedule(plan, rec, ticks) && ticks != []
    requires AllAccepted(rec, ticks) && ticks[|ticks| - 1].prefixEnd == plan.total
    requires RunLength(cues, plan.total) && Known(cues) && Provenance(rec, ticks, Frames(cues))
    requires Logged(rec, ticks, runs) && AcceptedTotal(runs) == |cues|
    ensures r.Success? <==> 0 < plan.total && FullPass(baseline, plan.total)
    ensures r.Success? ==> Reports(plan, rec, ticks, baseline, r.value) && r.value.runs == runs
  {
    var fault := ValidateContiguous(cues);
    if fault.Some? {
      return Failure(fault.value);
    }
    if cues[0].start != 0 || cues[|cues| - 1].end != plan.total {
      return Failure(InexactCoverage);
    }
    var disagreed := DisagreementFrames(cues, baseline);
    if disagreed.Failure? {
      return Failure(disagreed.error);
    }
    CompletedLog(plan, rec, ticks, runs);
    var delay := SafePlaybackStart(runs, plan.rate);
    return Success(StrategyReport(runs, cues, RoundThousandths(delay.value), disagreed.value));
  }

  // ----------------------------------------------------- what the report means

  /** A recognizer that hears every window of the audio `truth` the same way. */
  ghost predicate HearsTruth(rec: Recognizer, truth: seq<Shape>) {
    forall a, b, k :: 0 <= a < b <= |truth| ==> rec(a, b, k).Success? && Shows(rec(a, b, k).value.cues, truth, a, b)
  }

  /** `cues` is a timeline of frames `a` to `b` that shows the truth there. */
  ghost predicate Shows(cues: seq<Cue>, truth: seq<Shape>, a: int, b: int)
    requires 0 <= a < b <= |truth|
  {
    Contiguous(cues) && First(cues) == a && End(cues) == b && Frames(cues) == truth[a..b]
  }

  lemma SpanOfTruth(cues: seq<Cue>, truth: seq<Shape>, a: int, b: int, from: int, to: int)
    requires 0 <= a <= from <= to <= b <= |truth| && a < b && Shows(cues, truth, a, b)
    ensures Span(cues, from, to) == truth[from..to]
  {
    FramesLength(cues);
    var window := truth[a..b];
    assert forall i :: 0 <= i < to - from ==> window[from - a..to - a][i] == truth[from..to][i];
  }

  /** If recognition does not depend on the window, neither strategy changes the
      result: the ledger is the run-length form of the truth. */
  lemma {:induction false} StableRecognitionIsReproduced(
    plan: Plan, rec: Recognizer, ticks: seq<Tick>, cues: seq<Cue>, truth: seq<Shape>)
    requires plan.Valid() && Forward(rec, plan.total) && HearsTruth(rec, truth) && |truth| == plan.total
    requires 0 < plan.total && (plan.rolling ==> 0 < plan.window)
    requires Schedule(plan, rec, ticks) && Completed(plan, rec, ticks)
    requires RunLength(cues, plan.total) && Provenance(rec, ticks, Frames(cues))
    ensures Frames(cues) == truth && cues == Encode(truth)
  {
    FramesLength(cues);
    FramesAreTruth(plan, rec, ticks, Frames(cues), truth);
    EncodeCanonical(cues, plan.total);
  }

  lemma FramesAreTruth(plan: Plan, rec: Recognizer, ticks: seq<Tick>, frames: seq<Shape>, truth: seq<Shape>)
    requires plan.Valid() && Forward(rec, plan.total) && HearsTruth(rec, truth)
    requires |frames| == |truth| == plan.total && 0 < plan.total && (plan.rolling ==> 0 < plan.window)
    requires Schedule(plan, rec, ticks) && Completed(plan, rec, ticks) && Provenance(rec, ticks, frames)
    ensures frames == truth
  {
    forall k | 0 <= k < |ticks| ensures Agrees(ticks, frames, truth, k) {
      PassHearsTruth(plan, rec, ticks, frames, truth, k);
    }
    TickShape(plan, rec, ticks, |ticks| - 1);
    CommitsCompose(ticks, frames, truth, |ticks|);
    assert frames[..plan.total] == frames && truth[..plan.total] == truth;
  }

  /** On the frames that pass `k` committed, `frames` and `truth` agree. */
  ghost predicate Agrees(ticks: seq<Tick>, frames: seq<Shape>, truth: seq<Shape>, k: nat)
    requires k < |ticks|
  {
    var a, b := CommittedBefore(ticks, k), ticks[k].watermark;
    0 <= a <= b <= |truth| && b <= |frames| && frames[a..b] == truth[a..b]
  }

  lemma PassHearsTruth(plan: Plan, rec: Recognizer, ticks: seq<Tick>, frames: seq<Shape>, truth: seq<Shape>, k: nat)
    requires plan.Valid() && Forward(rec, plan.total) && HearsTruth(rec, truth) && |truth| == plan.total
    requires 0 < plan.total && (plan.rolling ==> 0 < plan.window)
    requires Schedule(plan, rec, ticks) && k < |ticks| && PassProvenance(rec, ticks, k, frames)
    ensures Agrees(ticks, frames, truth, k)
  {
    TickShape(plan, rec, ticks, k);
    PlanEndpoints(plan);
    var t := ticks[k];
    assert 0 <= t.windowStart < t.prefixEnd <= |truth|;
    var a, b := CommittedBefore(ticks, k), t.watermark;
    if a < b {
      SpanOfTruth(PassResult(rec, t, k).value.cues, truth, t.windowStart, t.prefixEnd, a, b);
    }
  }

  lemma {:induction false} CommitsCompose(ticks: seq<Tick>, frames: seq<Shape>, truth: seq<Shape>, n: nat)
    requires n <= |ticks| && |frames| == |truth|
    requires forall k :: 0 <= k < |ticks| ==> Agrees(ticks, frames, truth, k)
    ensures 0 <= CommittedBefore(ticks, n) <= |truth|
    ensures frames[..CommittedBefore(ticks, n)] == truth[..CommittedBefore(ticks, n)]
  {
    if n > 0 {
      CommitsCompose(ticks, frames, truth, n - 1);
      assert Agrees(ticks, frames, truth, n - 1);
      var a, b := CommittedBefore(ticks, n - 1), ticks[n - 1].watermark;
      assert frames[..b] == frames[..a] + frames[a..b];
      assert truth[..b] == truth[..a] + truth[a..b];
    }
  }

  /** With the default durations a pass may take `n` frames and not a moment more, where `n` is
      two seconds and at most two frames: 2000 ms are safe at every rate. */
  lemma DefaultBudget(rate: int, total: int, budgetMs: real)
    requires 0 < rate && 0 <= total
    ensures var plan := PlanOf(ROLLING_WINDOW, Config(500, 250, 2500, 250), rate, total);
      var n := plan.window - plan.holdback - plan.step + 1;
      && (SafeBudget(plan, budgetMs) <==> budgetMs <= Ms(n, rate))
      && 2 * rate <= n <= 2 * rate + 2 && (rate % 4 == 0 ==> n == 2 * rate + 1)
      && 2000.0 <= Ms(n, rate) <= 2000.0 + Ms(2, rate)
  {
    var plan := PlanOf(ROLLING_WINDOW, Config(500, 250, 2500, 250), rate, total);
    DefaultFrames(rate);
    DefaultRoom(rate, DurationFrames(500, rate), DurationFrames(250, rate), DurationFrames(2500, rate));
    var n := plan.window - plan.holdback - plan.step + 1;
    LargestSafeBudget(plan, budgetMs, n);
    TwoSecondsAndMore(n, rate);
  }

  lemma DefaultRoom(rate: int, initial: int, step: int, window: int)
    requires 0 < rate && -2 <= 4 * step - rate <= 2
    requires -1 <= 2 * initial - rate <= 1 && -1 <= 2 * window - 5 * rate <= 1
    ensures var n := window - step - Max(1, step) + 1;
      && 2 * rate <= n <= 2 * rate + 2 && (rate % 4 == 0 ==> n == 2 * rate + 1)
      && Max(1, initial) <= window && Max(1, step) <= n
  {
    if rate % 4 == 0 {
      WholeQuarter(rate / 4, step, window);
    }
  }

  lemma WholeQuarter(q: int, step: int, window: int)
    requires 0 < q && -2 <= 4 * step - 4 * q <= 2 && -1 <= 2 * window - 20 * q <= 1
    ensures step == q && window == 10 * q
  {
  }

  /** Where a window has room for two steps, the largest safe budget is the room beyond one step. */
  lemma LargestSafeBudget(plan: Plan, budgetMs: real, n: int)
    requires plan.Valid() && plan.initial <= plan.window && plan.step <= n
    requires n == plan.window - plan.holdback - plan.step + 1
    ensures SafeBudget(plan, budgetMs) <==> budgetMs <= Ms(n, plan.rate)
  {
    MsAdd(plan.step, n, plan.rate);
    MsMonotone(plan.step, n, plan.rate);
  }

  lemma TwoSecondsAndMore(n: int, rate: int)
    requires 0 < rate && 2 * rate <= n <= 2 * rate + 2
    ensures 2000.0 <= Ms(n, rate) <= 2000.0 + Ms(2, rate)
  {
    TwoSeconds(rate);
    MsMonotone(2 * rate, n, rate);
    MsMonotone(n, 2 * rate + 2, rate);
    MsAdd(2 * rate, 2, rate);
  }

  lemma TwoSeconds(rate: int)
    requires 0 < rate
    ensures Ms(2 * rate, rate) == 2000.0
  {
    var r := rate as real;
    assert (2 * rate) as real * 1000.0 == 2000.0 * r;
    assert 2000.0 * r / r == 2000.0;
  }

  lemma DefaultFrames(rate: int)
    requires 0 < rate
    ensures -2 <= 4 * DurationFrames(250, rate) - rate <= 2
    ensures -1 <= 2 * DurationFrames(500, rate) - rate <= 1
    ensures -1 <= 2 * DurationFrames(2500, rate) - 5 * rate <= 1
  {
    assert (500 * rate) as real / 1000.0 == rate as real * 0.5;
    assert (250 * rate) as real / 1000.0 == rate as real * 0.25;
    assert (2500 * rate) as real / 1000.0 == rate as real * 2.5;
  }
}
