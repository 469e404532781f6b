/** What the delay in a report is worth on the unrounded clock. */
module ReportedDelay {
  import opened Numeric
  import opened CueTimeline
  import opened Disagreement
  import opened Playback
  import opened PrefixSchedule
  import opened RollingBound
  import opened Strategy

  /** The log with its finish times unrounded. */
  function Unrounded(ticks: seq<Tick>, runs: seq<RecognitionRun>): (exact: seq<RecognitionRun>)
    requires |runs| == |ticks|
    ensures |exact| == |runs|
    ensures forall k :: 0 <= k < |runs| ==> exact[k] == runs[k].(virtualFinishMs := ticks[k].finishMs)
  {
    seq(|runs|, k requires 0 <= k < |runs| => runs[k].(virtualFinishMs := ticks[k].finishMs))
  }

  lemma UnroundedLog(plan: Plan, rec: Recognizer, ticks: seq<Tick>, runs: seq<RecognitionRun>)
    requires plan.Valid() && Forward(rec, plan.total) && Schedule(plan, rec, ticks)
    requires Logged(rec, ticks, runs) && RunLog(runs, plan.total)
    ensures RunLog(Unrounded(ticks, runs), plan.total)
  {
    var exact := Unrounded(ticks, runs);
    forall i, k | 0 <= i <= k < |exact|
      ensures exact[i].committedUntil <= exact[k].committedUntil && exact[i].virtualFinishMs <= exact[k].virtualFinishMs
    {
      assert LoggedAt(rec, ticks, runs, i) && LoggedAt(rec, ticks, runs, k);
      RunsForward(plan, rec, ticks, i, k);
    }
  }

  lemma LogIsClose(rec: Recognizer, ticks: seq<Tick>, runs: seq<RecognitionRun>)
    requires Logged(rec, ticks, runs)
    ensures FinishesWithin(Unrounded(ticks, runs), runs, 0.0005)
  {
    forall k | 0 <= k < |runs| ensures -0.0005 <= ticks[k].finishMs - runs[k].virtualFinishMs <= 0.0005 {
      assert LoggedAt(rec, ticks, runs, k);
    }
  }

  /** The least safe delay on the real clock is within 0.001 ms of the reported one. */
  lemma ReportIsClose(plan: Plan, rec: Recognizer, ticks: seq<Tick>, baseline: seq<Cue>, report: StrategyReport)
    returns (least: real)
    requires plan.Valid() && Reports(plan, rec, ticks, baseline, report)
    ensures LargestDemand(Unrounded(ticks, report.runs), plan.rate, least)
    ensures -0.001 <= report.minimumDelayMs - least <= 0.001
  {
    var exact := Unrounded(ticks, report.runs);
    LogIsClose(rec, ticks, report.runs);
    var logged :| LargestDemand(report.runs, plan.rate, logged) && report.minimumDelayMs == RoundThousandths(logged);
    least := TrueDelay(exact, plan.rate, |exact|);
    ReportedDelayIsClose(exact, report.runs, plan.rate, least, logged);
  }

  /** Started at the reported delay plus 0.001 ms, playback reaches no frame
      before the pass that committed it has really finished; started more than
      0.001 ms earlier than the reported delay, it reaches one too soon. */
  lemma ReportedDelayOnTheRealClock(
    plan: Plan, rec: Recognizer, ticks: seq<Tick>, baseline: seq<Cue>, report: StrategyReport, delay: real)
    requires plan.Valid() && Forward(rec, plan.total) && Schedule(plan, rec, ticks)
    requires Reports(plan, rec, ticks, baseline, report)
    ensures var exact := Unrounded(ticks, report.runs);
      && (report.minimumDelayMs + 0.001 <= delay ==> NoUnderrun(exact, plan.rate, plan.total, delay))
      && (delay < report.minimumDelayMs - 0.001 ==> !NoUnderrun(exact, plan.rate, plan.total, delay))
  {
    UnroundedLog(plan, rec, ticks, report.runs);
    var least := ReportIsClose(plan, rec, ticks, baseline, report);
    DelayIsLeast(Unrounded(ticks, report.runs), plan.rate, plan.total, least, delay);
  }

  // ------------------------------------------------------------ when it is exact

  /** On the unrounded clock exactly the delays from the reported one upward are safe. */
  ghost predicate ReportIsLeastSafe(plan: Plan, ticks: seq<Tick>, report: StrategyReport)
    requires plan.Valid() && |report.runs| == |ticks|
  {
    forall delay :: report.minimumDelayMs <= delay <==>
      NoUnderrun(Unrounded(ticks, report.runs), plan.rate, plan.total, delay)
  }

  lemma LeastSafeExactly(
    plan: Plan, rec: Recognizer, ticks: seq<Tick>, baseline: seq<Cue>, report: StrategyReport, least: real)
    requires plan.Valid() && Forward(rec, plan.total) && Schedule(plan, rec, ticks)
    requires Reports(plan, rec, ticks, baseline, report)
    requires LargestDemand(Unrounded(ticks, report.runs), plan.rate, least)
    ensures ReportIsLeastSafe(plan, ticks, report) <==> report.minimumDelayMs == least
  {
    var exact := Unrounded(ticks, report.runs);
    UnroundedLog(plan, rec, ticks, report.runs);
    forall delay ensures least <= delay <==> NoUnderrun(exact, plan.rate, plan.total, delay) {
      DelayIsLeast(exact, plan.rate, plan.total, least, delay);
    }
    assert NoUnderrun(exact, plan.rate, plan.total, least);
    assert NoUnderrun(exact, plan.rate, plan.total, report.minimumDelayMs) <==> least <= report.minimumDelayMs;
  }

  /** The report is the rounded delay of the log, which is within 0.0005 ms of the least safe one. */
  lemma LoggedDelay(plan: Plan, rec: Recognizer, ticks: seq<Tick>, baseline: seq<Cue>, report: StrategyReport,
                    logged: real, least: real)
    requires plan.Valid() && Reports(plan, rec, ticks, baseline, report)
    requires LargestDemand(report.runs, plan.rate, logged)
    requires LargestDemand(Unrounded(ticks, report.runs), plan.rate, least)
    ensures report.minimumDelayMs == RoundThousandths(logged) && -0.0005 <= logged - least <= 0.0005
  {
    var x :| LargestDemand(report.runs, plan.rate, x) && report.minimumDelayMs == RoundThousandths(x);
    LargestDemandUnique(report.runs, plan.rate, x, logged);
    LogIsClose(rec, ticks, report.runs);
    LoggedDelayIsClose(Unrounded(ticks, report.runs), report.runs, plan.rate, 0.0005, least, logged);
  }

  /** In every run: the reported delay is the least safe one exactly if the least safe one is a whole
      number of thousandths, and the log is off by less than half a thousandth or that number is even. */
  lemma ReportedDelayIsExact(plan: Plan, rec: Recognizer, ticks: seq<Tick>, baseline: seq<Cue>, report: StrategyReport,
                             logged: real, least: real)
    requires plan.Valid() && Forward(rec, plan.total) && Schedule(plan, rec, ticks)
    requires Reports(plan, rec, ticks, baseline, report)
    requires LargestDemand(report.runs, plan.rate, logged)
    requires LargestDemand(Unrounded(ticks, report.runs), plan.rate, least)
    ensures ReportIsLeastSafe(plan, ticks, report) <==>
      WholeThousandths(least) && (-0.0005 < logged - least < 0.0005 || EvenThousandths(least))
  {
    LeastSafeExactly(plan, rec, ticks, baseline, report, least);
    LoggedDelay(plan, rec, ticks, baseline, report, logged, least);
    RoundedIsWhole(logged);
    if WholeThousandths(least) {
      RoundsToWhole(logged, least);
    }
  }

  /** Nothing lies midway: the horizon that pass `k` has to meet is a whole number of
      thousandths, or its finish time is not midway between two of them. */
  ghost predicate SteadyAt(ticks: seq<Tick>, rate: int, k: nat)
    requires 0 < rate && k < |ticks|
  {
    k == 0 || WholeThousandths(Ms(ticks[k - 1].watermark, rate)) || !HalfThousandth(ticks[k].finishMs)
  }

  ghost predicate Steady(ticks: seq<Tick>, rate: int)
    requires 0 < rate
  {
    forall k :: 0 <= k < |ticks| ==> SteadyAt(ticks, rate, k)
  }

  lemma WholeMoves(finish: real, horizon: real, least: real)
    requires WholeThousandths(horizon) && WholeThousandths(least)
    ensures finish - horizon <= least ==> RoundThousandths(finish) - horizon <= least
    ensures finish - horizon == least ==> RoundThousandths(finish) - horizon == least
  {
    RoundedIsWhole(finish);
    var moved := RoundThousandths(finish) - horizon;
    WholeDifference(RoundThousandths(finish), horizon);
    if finish - horizon <= least < moved {
      WholesApart(moved, least);
    }
    if finish - horizon == least {
      WholesApart(moved, least);
    }
  }

  /** A steady demand on a whole least delay moves by less than half a thousandth past it. */
  lemma SteadyDemand(rec: Recognizer, ticks: seq<Tick>, runs: seq<RecognitionRun>, rate: int, least: real, k: nat)
    requires 0 < rate && Logged(rec, ticks, runs) && k < |ticks| && SteadyAt(ticks, rate, k) && WholeThousandths(least)
    ensures var exact := Unrounded(ticks, runs);
      && (Demand(exact, rate, k) <= least ==> Demand(runs, rate, k) < least + 0.0005)
      && (Demand(exact, rate, k) == least ==> least - 0.0005 < Demand(runs, rate, k))
  {
    assert LoggedAt(rec, ticks, runs, k);
    if k == 0 {
      WholeMoves(ticks[0].finishMs, 0.0, least);
    } else {
      assert LoggedAt(rec, ticks, runs, k - 1);
      var horizon := Ms(ticks[k - 1].watermark, rate);
      if WholeThousandths(horizon) {
        WholeMoves(ticks[k].finishMs, horizon, least);
      } else {
        HalfMoves(ticks[k].finishMs);
      }
    }
  }

  lemma SteadyLog(rec: Recognizer, ticks: seq<Tick>, runs: seq<RecognitionRun>, rate: int, logged: real, least: real)
    requires 0 < rate && Logged(rec, ticks, runs) && Steady(ticks, rate) && WholeThousandths(least)
    requires LargestDemand(runs, rate, logged) && LargestDemand(Unrounded(ticks, runs), rate, least)
    ensures -0.0005 < logged - least < 0.0005
  {
    var exact := Unrounded(ticks, runs);
    var a :| 0 <= a < |exact| && Demand(exact, rate, a) == least;
    var b :| 0 <= b < |runs| && Demand(runs, rate, b) == logged;
    assert SteadyAt(ticks, rate, a) && SteadyAt(ticks, rate, b);
    SteadyDemand(rec, ticks, runs, rate, least, a);
    SteadyDemand(rec, ticks, runs, rate, least, b);
  }

  /** In a steady run the report is the least safe delay exactly if that is a whole number of thousandths. */
  lemma SteadyReportIsExact(
    plan: Plan, rec: Recognizer, ticks: seq<Tick>, baseline: seq<Cue>, report: StrategyReport, least: real)
    requires plan.Valid() && Forward(rec, plan.total) && Schedule(plan, rec, ticks)
    requires Reports(plan, rec, ticks, baseline, report) && Steady(ticks, plan.rate)
    requires LargestDemand(Unrounded(ticks, report.runs), plan.rate, least)
    ensures ReportIsLeastSafe(plan, ticks, report) <==> WholeThousandths(least)
  {
    var logged :| LargestDemand(report.runs, plan.rate, logged);
    ReportedDelayIsExact(plan, rec, ticks, baseline, report, logged, least);
    if WholeThousandths(least) {
      SteadyLog(rec, ticks, report.runs, plan.rate, logged, least);
    }
  }

  ghost predicate WholeHorizonAt(ticks: seq<Tick>, rate: int, k: nat)
    requires 0 < rate && k < |ticks|
  {
    WholeThousandths(Ms(ticks[k].watermark, rate))
  }

  ghost predicate WholeHorizons(ticks: seq<Tick>, rate: int)
    requires 0 < rate
  {
    forall k :: 0 <= k < |ticks| ==> WholeHorizonAt(ticks, rate, k)
  }

  lemma WholeLoggedDelay(rec: Recognizer, ticks: seq<Tick>, runs: seq<RecognitionRun>, rate: int, logged: real)
    requires 0 < rate && Logged(rec, ticks, runs) && WholeHorizons(ticks, rate) && LargestDemand(runs, rate, logged)
    ensures WholeThousandths(logged)
  {
    var k :| 0 <= k < |runs| && Demand(runs, rate, k) == logged;
    assert LoggedAt(rec, ticks, runs, k);
    RoundedIsWhole(ticks[k].finishMs);
    if k > 0 {
      assert LoggedAt(rec, ticks, runs, k - 1) && WholeHorizonAt(ticks, rate, k - 1);
      WholeDifference(runs[k].virtualFinishMs, Ms(runs[k - 1].committedUntil, rate));
    }
  }

  /** With whole horizons only the log rounds: the report is off by at most 0.0005 ms, and by
      nothing exactly if the least safe delay is a whole number of thousandths. */
  lemma WholeHorizonsHalveTheMargin(
    plan: Plan, rec: Recognizer, ticks: seq<Tick>, baseline: seq<Cue>, report: StrategyReport, least: real)
    requires plan.Valid() && Forward(rec, plan.total) && Schedule(plan, rec, ticks)
    requires Reports(plan, rec, ticks, baseline, report) && WholeHorizons(ticks, plan.rate)
    requires LargestDemand(Unrounded(ticks, report.runs), plan.rate, least)
    ensures -0.0005 <= report.minimumDelayMs - least <= 0.0005
    ensures ReportIsLeastSafe(plan, ticks, report) <==> WholeThousandths(least)
  {
    var logged :| LargestDemand(report.runs, plan.rate, logged);
    LoggedDelay(plan, rec, ticks, baseline, report, logged, least);
    WholeLoggedDelay(rec, ticks, report.runs, plan.rate, logged);
    WholeThousandthsStay(logged);
    forall k | 0 <= k < |ticks| ensures SteadyAt(ticks, plan.rate, k) {
      if k > 0 { assert WholeHorizonAt(ticks, plan.rate, k - 1); }
    }
    SteadyReportIsExact(plan, rec, ticks, baseline, report, least);
  }

  lemma {:induction false} TrueDelay(runs: seq<RecognitionRun>, rate: int, n: nat) returns (least: real)
    requires 0 < rate && 0 < n <= |runs|
    ensures forall k :: 0 <= k < n ==> Demand(runs, rate, k) <= least
    ensures exists k :: 0 <= k < n && Demand(runs, rate, k) == least
    ensures n == |runs| ==> LargestDemand(runs, rate, least)
  {
    if n == 1 {
      least := Demand(runs, rate, 0);
    } else {
      least := TrueDelay(runs, rate, n - 1);
      if least < Demand(runs, rate, n - 1) {
        least := Demand(runs, rate, n - 1);
      }
    }
  }
}
