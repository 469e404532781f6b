/** Benchmarks small enough to follow by hand, whose reported delay is not the least safe one. */
module DelayExamples {
  import opened Numeric
  import opened CueTimeline
  import opened Disagreement
  import opened Playback
  import opened PrefixSchedule
  import opened RollingBound
  import opened Strategy
  import opened ReportedDelay

  /** One frame of audio at 1000 frames a second. */
  const ONE_FRAME: Plan := Plan(1000, 1, 1, 1, 1, 0, false)

  /** It is what the shortest durations give. */
  lemma OneFrameIsAPlan()
    ensures PlanOf(GROWING_PREFIX, Config(1, 1, 1, 0), 1000, 1) == ONE_FRAME
  {
  }

  /** The one pass over it, when recognition takes `elapsedMs`. */
  function OnlyTick(elapsedMs: real): Tick {
    Tick(0, 1, 0, 1, 1.0, 1.0 + elapsedMs)
  }

  function OneFrameReport(elapsedMs: real): StrategyReport {
    StrategyReport(
      [RunOf(OnlyTick(elapsedMs), elapsedMs, 1)], [Cue(0, 1, 'X')], RoundThousandths(1.0 + elapsedMs), 0)
  }

  lemma OneFrameSchedule(elapsedMs: real)
    requires 0.0 <= elapsedMs
    ensures Schedule(ONE_FRAME, Paced(0, 0.0, elapsedMs), [OnlyTick(elapsedMs)])
  {
    PlanEndpoints(ONE_FRAME);
    assert ONE_FRAME.Endpoints()[0] == 1;
  }

  lemma OneFrameLedger(elapsedMs: real)
    requires 0.0 <= elapsedMs
    ensures var rec, ticks, cues := Paced(0, 0.0, elapsedMs), [OnlyTick(elapsedMs)], [Cue(0, 1, 'X')];
      && Completed(ONE_FRAME, rec, ticks) && Contiguous(cues) && RunLength(cues, 1) && Known(cues)
      && Provenance(rec, ticks, Frames(cues))
  {
    var rec, ticks, cues := Paced(0, 0.0, elapsedMs), [OnlyTick(elapsedMs)], [Cue(0, 1, 'X')];
    assert LinkedAt(cues, 0);
    assert PassAccepted(rec, ticks, 0);
    FramesLength(cues);
    assert Frames(cues)[0..1] == Frames(cues);
  }

  lemma OneFrameDelay(elapsedMs: real, finishMs: real, delay: real)
    requires 0.0 <= elapsedMs
    ensures var runs := [RunOf(OnlyTick(elapsedMs), elapsedMs, 1).(virtualFinishMs := finishMs)];
      && RunLog(runs, 1) && LargestDemand(runs, 1000, finishMs)
      && (finishMs <= delay <==> NoUnderrun(runs, 1000, 1, delay))
  {
    var runs := [RunOf(OnlyTick(elapsedMs), elapsedMs, 1).(virtualFinishMs := finishMs)];
    assert Demand(runs, 1000, 0) == finishMs;
    DelayIsLeast(runs, 1000, 1, finishMs, delay);
  }

  /** A complete benchmark of it, in which exactly the delays from `1.0 + elapsedMs` are safe. */
  lemma OneFrameBenchmark(elapsedMs: real, delay: real)
    requires 0.0 <= elapsedMs
    ensures var rec, ticks, report := Paced(0, 0.0, elapsedMs), [OnlyTick(elapsedMs)], OneFrameReport(elapsedMs);
      && Forward(rec, 1) && WellFormed(rec, 1) && Schedule(ONE_FRAME, rec, ticks) && Completed(ONE_FRAME, rec, ticks)
      && Reports(ONE_FRAME, rec, ticks, [Cue(0, 1, 'X')], report)
      && (1.0 + elapsedMs <= delay <==> NoUnderrun(Unrounded(ticks, report.runs), 1000, 1, delay))
  {
    var ticks, report := [OnlyTick(elapsedMs)], OneFrameReport(elapsedMs);
    PacedIsWellFormed(0, 0.0, elapsedMs, 1, elapsedMs);
    OneFrameSchedule(elapsedMs);
    OneFrameLedger(elapsedMs);
    var logged := RoundThousandths(1.0 + elapsedMs);
    OneFrameDelay(elapsedMs, logged, delay);
    OneFrameDelay(elapsedMs, 1.0 + elapsedMs, delay);
    RoundedIsWhole(1.0 + elapsedMs);
    WholeThousandthsStay(logged);
    OneFrameReported(elapsedMs, logged);
    assert Unrounded(ticks, report.runs)
        == [RunOf(OnlyTick(elapsedMs), elapsedMs, 1).(virtualFinishMs := 1.0 + elapsedMs)];
  }

  lemma OneFrameReported(elapsedMs: real, logged: real)
    requires 0.0 <= elapsedMs && logged == RoundThousandths(1.0 + elapsedMs) == RoundThousandths(logged)
    requires RunLog(OneFrameReport(elapsedMs).runs, 1) && LargestDemand(OneFrameReport(elapsedMs).runs, 1000, logged)
    ensures var rec, report := Paced(0, 0.0, elapsedMs), OneFrameReport(elapsedMs);
      Reports(ONE_FRAME, rec, [OnlyTick(elapsedMs)], [Cue(0, 1, 'X')], report)
  {
    OneFrameLedger(elapsedMs);
    var cues := [Cue(0, 1, 'X')];
    DisagreementIsAMetric(cues, cues, cues);
    assert OneFrameReport(elapsedMs).runs[..0] == [];
  }

  /** A recognition time of 0.0004 ms is lost in the log, and the reported delay underruns;
      one of 0.0006 ms is rounded up, and playback could start before the reported delay. */
  lemma RoundedDelayExample()
    ensures var rec, ticks, report := Paced(0, 0.0, 0.0004), [OnlyTick(0.0004)], OneFrameReport(0.0004);
      && Reports(ONE_FRAME, rec, ticks, [Cue(0, 1, 'X')], report) && report.minimumDelayMs == 1.0
      && !NoUnderrun(Unrounded(ticks, report.runs), 1000, 1, report.minimumDelayMs)
    ensures var rec, ticks, report := Paced(0, 0.0, 0.0006), [OnlyTick(0.0006)], OneFrameReport(0.0006);
      && Reports(ONE_FRAME, rec, ticks, [Cue(0, 1, 'X')], report) && report.minimumDelayMs == 1.001
      && NoUnderrun(Unrounded(ticks, report.runs), 1000, 1, report.minimumDelayMs - 0.0004)
  {
    assert RoundHalfEven(1000.4) == 1000 && RoundHalfEven(1000.6) == 1001;
    OneFrameBenchmark(0.0004, 1.0);
    OneFrameBenchmark(0.0006, 1.0006);
  }

  /** Two frames at 128 frames a second. */
  const TWO_FRAMES: Plan := Plan(128, 2, 1, 1, 0, 0, false)

  lemma TwoFramesIsAPlan()
    ensures PlanOf(GROWING_PREFIX, Config(1, 1, 1, 0), 128, 2) == TWO_FRAMES
  {
  }

  const FIRST_TICK: Tick := Tick(0, 1, 0, 1, 7.8125, 7.8125)
  const SECOND_TICK: Tick := Tick(1, 2, 0, 2, 15.625, 15.6255)

  /** The first pass takes no time, the second half a thousandth of a millisecond. */
  function TwoFrameRecognizer(): Recognizer {
    Paced(1, 0.0, 0.0005)
  }

  function TwoFrameRuns(): seq<RecognitionRun> {
    [RunOf(FIRST_TICK, 0.0, 1), RunOf(SECOND_TICK, 0.0005, 0)]
  }

  function TwoFrameReport(): StrategyReport {
    StrategyReport(TwoFrameRuns(), [Cue(0, 2, 'X')], RoundThousandths(7.8135), 0)
  }

  lemma TwoFrameSchedule()
    ensures Schedule(TWO_FRAMES, TwoFrameRecognizer(), [FIRST_TICK, SECOND_TICK])
  {
    PlanEndpoints(TWO_FRAMES);
    var es, rec := TWO_FRAMES.Endpoints(), TwoFrameRecognizer();
    assert |es| == 2 && es[0] == 1 && es[1] == 2;
    assert TickAt(TWO_FRAMES, rec, 0, 0.0, 0) == FIRST_TICK;
    assert TickAt(TWO_FRAMES, rec, 1, 7.8125, 1) == SECOND_TICK;
    assert FollowsOn(TWO_FRAMES, rec, [FIRST_TICK, SECOND_TICK], 1);
  }

  lemma TwoFrameLedger()
    ensures var rec, ticks, cues := TwoFrameRecognizer(), [FIRST_TICK, SECOND_TICK], [Cue(0, 2, 'X')];
      && Completed(TWO_FRAMES, rec, ticks) && Contiguous(cues) && RunLength(cues, 2) && Known(cues)
      && Provenance(rec, ticks, Frames(cues))
  {
    var rec, ticks, cues := TwoFrameRecognizer(), [FIRST_TICK, SECOND_TICK], [Cue(0, 2, 'X')];
    var first := [Cue(0, 1, 'X')];
    assert LinkedAt(cues, 0) && LinkedAt(first, 0);
    FramesLength(cues);
    FramesLength(first);
    FramesInCue(first, 0, 0, 1);
    FramesInCue(cues, 0, 0, 1);
    assert PassResult(rec, FIRST_TICK, 0).value.cues == first && PassResult(rec, SECOND_TICK, 1).value.cues == cues;
    assert PassAccepted(rec, ticks, 0) && PassAccepted(rec, ticks, 1);
    assert PassProvenance(rec, ticks, 0, Frames(cues)) && PassProvenance(rec, ticks, 1, Frames(cues));
  }

  lemma TwoFrameTimes()
    ensures RoundThousandths(7.8125) == 7.812 && RoundThousandths(15.6255) == 15.626
    ensures RoundThousandths(7.8135) == 7.814 && WholeThousandths(7.813)
  {
    assert RoundHalfEven(7812.5) == 7812 && RoundHalfEven(15625.5) == 15626 && RoundHalfEven(7813.5) == 7814;
  }

  lemma TwoFrameDelays()
    ensures RunLog(TwoFrameRuns(), 2) && LargestDemand(TwoFrameRuns(), 128, 7.8135)
    ensures LargestDemand(Unrounded([FIRST_TICK, SECOND_TICK], TwoFrameRuns()), 128, 7.813)
  {
    TwoFrameTimes();
    var runs := TwoFrameRuns();
    var exact := Unrounded([FIRST_TICK, SECOND_TICK], runs);
    assert runs[0].virtualFinishMs == 7.812 && runs[1].virtualFinishMs == 15.626 && Ms(1, 128) == 7.8125;
    assert Demand(runs, 128, 0) == 7.812 && Demand(runs, 128, 1) == 7.8135;
    assert Demand(exact, 128, 0) == 7.8125 && Demand(exact, 128, 1) == 7.813;
  }

  lemma TwoFrameLog()
    ensures Logged(TwoFrameRecognizer(), [FIRST_TICK, SECOND_TICK], TwoFrameRuns())
    ensures AcceptedTotal(TwoFrameRuns()) == 1
  {
    var rec, ticks, runs := TwoFrameRecognizer(), [FIRST_TICK, SECOND_TICK], TwoFrameRuns();
    assert LoggedAt(rec, ticks, runs, 0) && LoggedAt(rec, ticks, runs, 1);
    assert runs[..1] == [runs[0]] && runs[..1][..0] == [];
  }

  lemma TwoFrameReported()
    ensures Reports(TWO_FRAMES, TwoFrameRecognizer(), [FIRST_TICK, SECOND_TICK], [Cue(0, 2, 'X')], TwoFrameReport())
  {
    TwoFrameLedger();
    TwoFrameLog();
    TwoFrameDelays();
    var cues := [Cue(0, 2, 'X')];
    DisagreementIsAMetric(cues, cues, cues);
  }

  /** A least safe delay of 7.813 ms, a whole number of thousandths, is reported as 7.814 ms: the second
      finish time and the first horizon both lie midway, and 7813 is odd. */
  lemma MidwayDelayExample()
    ensures var rec, ticks, report := TwoFrameRecognizer(), [FIRST_TICK, SECOND_TICK], TwoFrameReport();
      && Schedule(TWO_FRAMES, rec, ticks) && Reports(TWO_FRAMES, rec, ticks, [Cue(0, 2, 'X')], report)
      && LargestDemand(Unrounded(ticks, report.runs), 128, 7.813) && WholeThousandths(7.813)
      && report.minimumDelayMs == 7.814
  {
    TwoFrameSchedule();
    TwoFrameReported();
    TwoFrameDelays();
    TwoFrameTimes();
  }
}
