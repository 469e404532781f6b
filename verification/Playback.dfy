/** The playback delay computed from a log of recognition runs, and the
    meaning of that delay: the least one at which no frame is played before
    the run that commits it has finished. */
module Playback {
  import opened Numeric
  import opened CueTimeline

  datatype RecognitionRun = RecognitionRun(
    prefixEnd: int, windowStart: int, elapsedMs: real, virtualStartMs: real, virtualFinishMs: real,
    committedUntil: int, acceptedCueCount: int)

  /** The time at which `frame` lies on a clock that starts at 0. */
  function Ms(frame: int, rate: int): real
    requires rate > 0
  {
    frame as real * 1000.0 / rate as real
  }

  lemma MsMonotone(a: int, b: int, rate: int)
    requires rate > 0
    ensures a <= b <==> Ms(a, rate) <= Ms(b, rate)
  {
    var x, y, r := a as real * 1000.0, b as real * 1000.0, rate as real;
    DivMonotone(x, y, r);
    DivMonotone(y, x, r);
  }

  lemma DivMonotone(x: real, y: real, r: real)
    requires r > 0.0
    ensures x <= y <==> x / r <= y / r
  {
    var u, v := x / r, y / r;
    assert u * r == x && v * r == y;
    if u <= v {
      MulWeak(u, v, r);
    } else {
      MulStrict(v, u, r);
    }
  }

  lemma MsAdd(a: int, b: int, rate: int)
    requires rate > 0
    ensures Ms(a + b, rate) == Ms(a, rate) + Ms(b, rate)
  {
  }

  /** What run `k` demands of the delay: its result must be there before
      playback leaves the horizon of the result before it. */
  function Demand(runs: seq<RecognitionRun>, rate: int, k: nat): real
    requires rate > 0 && k < |runs|
  {
    runs[k].virtualFinishMs - if k == 0 then 0.0 else Ms(runs[k - 1].committedUntil, rate)
  }

  /** `delay` is the largest demand of any run. */
  ghost predicate LargestDemand(runs: seq<RecognitionRun>, rate: int, delay: real)
    requires rate > 0
  {
    && (forall k :: 0 <= k < |runs| ==> Demand(runs, rate, k) <= delay)
    && (exists k :: 0 <= k < |runs| && Demand(runs, rate, k) == delay)
  }

  method SafePlaybackStart(runs: seq<RecognitionRun>, rate: int) returns (r: Result<real, CueError>)
    requires rate > 0
    ensures runs == [] ==> r == Failure(NoRuns)
    ensures runs != [] ==> r.Success? && LargestDemand(runs, rate, r.value)
  {
    if runs == [] {
      return Failure(NoRuns);
    }
    var required := runs[0].virtualFinishMs;
    assert required == Demand(runs, rate, 0);
    for k := 1 to |runs|
      invariant forall i :: 0 <= i < k ==> Demand(runs, rate, i) <= required
      invariant exists i :: 0 <= i < k && Demand(runs, rate, i) == required
    {
      var horizon := runs[k - 1].committedUntil as real * 1000.0 / rate as real;
      assert Demand(runs, rate, k) == runs[k].virtualFinishMs - horizon;
      required := MaxReal(required, runs[k].virtualFinishMs - horizon);
    }
    return Success(required);
  }

  /** Run `k` is the one whose commit first takes in `frame`. */
  ghost predicate CommitsFrame(runs: seq<RecognitionRun>, frame: int, k: nat) {
    && k < |runs| && frame < runs[k].committedUntil
    && forall i :: 0 <= i < k ==> runs[i].committedUntil <= frame
  }

  /** Started `delay` after the first sample, playback reaches no frame before it is committed. */
  ghost predicate NoUnderrun(runs: seq<RecognitionRun>, rate: int, total: int, delay: real)
    requires rate > 0
  {
    forall frame: int, k: nat :: 0 <= frame < total && CommitsFrame(runs, frame, k) ==>
      runs[k].virtualFinishMs <= delay + Ms(frame, rate)
  }

  /** Finish times and commits never go back; the last run, and only it, commits everything. */
  ghost predicate RunLog(runs: seq<RecognitionRun>, total: int) {
    && runs != [] && 0 < total
    && runs[|runs| - 1].committedUntil == total
    && (forall k :: 0 <= k < |runs| ==> 0 <= runs[k].committedUntil)
    && (forall k :: 0 <= k < |runs| - 1 ==> runs[k].committedUntil < total)
    && (forall i, k :: 0 <= i <= k < |runs| ==>
          runs[i].committedUntil <= runs[k].committedUntil && runs[i].virtualFinishMs <= runs[k].virtualFinishMs)
  }

  lemma {:induction false} SomeRunCommits(runs: seq<RecognitionRun>, frame: int, from: nat) returns (k: nat)
    requires from < |runs| && frame < runs[|runs| - 1].committedUntil
    requires forall i :: 0 <= i < from ==> runs[i].committedUntil <= frame
    ensures from <= k && CommitsFrame(runs, frame, k)
    decreases |runs| - from
  {
    if frame < runs[from].committedUntil {
      k := from;
    } else {
      k := SomeRunCommits(runs, frame, from + 1);
    }
  }

  /** The largest demand is sufficient and least: exactly the delays from it
      upward play without an underrun. */
  lemma DelayIsLeast(runs: seq<RecognitionRun>, rate: int, total: int, least: real, delay: real)
    requires rate > 0 && RunLog(runs, total) && LargestDemand(runs, rate, least)
    ensures least <= delay <==> NoUnderrun(runs, rate, total, delay)
  {
    if least <= delay {
      forall frame: int, k: nat | 0 <= frame < total && CommitsFrame(runs, frame, k)
        ensures runs[k].virtualFinishMs <= delay + Ms(frame, rate)
      {
        DemandMet(runs, rate, frame, k, delay);
      }
    } else {
      var k :| 0 <= k < |runs| && Demand(runs, rate, k) == least;
      var frame, first := DemandMissed(runs, rate, total, k, delay);
    }
  }

  lemma DemandMet(runs: seq<RecognitionRun>, rate: int, frame: int, k: nat, delay: real)
    requires rate > 0 && 0 <= frame && CommitsFrame(runs, frame, k) && Demand(runs, rate, k) <= delay
    ensures runs[k].virtualFinishMs <= delay + Ms(frame, rate)
  {
    var horizon := if k == 0 then 0 else runs[k - 1].committedUntil;
    MsMonotone(horizon, frame, rate);
    MsZero(rate);
  }

  lemma MsZero(rate: int)
    requires rate > 0
    ensures Ms(0, rate) == 0.0
  {
  }

  lemma DemandMissed(runs: seq<RecognitionRun>, rate: int, total: int, k: nat, delay: real)
    returns (frame: int, first: nat)
    requires rate > 0 && RunLog(runs, total) && k < |runs| && delay < Demand(runs, rate, k)
    ensures 0 <= frame < total && CommitsFrame(runs, frame, first)
    ensures delay + Ms(frame, rate) < runs[first].virtualFinishMs
  {
    frame := if k == 0 then 0 else runs[k - 1].committedUntil;
    MsZero(rate);
    first := SomeRunCommits(runs, frame, k);
    assert runs[k].virtualFinishMs <= runs[first].virtualFinishMs;
  }

  /** `shown` is `runs` with every finish time off by at most `slack`. */
  ghost predicate FinishesWithin(runs: seq<RecognitionRun>, shown: seq<RecognitionRun>, slack: real) {
    && |runs| == |shown|
    && forall k :: 0 <= k < |runs| ==>
         && runs[k].committedUntil == shown[k].committedUntil
         && -slack <= runs[k].virtualFinishMs - shown[k].virtualFinishMs <= slack
  }

  lemma LargestDemandUnique(runs: seq<RecognitionRun>, rate: int, x: real, y: real)
    requires rate > 0 && LargestDemand(runs, rate, x) && LargestDemand(runs, rate, y)
    ensures x == y
  {
  }

  /** Moving finish times by at most `slack` moves the least safe delay by at most that. */
  lemma LoggedDelayIsClose(
    runs: seq<RecognitionRun>, shown: seq<RecognitionRun>, rate: int, slack: real, exact: real, logged: real)
    requires rate > 0 && FinishesWithin(runs, shown, slack)
    requires LargestDemand(runs, rate, exact) && LargestDemand(shown, rate, logged)
    ensures -slack <= logged - exact <= slack
  {
    forall k | 0 <= k < |runs|
      ensures -slack <= Demand(runs, rate, k) - Demand(shown, rate, k) <= slack
    {
    }
    var a :| 0 <= a < |runs| && Demand(runs, rate, a) == exact;
    var b :| 0 <= b < |shown| && Demand(shown, rate, b) == logged;
    assert Demand(shown, rate, a) <= logged;
    assert Demand(runs, rate, b) <= exact;
  }

  /** The log keeps finish times in thousandths and the report rounds the delay
      once more; together they move the least safe delay by at most 0.001 ms. */
  lemma ReportedDelayIsClose(
    runs: seq<RecognitionRun>, shown: seq<RecognitionRun>, rate: int, exact: real, logged: real)
    requires rate > 0 && FinishesWithin(runs, shown, 0.0005)
    requires LargestDemand(runs, rate, exact) && LargestDemand(shown, rate, logged)
    ensures -0.001 <= RoundThousandths(logged) - exact <= 0.001
  {
    LoggedDelayIsClose(runs, shown, rate, 0.0005, exact, logged);
  }
}
