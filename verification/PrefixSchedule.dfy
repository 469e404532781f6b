/** Which audio prefix each recognition pass works on and when: the endpoints,
    the single-server schedule, and what every schedule keeps. */
module PrefixSchedule {
  import opened Numeric
  import opened CueTimeline
  import opened Playback

  /** The command-line durations, within the bounds the argument parser enforces. */
  datatype Config = Config(initialMs: int, cadenceMs: int, windowMs: int, holdbackMs: int) {
    predicate Valid() {
      0 < initialMs && 0 < cadenceMs && 0 <= holdbackMs < windowMs
    }
  }

  function DurationFrames(ms: int, rate: int): int {
    RoundHalfEven((ms * rate) as real / 1000.0)
  }

  lemma DurationFramesMonotone(a: int, b: int, rate: int)
    requires a <= b && 0 < rate
    ensures DurationFrames(a, rate) <= DurationFrames(b, rate)
    ensures 0 <= a ==> 0 <= DurationFrames(a, rate)
  {
    var x, y := a * rate, b * rate;
    assert x <= y && (0 <= a ==> 0 <= x);
    RoundHalfEvenMonotone(x as real / 1000.0, y as real / 1000.0);
  }

  // ----------------------------------------------------------------- endpoints

  /** Python's `range(lo, hi, step)`. */
  function Range(lo: int, hi: int, step: int): seq<int>
    requires step > 0
    decreases hi - lo
  {
    if hi <= lo then [] else [lo] + Range(lo + step, hi, step)
  }

  function PrefixEndpoints(total: int, rate: int, initialMs: int, cadenceMs: int): seq<int> {
    EndpointsFrom(total, Max(1, DurationFrames(initialMs, rate)), Max(1, DurationFrames(cadenceMs, rate)))
  }

  /** Endpoints from durations already in frames. */
  function EndpointsFrom(total: int, initial: int, step: int): seq<int>
    requires step > 0
  {
    var result := Range(Min(total, initial), total, step);
    if result == [] || result[|result| - 1] != total then result + [total] else result
  }

  lemma {:induction false} RangeShape(lo: int, hi: int, step: int)
    requires step > 0
    ensures var r := Range(lo, hi, step);
      && (r == [] <==> hi <= lo)
      && (forall i :: 0 <= i < |r| ==> lo <= r[i] < hi && r[i] == lo + i * step)
      && (r != [] ==> hi - r[|r| - 1] <= step)
    decreases hi - lo
  {
    if lo < hi {
      RangeShape(lo + step, hi, step);
      var rest, r := Range(lo + step, hi, step), Range(lo, hi, step);
      forall i | 0 <= i < |r| ensures lo <= r[i] < hi && r[i] == lo + i * step {
        if i > 0 {
          assert r[i] == rest[i - 1];
          assert (i - 1) * step + step == i * step;
        }
      }
    }
  }

  ghost predicate Grid(es: seq<int>, initial: int, step: int) {
    forall i :: 0 <= i < |es| - 1 ==> es[i] == initial + i * step
  }

  /** Endpoints lie `step` apart from the first on, strictly increase, and end
      at the total after a last gap of at most `step`. */
  lemma EndpointsShape(total: int, initial: int, step: int)
    requires 0 <= total && 1 <= initial && 1 <= step
    ensures var es := EndpointsFrom(total, initial, step);
      && es != [] && es[0] == Min(total, initial) && es[|es| - 1] == total
      && Grid(es, initial, step)
      && (forall i :: 0 <= i < |es| - 1 ==> 0 < es[i + 1] - es[i] <= step)
      && (forall i :: 0 <= i < |es| - 2 ==> es[i + 1] - es[i] == step)
  {
    RangeShape(Min(total, initial), total, step);
    var es := EndpointsFrom(total, initial, step);
    forall i | 0 <= i < |es| - 1
      ensures 0 < es[i + 1] - es[i] <= step && (i < |es| - 2 ==> es[i + 1] - es[i] == step)
    {
      if i < |es| - 2 {
        assert (i + 1) * step == i * step + step;
      }
    }
  }

  lemma {:induction false} EndpointsOrdered(es: seq<int>, i: nat, j: nat)
    requires i <= j < |es| && forall k :: 0 <= k < |es| - 1 ==> 0 < es[k + 1] - es[k]
    ensures es[i] + (j - i) <= es[j]
    decreases j
  {
    if i < j {
      EndpointsOrdered(es, i, j - 1);
      assert 0 < es[(j - 1) + 1] - es[j - 1];
    }
  }

  // ------------------------------------------------------------------ schedule

  /** What one recognizer process gives back: cues and the time it took. */
  datatype Pass = Pass(cues: seq<Cue>, elapsedMs: real)

  /** A recognizer: window start, window end and pass number to its result. */
  type Recognizer = (int, int, nat) -> Result<Pass, CueError>

  /** A strategy's durations in frames. */
  datatype Plan = Plan(rate: int, total: int, initial: int, step: int, window: int, holdback: int, rolling: bool) {
    predicate Valid() {
      0 < rate && 0 <= total && 1 <= initial && 1 <= step && 0 <= holdback <= window
    }

    function Endpoints(): seq<int>
      requires Valid()
    {
      EndpointsFrom(total, initial, step)
    }

    function WindowStart(prefixEnd: int): int {
      if rolling then Max(0, prefixEnd - window) else 0
    }

    function Watermark(prefixEnd: int): int {
      if prefixEnd == total then total else Max(0, prefixEnd - holdback)
    }
  }

  lemma PlanEndpoints(plan: Plan)
    requires plan.Valid()
    ensures var es := plan.Endpoints();
      && es != [] && es[0] == Min(plan.total, plan.initial) && es[|es| - 1] == plan.total
      && Grid(es, plan.initial, plan.step)
      && (forall i :: 0 <= i < |es| - 1 ==> 0 < es[i + 1] - es[i] <= plan.step)
      && (forall i :: 0 <= i < |es| - 2 ==> es[i + 1] - es[i] == plan.step)
      && (forall i, j :: 0 <= i < j < |es| ==> es[i] < es[j])
      && (forall i :: 0 <= i < |es| ==> 0 <= es[i] <= plan.total)
      && (forall i :: 0 <= i < |es| - 1 ==> 0 < es[i] < plan.total)
  {
    EndpointsShape(plan.total, plan.initial, plan.step);
    var es := plan.Endpoints();
    forall i, j | 0 <= i < j < |es| ensures es[i] < es[j] {
      EndpointsOrdered(es, i, j);
    }
    forall i | 0 <= i < |es| ensures 0 <= es[i] <= plan.total && (i < |es| - 1 ==> 0 < es[i] < plan.total) {
      EndpointsOrdered(es, 0, i);
      EndpointsOrdered(es, i, |es| - 1);
    }
  }

  function Elapsed(rec: Recognizer, windowStart: int, prefixEnd: int, k: nat): real {
    var r := rec(windowStart, prefixEnd, k);
    if r.Success? then r.value.elapsedMs else 0.0
  }

  /** Pass number `k` on the simulated clock. */
  datatype Tick = Tick(index: nat, prefixEnd: int, windowStart: int, watermark: int, startMs: real, finishMs: real)

  function TickAt(plan: Plan, rec: Recognizer, index: nat, availableMs: real, k: nat): Tick
    requires plan.Valid() && index < |plan.Endpoints()|
  {
    var prefixEnd := plan.Endpoints()[index];
    var start := MaxReal(Ms(prefixEnd, plan.rate), availableMs);
    var from := plan.WindowStart(prefixEnd);
    Tick(index, prefixEnd, from, plan.Watermark(prefixEnd), start, start + Elapsed(rec, from, prefixEnd, k))
  }

  /** `next` is the newest endpoint that has arrived by `nowMs`, or the very next
      one if none beyond it has. */
  ghost predicate Newest(es: seq<int>, rate: int, index: nat, nowMs: real, next: nat)
    requires 0 < rate
  {
    && index < next < |es|
    && (next + 1 < |es| ==> nowMs < Ms(es[next + 1], rate))
    && (index + 1 < next ==> Ms(es[next], rate) <= nowMs)
  }

  /** `ticks` is how the passes of a run begin. */
  ghost predicate Schedule(plan: Plan, rec: Recognizer, ticks: seq<Tick>)
    requires plan.Valid()
  {
    && (forall k :: 0 <= k < |ticks| ==> ticks[k].index < |plan.Endpoints()|)
    && (|ticks| > 0 ==> |plan.Endpoints()| > 0 && ticks[0] == TickAt(plan, rec, 0, 0.0, 0))
    && forall k :: 0 < k < |ticks| ==> FollowsOn(plan, rec, ticks, k)
  }

  ghost predicate FollowsOn(plan: Plan, rec: Recognizer, ticks: seq<Tick>, k: nat)
    requires plan.Valid() && 0 < k < |ticks|
  {
    && ticks[k].index < |plan.Endpoints()|
    && Newest(plan.Endpoints(), plan.rate, ticks[k - 1].index, ticks[k - 1].finishMs, ticks[k].index)
    && ticks[k] == TickAt(plan, rec, ticks[k].index, ticks[k - 1].finishMs, k)
  }

  /** The recognizer takes no negative time on any window of `total` frames of audio. */
  ghost predicate Forward(rec: Recognizer, total: int) {
    forall a, b, k :: 0 <= a <= b <= total ==> 0.0 <= Elapsed(rec, a, b, k)
  }

  /** Where the commit stands before pass `k`. */
  function CommittedBefore(ticks: seq<Tick>, k: nat): int
    requires k <= |ticks|
  {
    if k == 0 then 0 else ticks[k - 1].watermark
  }

  lemma TickShape(plan: Plan, rec: Recognizer, ticks: seq<Tick>, k: nat)
    requires plan.Valid() && Schedule(plan, rec, ticks) && k < |ticks|
    ensures var es := plan.Endpoints(); var t := ticks[k];
      && t.index < |es| && t.prefixEnd == es[t.index] && 0 <= t.windowStart <= t.prefixEnd <= plan.total
      && t.windowStart == plan.WindowStart(t.prefixEnd) && t.watermark == plan.Watermark(t.prefixEnd)
      && (t.index + 1 < |es| <==> t.prefixEnd < plan.total)
      && t.finishMs == t.startMs + Elapsed(rec, t.windowStart, t.prefixEnd, k)
      && Ms(t.prefixEnd, plan.rate) <= t.startMs
  {
    PlanEndpoints(plan);
    if k > 0 { assert FollowsOn(plan, rec, ticks, k); }
  }

  /** Consecutive passes: no pass starts before its audio has arrived or before
      the pass ahead of it has finished; endpoints, watermarks and finish times advance. */
  lemma StepsForward(plan: Plan, rec: Recognizer, ticks: seq<Tick>, k: nat)
    requires plan.Valid() && Forward(rec, plan.total) && Schedule(plan, rec, ticks) && 0 < k < |ticks|
    ensures var s, t := ticks[k - 1], ticks[k];
      && s.index < t.index && s.prefixEnd < t.prefixEnd && s.prefixEnd < plan.total
      && s.finishMs <= t.startMs <= t.finishMs
      && 0 <= s.watermark <= t.watermark && s.watermark < plan.total
  {
    PlanEndpoints(plan);
    TickShape(plan, rec, ticks, k - 1);
    TickShape(plan, rec, ticks, k);
    assert FollowsOn(plan, rec, ticks, k);
  }

  /** Between any two passes of a run, in order. */
  lemma {:induction false} RunsForward(plan: Plan, rec: Recognizer, ticks: seq<Tick>, i: nat, k: nat)
    requires plan.Valid() && Forward(rec, plan.total) && Schedule(plan, rec, ticks) && i <= k < |ticks|
    ensures var s, t := ticks[i], ticks[k];
      && s.index + (k - i) <= t.index && s.prefixEnd <= t.prefixEnd
      && s.finishMs <= t.finishMs && s.watermark <= t.watermark
      && (i < k ==> s.prefixEnd < t.prefixEnd && s.finishMs <= t.startMs && s.watermark < plan.total)
    decreases k - i
  {
    if i < k {
      RunsForward(plan, rec, ticks, i, k - 1);
      StepsForward(plan, rec, ticks, k);
    }
  }

  /** A schedule is determined by its length: two schedules of one plan and
      recognizer agree wherever both are defined. */
  lemma {:induction false} ScheduleDetermined(plan: Plan, rec: Recognizer, a: seq<Tick>, b: seq<Tick>, k: nat)
    requires plan.Valid() && Schedule(plan, rec, a) && Schedule(plan, rec, b) && k < |a| && k < |b|
    ensures a[k] == b[k]
  {
    if k > 0 {
      ScheduleDetermined(plan, rec, a, b, k - 1);
      assert FollowsOn(plan, rec, a, k) && FollowsOn(plan, rec, b, k);
      NewestDetermined(plan, a[k - 1].index, a[k - 1].finishMs, a[k].index, b[k].index);
    }
  }

  lemma NewestDetermined(plan: Plan, index: nat, nowMs: real, x: nat, y: nat)
    requires plan.Valid()
    requires Newest(plan.Endpoints(), plan.rate, index, nowMs, x)
    requires Newest(plan.Endpoints(), plan.rate, index, nowMs, y)
    ensures x == y
  {
    NewestNotBefore(plan, index, nowMs, x, y);
    NewestNotBefore(plan, index, nowMs, y, x);
  }

  lemma NewestNotBefore(plan: Plan, index: nat, nowMs: real, x: nat, y: nat)
    requires plan.Valid()
    requires Newest(plan.Endpoints(), plan.rate, index, nowMs, x)
    requires Newest(plan.Endpoints(), plan.rate, index, nowMs, y)
    ensures y <= x
  {
    PlanEndpoints(plan);
    var es := plan.Endpoints();
    if x + 1 < |es| { MsMonotone(es[x + 1], es[y], plan.rate); }
  }
}
