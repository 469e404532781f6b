/** How slow the recognizer may be before a rolling window loses the commit
    cursor: a condition that is sufficient for every schedule, and necessary. */
module RollingBound {
  import opened Numeric
  import opened CueTimeline
  import opened Playback
  import opened PrefixSchedule

  /** No pass over a window of `total` frames of audio takes longer than `budgetMs`. */
  ghost predicate Within(rec: Recognizer, total: int, budgetMs: real) {
    forall a, b, k :: 0 <= a <= b <= total ==> Elapsed(rec, a, b, k) <= budgetMs
  }

  /** Every non-empty window of `total` frames of audio is recognized as one contiguous
      timeline of exactly that window; an empty one is an error. */
  ghost predicate WellFormed(rec: Recognizer, total: int) {
    forall a, b, k :: 0 <= a <= b <= total ==> ProperPass(rec(a, b, k), a, b)
  }

  predicate ProperPass(pass: Result<Pass, CueError>, a: int, b: int) {
    && (pass.Success? <==> a < b)
    && (pass.Success? ==> Contiguous(pass.value.cues) && First(pass.value.cues) == a && End(pass.value.cues) == b)
  }

  /** The window of pass `k` reaches back to the commit cursor. */
  predicate ReachesCursor(ticks: seq<Tick>, k: nat)
    requires k < |ticks|
  {
    ticks[k].windowStart <= CommittedBefore(ticks, k)
  }

  /** The first window holds the first prefix; a window holds the held-back
      frames plus one cadence step; and it also holds what can arrive while a
      pass runs, unless a pass never outlasts a step. */
  predicate SafeBudget(plan: Plan, budgetMs: real)
    requires plan.Valid()
  {
    var slack := plan.window - plan.holdback;
    && plan.initial <= plan.window
    && plan.step <= slack
    && (budgetMs <= Ms(plan.step, plan.rate)
        || Ms(plan.step, plan.rate) + budgetMs <= Ms(slack + 1, plan.rate))
  }

  // ---------------------------------------------------------------- sufficient

  /** A pass starts before the endpoint after its own arrives. */
  lemma StartsBeforeNextArrival(plan: Plan, rec: Recognizer, ticks: seq<Tick>, k: nat)
    requires plan.Valid() && Schedule(plan, rec, ticks) && k < |ticks|
    ensures var es := plan.Endpoints(); var t := ticks[k];
      t.index + 1 < |es| ==> t.startMs < Ms(es[t.index + 1], plan.rate)
  {
    PlanEndpoints(plan);
    TickShape(plan, rec, ticks, k);
    var es, t := plan.Endpoints(), ticks[k];
    if t.index + 1 < |es| {
      MsMonotone(es[t.index + 1], es[t.index], plan.rate);
      MsMonotone(es[t.index + 1], 0, plan.rate);
      MsZero(plan.rate);
      if k > 0 { assert FollowsOn(plan, rec, ticks, k); }
    }
  }

  /** While passes outlast a step, one advance is still short of a step plus the budget. */
  lemma SlowAdvance(plan: Plan, rec: Recognizer, ticks: seq<Tick>, k: nat, budgetMs: real, room: int)
    requires plan.Valid() && Schedule(plan, rec, ticks) && Within(rec, plan.total, budgetMs) && 0 < k < |ticks|
    requires plan.step <= room && Ms(plan.step, plan.rate) + budgetMs <= Ms(room + 1, plan.rate)
    ensures ticks[k].prefixEnd - ticks[k - 1].prefixEnd <= room
  {
    PlanEndpoints(plan);
    TickShape(plan, rec, ticks, k - 1);
    TickShape(plan, rec, ticks, k);
    assert FollowsOn(plan, rec, ticks, k);
    var es, s, t := plan.Endpoints(), ticks[k - 1], ticks[k];
    assert 0 < es[s.index + 1] - es[s.index] <= plan.step;
    if s.index + 1 < t.index {
      StartsBeforeNextArrival(plan, rec, ticks, k - 1);
      MsMonotone(es[s.index + 1], s.prefixEnd + plan.step, plan.rate);
      MsAdd(s.prefixEnd, plan.step, plan.rate);
      MsAdd(s.prefixEnd, room + 1, plan.rate);
      assert Elapsed(rec, s.windowStart, s.prefixEnd, k - 1) <= budgetMs;
      assert Ms(t.prefixEnd, plan.rate) < Ms(s.prefixEnd + room + 1, plan.rate);
      MsMonotone(s.prefixEnd + room + 1, t.prefixEnd, plan.rate);
    }
  }

  /** While no pass outlasts a step, every pass but the last starts the moment
      its audio arrives, and no endpoint is skipped. */
  lemma {:induction false} FastAdvance(plan: Plan, rec: Recognizer, ticks: seq<Tick>, k: nat)
    requires plan.Valid() && Schedule(plan, rec, ticks) && k < |ticks|
    requires Within(rec, plan.total, Ms(plan.step, plan.rate))
    ensures ticks[k].index == k
    ensures ticks[k].prefixEnd < plan.total ==> ticks[k].startMs == Ms(ticks[k].prefixEnd, plan.rate)
    ensures k > 0 ==> ticks[k].prefixEnd - ticks[k - 1].prefixEnd <= plan.step
  {
    PlanEndpoints(plan);
    TickShape(plan, rec, ticks, k);
    var es, t := plan.Endpoints(), ticks[k];
    MsZero(plan.rate);
    if k == 0 {
      MsMonotone(0, es[0], plan.rate);
    } else {
      FastAdvance(plan, rec, ticks, k - 1);
      TickShape(plan, rec, ticks, k - 1);
      assert FollowsOn(plan, rec, ticks, k);
      var s := ticks[k - 1];
      assert Elapsed(rec, s.windowStart, s.prefixEnd, k - 1) <= Ms(plan.step, plan.rate);
      MsAdd(s.prefixEnd, plan.step, plan.rate);
      assert s.finishMs <= Ms(s.prefixEnd + plan.step, plan.rate);
      if k + 1 < |es| {
        assert es[(k - 1) + 1] - es[k - 1] == plan.step;
        MsMonotone(es[t.index], es[k], plan.rate);
      }
    }
  }

  /** Under a safe budget no pass ever loses the cursor, however many endpoints it skips. */
  lemma SafeBudgetSuffices(plan: Plan, rec: Recognizer, ticks: seq<Tick>, budgetMs: real, k: nat)
    requires plan.Valid() && plan.rolling && SafeBudget(plan, budgetMs)
    requires Schedule(plan, rec, ticks) && Within(rec, plan.total, budgetMs) && k < |ticks|
    ensures ReachesCursor(ticks, k)
  {
    PlanEndpoints(plan);
    TickShape(plan, rec, ticks, k);
    if k > 0 {
      TickShape(plan, rec, ticks, k - 1);
      assert FollowsOn(plan, rec, ticks, k);
      if budgetMs <= Ms(plan.step, plan.rate) {
        FastAdvance(plan, rec, ticks, k);
      } else {
        SlowAdvance(plan, rec, ticks, k, budgetMs, plan.window - plan.holdback);
      }
    }
  }

  // ----------------------------------------------------------------- necessary

  /** A well-formed recognizer that takes `lap` for its first `n` passes and `last` from then on. */
  function Paced(n: nat, lap: real, last: real): Recognizer {
    (a: int, b: int, k: nat) =>
      if a < b then Success(Pass([Cue(a, b, 'X')], if k < n then lap else last)) else Failure(RecognizerFailed)
  }

  lemma PacedIsWellFormed(n: nat, lap: real, last: real, total: int, budgetMs: real)
    requires 0.0 <= lap <= budgetMs && 0.0 <= last <= budgetMs
    ensures var rec := Paced(n, lap, last);
      WellFormed(rec, total) && Forward(rec, total) && Within(rec, total, budgetMs)
  {
    var rec := Paced(n, lap, last);
    forall a, b, k | 0 <= a <= b <= total ensures ProperPass(rec(a, b, k), a, b) {
      if a < b {
        assert LinkedAt([Cue(a, b, 'X')], 0);
      }
    }
  }

  /** How late pass `k` starts when every pass adds `drift`. */
  function Late(k: nat, drift: real): real {
    if k == 0 then 0.0 else Late(k - 1, drift) + drift
  }

  lemma {:induction false} LateGrows(k: nat, n: nat, drift: real)
    requires k <= n && 0.0 <= drift
    ensures 0.0 <= Late(k, drift) <= Late(n, drift)
    decreases n
  {
    if k < n {
      LateGrows(k, n - 1, drift);
    } else if n > 0 {
      LateGrows(n - 1, n - 1, drift);
    }
  }

  lemma {:induction false} LateIsProduct(n: nat, drift: real)
    ensures Late(n, drift) == n as real * drift
  {
    if n > 0 {
      LateIsProduct(n - 1, drift);
      assert n as real * drift == (n - 1) as real * drift + drift;
    }
  }

  /** The run in which pass `k` takes endpoint `k`, for passes 0 to `n`. */
  function Drifting(plan: Plan, rec: Recognizer, n: nat): (ticks: seq<Tick>)
    requires plan.Valid() && n < |plan.Endpoints()|
    ensures |ticks| == n + 1
  {
    if n == 0 then [TickAt(plan, rec, 0, 0.0, 0)] else
      var before := Drifting(plan, rec, n - 1);
      before + [TickAt(plan, rec, n, before[n - 1].finishMs, n)]
  }

  /** A pass is either instantaneous or takes one step plus the drift. */
  predicate LapFits(plan: Plan, lap: real, drift: real)
    requires plan.Valid()
  {
    (lap == 0.0 && drift == 0.0) || (lap == Ms(plan.step, plan.rate) + drift && 0.0 <= drift)
  }

  /** The endpoints up to `n + 1` lie exactly one step apart. */
  ghost predicate EvenTo(plan: Plan, n: nat)
    requires plan.Valid()
  {
    && n < |plan.Endpoints()|
    && forall k :: 0 <= k <= n && k + 1 < |plan.Endpoints()| ==>
         plan.Endpoints()[k + 1] - plan.Endpoints()[k] == plan.step
  }

  /** Each of the first `n` passes takes `lap`. */
  ghost predicate Laps(rec: Recognizer, total: int, n: nat, lap: real) {
    forall a: int, b: int, k: nat :: 0 <= a < b <= total && k < n ==> Elapsed(rec, a, b, k) == lap
  }

  /** `ticks` is a schedule whose pass `n` takes endpoint `n`, as late as `n` drifts. */
  ghost predicate DriftsTo(plan: Plan, rec: Recognizer, ticks: seq<Tick>, drift: real, n: nat)
    requires plan.Valid()
  {
    && Schedule(plan, rec, ticks) && |ticks| == n + 1 && ticks[n].index == n
    && ticks[n].startMs == Ms(ticks[n].prefixEnd, plan.rate) + Late(n, drift)
  }

  lemma {:induction false} DriftingIsASchedule(plan: Plan, rec: Recognizer, lap: real, drift: real, n: nat)
    requires plan.Valid() && 0 < plan.total && EvenTo(plan, n) && LapFits(plan, lap, drift)
    requires Late(n, drift) < Ms(plan.step, plan.rate) && Laps(rec, plan.total, n, lap)
    requires plan.rolling ==> 0 < plan.window
    ensures DriftsTo(plan, rec, Drifting(plan, rec, n), drift, n)
  {
    if n == 0 {
      PlanEndpoints(plan);
      MsZero(plan.rate);
      MsMonotone(0, plan.Endpoints()[0], plan.rate);
    } else {
      LateGrows(n - 1, n, drift);
      DriftingIsASchedule(plan, rec, lap, drift, n - 1);
      DriftOn(plan, rec, Drifting(plan, rec, n - 1), lap, drift, n);
    }
  }

  lemma DriftOn(plan: Plan, rec: Recognizer, before: seq<Tick>, lap: real, drift: real, n: nat)
    requires plan.Valid() && 0 < plan.total && 0 < n && EvenTo(plan, n) && LapFits(plan, lap, drift)
    requires 0.0 <= Late(n - 1, drift) && Late(n, drift) < Ms(plan.step, plan.rate) && Laps(rec, plan.total, n, lap)
    requires plan.rolling ==> 0 < plan.window
    requires DriftsTo(plan, rec, before, drift, n - 1)
    ensures DriftsTo(plan, rec, before + [TickAt(plan, rec, n, before[n - 1].finishMs, n)], drift, n)
  {
    var s := before[n - 1];
    TickShape(plan, rec, before, n - 1);
    assert 0 < s.prefixEnd by { PlanEndpoints(plan); }
    assert Elapsed(rec, s.windowStart, s.prefixEnd, n - 1) == lap;
    DriftZero(n, drift);
    DriftStep(plan, lap, drift, n, s.finishMs);
    ExtendSchedule(plan, rec, before, n);
  }

  lemma {:induction false} DriftZero(n: nat, drift: real)
    ensures drift == 0.0 ==> Late(n, drift) == 0.0
  {
    if n > 0 {
      DriftZero(n - 1, drift);
    }
  }

  lemma DriftStep(plan: Plan, lap: real, drift: real, n: nat, finishMs: real)
    requires plan.Valid() && 0 < plan.total && EvenTo(plan, n) && LapFits(plan, lap, drift) && 0 < n
    requires 0.0 <= Late(n - 1, drift) && Late(n, drift) < Ms(plan.step, plan.rate)
    requires drift == 0.0 ==> Late(n, drift) == 0.0
    requires finishMs == Ms(plan.Endpoints()[n - 1], plan.rate) + Late(n - 1, drift) + lap
    ensures Newest(plan.Endpoints(), plan.rate, n - 1, finishMs, n)
    ensures MaxReal(Ms(plan.Endpoints()[n], plan.rate), finishMs) == Ms(plan.Endpoints()[n], plan.rate) + Late(n, drift)
  {
    PlanEndpoints(plan);
    var es := plan.Endpoints();
    assert es[(n - 1) + 1] - es[n - 1] == plan.step;
    MsAdd(es[n - 1], plan.step, plan.rate);
    MsMonotone(es[n], es[n - 1], plan.rate);
    if n + 1 < |es| {
      MsAdd(es[n], plan.step, plan.rate);
    }
  }

  lemma ExtendSchedule(plan: Plan, rec: Recognizer, before: seq<Tick>, next: nat)
    requires plan.Valid() && Schedule(plan, rec, before) && before != [] && next < |plan.Endpoints()|
    requires Newest(plan.Endpoints(), plan.rate, before[|before| - 1].index, before[|before| - 1].finishMs, next)
    ensures Schedule(plan, rec, before + [TickAt(plan, rec, next, before[|before| - 1].finishMs, |before|)])
  {
    var m := |before|;
    var ticks := before + [TickAt(plan, rec, next, before[m - 1].finishMs, m)];
    forall k | 0 < k < |ticks| ensures FollowsOn(plan, rec, ticks, k) {
      if k < m { assert FollowsOn(plan, rec, before, k); }
    }
  }

  /** A way for a budget to fail: audio of some length, a well-formed recognizer
      within the budget, and a schedule whose last pass has lost the cursor. */
  ghost predicate Loses(plan: Plan, budgetMs: real, rec: Recognizer, ticks: seq<Tick>) {
    && plan.Valid() && 0 < plan.total
    && WellFormed(rec, plan.total) && Forward(rec, plan.total) && Within(rec, plan.total, budgetMs)
    && Schedule(plan, rec, ticks) && ticks != []
    && !ReachesCursor(ticks, |ticks| - 1)
    && ticks[|ticks| - 1].watermark > CommittedBefore(ticks, |ticks| - 1)
  }

  lemma ProductsOrdered(a: int, b: int, step: int)
    requires 0 < step
    ensures a <= b ==> a * step <= b * step
    ensures (a + 1) * step == a * step + step
  {
  }

  lemma ProductAtLeast(n: nat, step: int)
    requires 1 <= step
    ensures n <= n * step
  {
  }

  /** A grid point short of the total is one of the endpoints. */
  lemma GridReaches(plan: Plan, n: nat)
    requires plan.Valid() && plan.initial + n * plan.step < plan.total
    ensures n < |plan.Endpoints()| - 1 && plan.Endpoints()[n] == plan.initial + n * plan.step
  {
    PlanEndpoints(plan);
    var es := plan.Endpoints();
    var m := |es| - 2;
    ProductsOrdered(0, n, plan.step);
    ProductsOrdered(m + 1, n, plan.step);
    ProductsOrdered(m, n, plan.step);
    if |es| > 1 {
      assert es[m] == plan.initial + m * plan.step && es[m + 1] - es[m] <= plan.step;
    }
  }

  /** The first prefix is longer than the window. */
  lemma LosesAtFirstPass(plan: Plan, budgetMs: real) returns (total: int, rec: Recognizer, ticks: seq<Tick>)
    requires plan.Valid() && plan.rolling && plan.window < plan.initial && 0.0 <= budgetMs
    ensures 0 < total && Loses(plan.(total := total), budgetMs, rec, ticks)
  {
    total := plan.initial;
    rec := Paced(0, 0.0, 0.0);
    PacedIsWellFormed(0, 0.0, 0.0, total, budgetMs);
    var p := plan.(total := total);
    PlanEndpoints(p);
    ticks := [TickAt(p, rec, 0, 0.0, 0)];
    TickShape(p, rec, ticks, 0);
  }

  /** A step is longer than what the window keeps beyond the holdback. */
  lemma LosesByCadence(plan: Plan, budgetMs: real) returns (total: int, rec: Recognizer, ticks: seq<Tick>)
    requires plan.Valid() && plan.rolling && plan.initial <= plan.window && 0.0 <= budgetMs
    requires plan.window - plan.holdback < plan.step
    ensures 0 < total && Loses(plan.(total := total), budgetMs, rec, ticks)
  {
    var n := plan.window - plan.initial + 1;
    ProductAtLeast(n, plan.step);
    total := plan.initial + n * plan.step;
    var p := plan.(total := total);
    WholeGrid(p, n);
    rec := Paced(0, 0.0, 0.0);
    PacedIsWellFormed(0, 0.0, 0.0, total, 0.0);
    ticks := InstantRun(p, rec, n);
    assert Within(rec, p.total, budgetMs);
  }

  lemma WholeGrid(plan: Plan, n: nat)
    requires plan.Valid() && 0 < n && plan.total == plan.initial + n * plan.step
    ensures |plan.Endpoints()| == n + 1 && EvenTo(plan, n)
  {
    ProductsOrdered(n - 1, n, plan.step);
    GridReaches(plan, n - 1);
    PlanEndpoints(plan);
    var es := plan.Endpoints();
    var m := |es| - 2;
    assert es[m] == plan.initial + m * plan.step;
    ProductsOrdered(n, m, plan.step);
  }

  lemma InstantRun(plan: Plan, rec: Recognizer, n: nat) returns (ticks: seq<Tick>)
    requires plan.Valid() && plan.rolling
    requires WellFormed(rec, plan.total) && Forward(rec, plan.total) && Within(rec, plan.total, 0.0)
    requires 0 < n && |plan.Endpoints()| == n + 1 && EvenTo(plan, n) && 0 < plan.window < plan.total
    requires plan.window - plan.holdback < plan.step
    ensures Loses(plan, 0.0, rec, ticks)
  {
    PlanEndpoints(plan);
    MsMonotone(plan.step, 0, plan.rate);
    MsZero(plan.rate);
    DriftZero(n, 0.0);
    assert Laps(rec, plan.total, n, 0.0) by {
      forall a: int, b: int, k: nat | 0 <= a < b <= plan.total && k < n ensures Elapsed(rec, a, b, k) == 0.0 { }
    }
    DriftingIsASchedule(plan, rec, 0.0, 0.0, n);
    ticks := Drifting(plan, rec, n);
    TickShape(plan, rec, ticks, n);
    TickShape(plan, rec, ticks, n - 1);
    FastAdvanceTo(plan, rec, ticks, n);
    var es := plan.Endpoints();
    assert es[(n - 1) + 1] - es[n - 1] == plan.step;
  }

  /** Instantaneous passes take one endpoint each. */
  lemma FastAdvanceTo(plan: Plan, rec: Recognizer, ticks: seq<Tick>, n: nat)
    requires plan.Valid() && Schedule(plan, rec, ticks) && Within(rec, plan.total, 0.0) && 0 < n < |ticks|
    ensures ticks[n].index == n && ticks[n - 1].index == n - 1
  {
    MsMonotone(0, plan.step, plan.rate);
    MsZero(plan.rate);
    assert Within(rec, plan.total, Ms(plan.step, plan.rate));
    FastAdvance(plan, rec, ticks, n);
    FastAdvance(plan, rec, ticks, n - 1);
  }

  /** A number of passes over which `late` can build up by at most `gain` a pass. */
  lemma EnoughPasses(late: real, gain: real, atLeast: nat) returns (n: nat)
    requires 0.0 <= late && 0.0 < gain
    ensures atLeast < n && 0.0 <= late / n as real <= gain && n as real * (late / n as real) == late
  {
    n := (late / gain).Floor + 1 + atLeast;
    var x := n as real;
    assert late / gain <= x;
    MulWeak(late / gain, x, gain);
    assert late <= x * gain;
    DivMonotone(late, x * gain, x);
    DivMonotone(0.0, late, x);
    assert x * gain / x == gain;
  }

  /** The lateness from which a pass of `budgetMs` lets `room + 1` frames arrive. */
  function NeededLateness(plan: Plan, budgetMs: real): real
    requires plan.Valid()
  {
    MaxReal(0.0, Ms(plan.window - plan.holdback + 1, plan.rate) - budgetMs)
  }

  /** Passes that outlast a step pile up until one of them skips too far. */
  lemma LosesByDrift(plan: Plan, budgetMs: real) returns (total: int, rec: Recognizer, ticks: seq<Tick>)
    requires plan.Valid() && plan.rolling && plan.initial <= plan.window
    requires plan.step <= plan.window - plan.holdback
    requires Ms(plan.step, plan.rate) < budgetMs
    requires Ms(plan.window - plan.holdback + 1, plan.rate) < Ms(plan.step, plan.rate) + budgetMs
    ensures 0 < total && Loses(plan.(total := total), budgetMs, rec, ticks)
  {
    MsMonotone(0, plan.step, plan.rate);
    MsZero(plan.rate);
    var late := NeededLateness(plan, budgetMs);
    var n := EnoughPasses(late, budgetMs - Ms(plan.step, plan.rate), plan.holdback);
    ProductAtLeast(n, plan.step);
    total := plan.initial + n * plan.step + (plan.window - plan.holdback) + 1;
    EvenGrid(plan.(total := total), n);
    LateIsProduct(n, late / n as real);
    rec, ticks := DriftingRun(plan.(total := total), budgetMs, n, late / n as real);
  }

  lemma DriftingRun(plan: Plan, budgetMs: real, n: nat, drift: real) returns (rec: Recognizer, ticks: seq<Tick>)
    requires plan.Valid() && plan.rolling && 0 < plan.window && 0 < plan.total && EvenTo(plan, n)
    requires n + 1 < |plan.Endpoints()| && plan.holdback < plan.Endpoints()[n]
    requires plan.total == plan.Endpoints()[n] + (plan.window - plan.holdback) + 1
    requires 0.0 <= drift <= budgetMs - Ms(plan.step, plan.rate) && 0.0 <= Ms(plan.step, plan.rate)
    requires Late(n, drift) < Ms(plan.step, plan.rate)
    requires Ms(plan.window - plan.holdback + 1, plan.rate) <= Late(n, drift) + budgetMs
    ensures Loses(plan, budgetMs, rec, ticks)
  {
    var lap := Ms(plan.step, plan.rate) + drift;
    rec := Paced(n, lap, budgetMs);
    PacedIsWellFormed(n, lap, budgetMs, plan.total, budgetMs);
    DriftingIsASchedule(plan, rec, lap, drift, n);
    ticks := SkipToEnd(plan, rec, Drifting(plan, rec, n), drift, n, budgetMs);
  }

  lemma EvenGrid(plan: Plan, n: nat)
    requires plan.Valid() && plan.initial + n * plan.step + plan.step < plan.total
    ensures EvenTo(plan, n) && n + 1 < |plan.Endpoints()| - 1
    ensures plan.Endpoints()[n] == plan.initial + n * plan.step
  {
    assert (n + 1) * plan.step == n * plan.step + plan.step;
    GridReaches(plan, n + 1);
    GridReaches(plan, n);
    PlanEndpoints(plan);
  }

  lemma SkipToEnd(plan: Plan, rec: Recognizer, before: seq<Tick>, drift: real, n: nat, budgetMs: real)
    returns (ticks: seq<Tick>)
    requires plan.Valid() && plan.rolling
    requires WellFormed(rec, plan.total) && Forward(rec, plan.total) && Within(rec, plan.total, budgetMs)
    requires n + 1 < |plan.Endpoints()| && DriftsTo(plan, rec, before, drift, n)
    requires forall a, b :: a < b ==> Elapsed(rec, a, b, n) == budgetMs
    requires plan.holdback < plan.Endpoints()[n] && 0 < plan.window && 0 < plan.total
    requires plan.total == plan.Endpoints()[n] + (plan.window - plan.holdback) + 1
    requires Ms(plan.window - plan.holdback + 1, plan.rate) <= Late(n, drift) + budgetMs
    ensures Loses(plan, budgetMs, rec, ticks)
  {
    PlanEndpoints(plan);
    TickShape(plan, rec, before, n);
    var last := |plan.Endpoints()| - 1;
    assert Elapsed(rec, before[n].windowStart, before[n].prefixEnd, n) == budgetMs;
    MsAdd(plan.Endpoints()[n], plan.window - plan.holdback + 1, plan.rate);
    ExtendSchedule(plan, rec, before, last);
    ticks := before + [TickAt(plan, rec, last, before[n].finishMs, n + 1)];
    TickShape(plan, rec, ticks, n + 1);
  }

  /** The condition is necessary: a budget that is not safe is lost by some
      audio, some well-formed recognizer within the budget, and its schedule. */
  lemma SafeBudgetIsNecessary(plan: Plan, budgetMs: real) returns (total: int, rec: Recognizer, ticks: seq<Tick>)
    requires plan.Valid() && plan.rolling && 0.0 <= budgetMs && !SafeBudget(plan, budgetMs)
    ensures 0 < total && Loses(plan.(total := total), budgetMs, rec, ticks)
  {
    if plan.window < plan.initial {
      total, rec, ticks := LosesAtFirstPass(plan, budgetMs);
    } else if plan.window - plan.holdback < plan.step {
      total, rec, ticks := LosesByCadence(plan, budgetMs);
    } else {
      total, rec, ticks := LosesByDrift(plan, budgetMs);
    }
  }
}
