/** Choice of an atlas state per rendered frame, with dwell and hysteresis, and
    the frame loop that carries the choice from frame to frame. */
module StateSelector {
  import opened Numeric

  /** The enrolled states and the pose range they support. */
  datatype Atlas = Atlas(selected: seq<int>, count: int, minWidth: real, maxWidth: real, minRoll: real, maxRoll: real) {
    predicate Valid() {
      selected != [] && 0 < count
    }
  }

  /** One playback frame: its pose, and the audio, pose and class cost of every selected state. */
  datatype Frame = Frame(width: real, roll: real, base: seq<real>)

  predicate Valid(atlas: Atlas, frames: seq<Frame>) {
    atlas.Valid() && forall i :: 0 <= i < |frames| ==> |frames[i].base| == |atlas.selected|
  }

  /** The pose lies outside what the atlas covers. */
  predicate Bypassed(atlas: Atlas, frame: Frame) {
    || frame.width < atlas.minWidth * 0.92 || frame.width > atlas.maxWidth * 1.08
    || frame.roll < atlas.minRoll - 0.08 || frame.roll > atlas.maxRoll + 0.08
  }

  function AbsInt(n: int): int { if n < 0 then -n else n }

  function Continuity(atlas: Atlas, state: int, previous: Option<int>): real
    requires atlas.Valid()
  {
    if previous.None? then 0.0
    else MinReal(AbsInt(state - previous.value) as real / atlas.count as real, 0.35)
  }

  /** The full cost of every selected state, after rendering `previous`. */
  function Costs(atlas: Atlas, frame: Frame, previous: Option<int>): (costs: seq<real>)
    requires atlas.Valid() && |frame.base| == |atlas.selected|
    ensures |costs| == |atlas.selected|
  {
    seq(|frame.base|, i requires 0 <= i < |frame.base| =>
      frame.base[i] + Continuity(atlas, atlas.selected[i], previous))
  }

  /** `selected.index(state)`. */
  function IndexOf(selected: seq<int>, state: int): (i: nat)
    requires state in selected
    ensures i < |selected| && selected[i] == state
  {
    if selected[0] == state then 0 else 1 + IndexOf(selected[1..], state)
  }

  /** The position chosen: the cheapest, unless the previous state has to dwell
      or is within a quarter of it. */
  function Choose(atlas: Atlas, frame: Frame, previous: Option<int>, age: nat): (local: nat)
    requires atlas.Valid() && |frame.base| == |atlas.selected|
    ensures local < |atlas.selected|
  {
    var costs := Costs(atlas, frame, previous);
    var local := ArgMin(costs);
    if previous.Some? && previous.value in atlas.selected then
      var previousLocal := IndexOf(atlas.selected, previous.value);
      if age < 2 || costs[local] + 0.25 >= costs[previousLocal] then previousLocal else local
    else local
  }

  /** What one frame shows: an atlas state, or nothing when it is bypassed. */
  function Render(atlas: Atlas, frame: Frame, previous: Option<int>, age: nat): Option<int>
    requires atlas.Valid() && |frame.base| == |atlas.selected|
  {
    if Bypassed(atlas, frame) then None else Some(atlas.selected[Choose(atlas, frame, previous, age)])
  }

  function Bypasses(states: seq<Option<int>>): nat {
    if states == [] then 0 else Bypasses(states[..|states| - 1]) + if states[|states| - 1].None? then 1 else 0
  }

  /** `previous` is the state rendered last and `age` counts the frames just
      before now that all rendered it. */
  ghost predicate Remembers(atlas: Atlas, states: seq<Option<int>>, previous: Option<int>, age: nat) {
    && age <= |states|
    && (forall k :: |states| - age <= k < |states| ==> states[k] == previous)
    && (previous.Some? ==> previous.value in atlas.selected)
    && (age > 0 ==> previous.Some?)
    && (states != [] && states[|states| - 1].Some? ==> age > 0)
    && (previous.Some? && age < |states| ==> states[|states| - 1 - age] != previous)
    && LastRendered(states, |states|, previous)
  }

  /** A rendered frame shows a selected state; where it shows another state than
      the frame rendered last, the switch was earned. */
  ghost predicate SwitchEarned(atlas: Atlas, frames: seq<Frame>, states: seq<Option<int>>, i: nat, j: nat)
    requires Valid(atlas, frames) && i < j < |states| <= |frames| && states[i].Some? && states[j].Some?
  {
    && j == i + 1 && 0 < i && states[i - 1] == states[i]
    && states[i].value in atlas.selected && states[j].value in atlas.selected
    && var costs := Costs(atlas, frames[j], states[i]);
       var best := ArgMin(costs);
       atlas.selected[best] == states[j].value && costs[best] + 0.25 < costs[IndexOf(atlas.selected, states[i].value)]
  }

  /** Consecutive rendered frames, bypasses between them or not, that show different states. */
  predicate Switches(states: seq<Option<int>>, i: nat, j: nat) {
    && i < j < |states| && states[i].Some? && states[j].Some? && states[i] != states[j]
    && forall k :: i < k < j ==> states[k].None?
  }

  /** Every switch of the run so far was earned. */
  ghost predicate DwellSafe(atlas: Atlas, frames: seq<Frame>, states: seq<Option<int>>)
    requires Valid(atlas, frames) && |states| <= |frames|
  {
    forall i, j :: 0 <= i && 0 <= j && Switches(states, i, j) ==> SwitchEarned(atlas, frames, states, i, j)
  }

  /** What holds of the first frames of a run and the memory they leave behind. */
  ghost predicate SoFar(atlas: Atlas, frames: seq<Frame>, states: seq<Option<int>>, previous: Option<int>, age: nat) {
    && Valid(atlas, frames) && |states| <= |frames|
    && Remembers(atlas, states, previous, age)
    && DwellSafe(atlas, frames, states) && AllJustified(atlas, frames, states)
    && forall i :: 0 <= i < |states| ==> (states[i].None? <==> Bypassed(atlas, frames[i]))
  }

  method RenderAll(atlas: Atlas, frames: seq<Frame>) returns (states: seq<Option<int>>, bypasses: nat)
    requires Valid(atlas, frames)
    ensures |states| == |frames| && bypasses == Bypasses(states)
    ensures forall i :: 0 <= i < |frames| ==>
      (states[i].Some? <==>
        && atlas.minWidth * 0.92 <= frames[i].width <= atlas.maxWidth * 1.08
        && atlas.minRoll - 0.08 <= frames[i].roll <= atlas.maxRoll + 0.08)
    ensures DwellSafe(atlas, frames, states)
    ensures AllJustified(atlas, frames, states)
  {
    states, bypasses := [], 0;
    var previous, age := None, 0;
    for index := 0 to |frames|
      invariant |states| == index && bypasses == Bypasses(states)
      invariant SoFar(atlas, frames, states, previous, age)
    {
      var state := Render(atlas, frames[index], previous, age);
      FrameStep(atlas, frames, states, previous, age, state);
      BypassStep(states, state);
      if state.Some? {
        age := if state == previous then age + 1 else 1;
        previous := state;
      } else {
        bypasses := bypasses + 1;
        age := 0;
      }
      states := states + [state];
    }
  }

  /** The frame at `i` costs no more than a quarter above the cheapest state,
      unless it repeats the state rendered last because that has to dwell. */
  ghost predicate Justified(atlas: Atlas, frames: seq<Frame>, states: seq<Option<int>>, i: nat)
    requires Valid(atlas, frames) && i < |states| <= |frames| && states[i].Some?
  {
    states[i].value in atlas.selected &&
    exists previous: Option<int> :: JustifiedAfter(atlas, frames, states, i, previous)
  }

  /** `previous` is the state rendered last before frame `i`, and the frame is justified after it. */
  ghost predicate JustifiedAfter(atlas: Atlas, frames: seq<Frame>, states: seq<Option<int>>, i: nat,
                                 previous: Option<int>)
    requires Valid(atlas, frames) && i < |states| <= |frames| && states[i].Some?
  {
    && LastRendered(states, i, previous)
    && (previous.None? ==> Cheapest(atlas, frames[i], states[i].value))
    && (Cheap(atlas, frames[i], previous, states[i].value)
        || (states[i] == previous && !(2 <= i && states[i - 1] == states[i - 2] == previous)))
  }

  /** With nothing rendered before, the state is the first of those with the least cost. */
  ghost predicate Cheapest(atlas: Atlas, frame: Frame, state: int)
    requires atlas.Valid() && |frame.base| == |atlas.selected|
  {
    exists k :: 0 <= k < |frame.base| && atlas.selected[k] == state && LeastBase(frame.base, k)
  }

  predicate LeastBase(base: seq<real>, k: nat)
    requires k < |base|
  {
    forall i :: 0 <= i < |base| ==> base[k] <= base[i] && (i < k ==> base[k] < base[i])
  }

  /** `previous` is the state rendered last before frame `i`, if there was one. */
  ghost predicate LastRendered(states: seq<Option<int>>, i: nat, previous: Option<int>)
    requires i <= |states|
  {
    if previous.None? then forall k :: 0 <= k < i ==> states[k].None?
    else exists m :: 0 <= m < i && states[m] == previous && forall k :: m < k < i ==> states[k].None?
  }

  ghost predicate Cheap(atlas: Atlas, frame: Frame, previous: Option<int>, state: int)
    requires atlas.Valid() && |frame.base| == |atlas.selected|
  {
    var costs := Costs(atlas, frame, previous);
    exists k :: 0 <= k < |costs| && atlas.selected[k] == state &&
      forall i :: 0 <= i < |costs| ==> costs[k] <= costs[i] + 0.25
  }

  // ------------------------------------------------------------ one frame further

  /** The memory after a frame. */
  function NextPrevious(previous: Option<int>, state: Option<int>): Option<int> {
    if state.Some? then state else previous
  }

  function NextAge(previous: Option<int>, age: nat, state: Option<int>): nat {
    if state.None? then 0 else if state == previous then age + 1 else 1
  }

  lemma FrameStep(atlas: Atlas, frames: seq<Frame>, states: seq<Option<int>>, previous: Option<int>, age: nat,
                  state: Option<int>)
    requires SoFar(atlas, frames, states, previous, age) && |states| < |frames|
    requires state == Render(atlas, frames[|states|], previous, age)
    ensures SoFar(atlas, frames, states + [state], NextPrevious(previous, state), NextAge(previous, age, state))
  {
    var longer := states + [state];
    assert Remembers(atlas, longer, NextPrevious(previous, state), NextAge(previous, age, state)) by {
      RememberStep(atlas, frames, states, previous, age, state);
    }
    assert DwellSafe(atlas, frames, longer) by {
      DwellStep(atlas, frames, states, previous, age, state);
    }
    assert AllJustified(atlas, frames, longer) by {
      JustifyAll(atlas, frames, states, previous, age, state);
    }
  }

  lemma {:induction false} BypassStep(states: seq<Option<int>>, state: Option<int>)
    ensures Bypasses(states + [state]) == Bypasses(states) + if state.None? then 1 else 0
  {
    assert (states + [state])[..|states|] == states;
  }

  lemma DwellStep(atlas: Atlas, frames: seq<Frame>, states: seq<Option<int>>, previous: Option<int>, age: nat,
                  state: Option<int>)
    requires Valid(atlas, frames) && |states| < |frames| && Remembers(atlas, states, previous, age)
    requires state == Render(atlas, frames[|states|], previous, age)
    requires DwellSafe(atlas, frames, states)
    ensures DwellSafe(atlas, frames, states + [state])
  {
    var longer, n := states + [state], |states|;
    forall i, j | 0 <= i && 0 <= j && Switches(longer, i, j) ensures SwitchEarned(atlas, frames, longer, i, j) {
      if j < n {
        EarnedStable(atlas, frames, states, state, i, j);
      } else {
        SwitchStep(atlas, frames, states, previous, age, state, i);
      }
    }
  }

  lemma EarnedStable(atlas: Atlas, frames: seq<Frame>, states: seq<Option<int>>, state: Option<int>, i: nat, j: nat)
    requires Valid(atlas, frames) && |states| < |frames| && j < |states| && Switches(states + [state], i, j)
    requires DwellSafe(atlas, frames, states)
    ensures SwitchEarned(atlas, frames, states + [state], i, j)
  {
    forall k | i < k < j ensures states[k].None? {
      assert (states + [state])[k].None?;
    }
    assert Switches(states, i, j);
    assert SwitchEarned(atlas, frames, states, i, j);
  }

  ghost predicate AllJustified(atlas: Atlas, frames: seq<Frame>, states: seq<Option<int>>)
    requires Valid(atlas, frames) && |states| <= |frames|
  {
    forall i {:trigger Justified(atlas, frames, states, i)} ::
      0 <= i < |states| && states[i].Some? ==> Justified(atlas, frames, states, i)
  }

  lemma JustifyAll(atlas: Atlas, frames: seq<Frame>, states: seq<Option<int>>, previous: Option<int>, age: nat,
                   state: Option<int>)
    requires Valid(atlas, frames) && |states| < |frames| && Remembers(atlas, states, previous, age)
    requires state == Render(atlas, frames[|states|], previous, age)
    requires AllJustified(atlas, frames, states)
    ensures AllJustified(atlas, frames, states + [state])
  {
    var longer := states + [state];
    forall i | 0 <= i < |longer| && longer[i].Some? ensures Justified(atlas, frames, longer, i) {
      if i < |states| {
        JustifiedStable(atlas, frames, states, state, i);
      } else {
        JustifyStep(atlas, frames, states, previous, age, state);
      }
    }
  }

  lemma LastRenderedStable(states: seq<Option<int>>, state: Option<int>, i: nat, previous: Option<int>)
    requires i <= |states| && LastRendered(states, i, previous)
    ensures LastRendered(states + [state], i, previous)
  {
    if previous.Some? {
      var m :| 0 <= m < i && states[m] == previous && forall k :: m < k < i ==> states[k].None?;
      assert (states + [state])[m] == previous;
    }
  }

  lemma RememberStep(atlas: Atlas, frames: seq<Frame>, states: seq<Option<int>>, previous: Option<int>, age: nat,
                     state: Option<int>)
    requires Valid(atlas, frames) && |states| < |frames| && Remembers(atlas, states, previous, age)
    requires state == Render(atlas, frames[|states|], previous, age)
    ensures Remembers(atlas, states + [state], NextPrevious(previous, state), NextAge(previous, age, state))
  {
    if state.None? {
      RememberBypass(atlas, states, previous, age);
    } else {
      RememberState(atlas, states, previous, age, state);
    }
  }

  lemma RememberBypass(atlas: Atlas, states: seq<Option<int>>, previous: Option<int>, age: nat)
    requires Remembers(atlas, states, previous, age)
    ensures Remembers(atlas, states + [None], previous, 0)
  {
    BypassKeepsLast(states, previous);
    assert (states + [None])[|states|] != previous || previous.None?;
  }

  lemma BypassKeepsLast(states: seq<Option<int>>, previous: Option<int>)
    requires LastRendered(states, |states|, previous)
    ensures LastRendered(states + [None], |states| + 1, previous)
  {
    var longer, n := states + [None], |states|;
    if previous.Some? {
      var m :| 0 <= m < n && states[m] == previous && forall k :: m < k < n ==> states[k].None?;
      assert longer[m] == previous;
    }
  }

  lemma RememberState(atlas: Atlas, states: seq<Option<int>>, previous: Option<int>, age: nat, state: Option<int>)
    requires Remembers(atlas, states, previous, age) && state.Some? && state.value in atlas.selected
    ensures Remembers(atlas, states + [state], state, NextAge(previous, age, state))
  {
    var longer, n := states + [state], |states|;
    assert longer[n] == state;
    assert LastRendered(longer, n + 1, state);
  }

  /** The state rendered last is unique. */
  lemma LastRenderedUnique(states: seq<Option<int>>, n: nat, previous: Option<int>, i: nat)
    requires n <= |states| && LastRendered(states, n, previous)
    requires i < n && states[i].Some? && forall k :: i < k < n ==> states[k].None?
    ensures states[i] == previous
  {
    if previous.Some? {
      var m :| 0 <= m < n && states[m] == previous && forall k :: m < k < n ==> states[k].None?;
      assert m == i;
    }
  }

  lemma SwitchStep(atlas: Atlas, frames: seq<Frame>, states: seq<Option<int>>, previous: Option<int>, age: nat,
                   state: Option<int>, i: nat)
    requires Valid(atlas, frames) && |states| < |frames| && Remembers(atlas, states, previous, age)
    requires state == Render(atlas, frames[|states|], previous, age)
    requires Switches(states + [state], i, |states|)
    ensures SwitchEarned(atlas, frames, states + [state], i, |states|)
  {
    var longer, n := states + [state], |states|;
    forall k | i < k < n ensures states[k].None? {
      assert longer[k].None?;
    }
    LastRenderedUnique(states, n, previous, i);
    assert longer[i] == previous && state != previous;
    assert age >= 2;
    assert states[n - 1] == previous && states[n - 2] == previous;
  }

  lemma JustifiedStable(atlas: Atlas, frames: seq<Frame>, states: seq<Option<int>>, state: Option<int>, i: nat)
    requires Valid(atlas, frames) && |states| < |frames| && i < |states| && states[i].Some?
    requires Justified(atlas, frames, states, i)
    ensures Justified(atlas, frames, states + [state], i)
  {
    var previous: Option<int> :| JustifiedAfter(atlas, frames, states, i, previous);
    LastRenderedStable(states, state, i, previous);
    assert JustifiedAfter(atlas, frames, states + [state], i, previous);
  }

  lemma JustifyStep(atlas: Atlas, frames: seq<Frame>, states: seq<Option<int>>, previous: Option<int>, age: nat,
                    state: Option<int>)
    requires Valid(atlas, frames) && |states| < |frames| && Remembers(atlas, states, previous, age)
    requires state == Render(atlas, frames[|states|], previous, age) && state.Some?
    ensures Justified(atlas, frames, states + [state], |states|)
  {
    var n := |states|;
    LastRenderedStable(states, state, n, previous);
    if previous.None? {
      FirstIsCheapest(atlas, frames[n], age, state);
    }
    if age >= 2 || previous.None? || state != previous {
      ChosenIsCheap(atlas, frames[n], previous, age, state);
    } else {
      StillDwells(atlas, states, previous, age);
    }
    assert JustifiedAfter(atlas, frames, states + [state], n, previous);
  }

  lemma StillDwells(atlas: Atlas, states: seq<Option<int>>, previous: Option<int>, age: nat)
    requires Remembers(atlas, states, previous, age) && previous.Some? && age < 2
    ensures var n := |states|; !(2 <= n && states[n - 1] == states[n - 2] == previous)
  {
  }

  lemma FirstIsCheapest(atlas: Atlas, frame: Frame, age: nat, state: Option<int>)
    requires atlas.Valid() && |frame.base| == |atlas.selected|
    requires state == Render(atlas, frame, None, age) && state.Some?
    ensures Cheapest(atlas, frame, state.value)
  {
    var costs := Costs(atlas, frame, None);
    assert forall k :: 0 <= k < |costs| ==> costs[k] == frame.base[k];
    assert LeastBase(frame.base, ArgMin(costs));
  }

  /** Unless a state has to dwell, the choice is within a quarter of the cheapest. */
  lemma ChosenIsCheap(atlas: Atlas, frame: Frame, previous: Option<int>, age: nat, state: Option<int>)
    requires atlas.Valid() && |frame.base| == |atlas.selected|
    requires state == Render(atlas, frame, previous, age) && state.Some?
    requires age >= 2 || previous.None? || state != previous
    ensures Cheap(atlas, frame, previous, state.value)
  {
    var costs, local := Costs(atlas, frame, previous), Choose(atlas, frame, previous, age);
    assert atlas.selected[local] == state.value;
    assert forall i :: 0 <= i < |costs| ==> costs[local] <= costs[i] + 0.25;
  }

  // -------------------------------------------------------------- what a change costs

  /** What a state costs on top of its own: nothing if no state was shown before or it is that state,
      otherwise its distance from it in parts of the atlas, at most 0.35. */
  lemma CostIs(atlas: Atlas, frame: Frame, previous: Option<int>, k: nat)
    requires atlas.Valid() && |frame.base| == |atlas.selected| && k < |atlas.selected|
    ensures var extra, state := Costs(atlas, frame, previous)[k] - frame.base[k], atlas.selected[k];
      && (previous.None? ==> extra == 0.0)
      && (previous.Some? && previous.value <= state ==>
            extra == MinReal((state - previous.value) as real / atlas.count as real, 0.35))
      && (previous.Some? && state < previous.value ==>
            extra == MinReal((previous.value - state) as real / atlas.count as real, 0.35))
      && 0.0 <= extra <= 0.35 && (extra == 0.0 <==> previous.None? || previous.value == state)
  {
    if previous.Some? && previous.value != atlas.selected[k] {
      PositiveQuotient(AbsInt(atlas.selected[k] - previous.value) as real, atlas.count as real);
    }
  }

  lemma PositiveQuotient(a: real, b: real)
    requires 0.0 < a && 0.0 < b
    ensures 0.0 < a / b
  {
  }

  /** What a run pays for a change: at the frame where the state changes, the new state undercuts the
      held one by more than 0.25 even with its distance from it added, and with their own distances
      added it undercuts every other state. */
  lemma ChangeIsWorthIt(atlas: Atlas, frames: seq<Frame>, states: seq<Option<int>>, i: nat, j: nat)
    returns (held: nat, taken: nat)
    requires Valid(atlas, frames) && |states| <= |frames| && DwellSafe(atlas, frames, states) && Switches(states, i, j)
    ensures held < |atlas.selected| && taken < |atlas.selected| && j == i + 1 && 0 < i && states[i - 1] == states[i]
    ensures atlas.selected[held] == states[i].value && atlas.selected[taken] == states[j].value
    ensures var base := frames[j].base;
      && base[taken] + DistanceCost(atlas, states[i].value, taken) + 0.25 < base[held]
      && forall k :: 0 <= k < |atlas.selected| ==>
           base[taken] + DistanceCost(atlas, states[i].value, taken) <=
           base[k] + DistanceCost(atlas, states[i].value, k)
  {
    assert SwitchEarned(atlas, frames, states, i, j);
    var costs := Costs(atlas, frames[j], states[i]);
    held, taken := IndexOf(atlas.selected, states[i].value), ArgMin(costs);
    CostIs(atlas, frames[j], states[i], held);
    CostIs(atlas, frames[j], states[i], taken);
    forall k | 0 <= k < |atlas.selected|
      ensures frames[j].base[taken] + DistanceCost(atlas, states[i].value, taken)
           <= frames[j].base[k] + DistanceCost(atlas, states[i].value, k)
    {
      CostIs(atlas, frames[j], states[i], k);
      assert costs[taken] <= costs[k];
    }
  }

  /** What a run saves by not changing: a state shown in the two frames before, and kept, is within 0.25
      of every state with that state's distance from it added. */
  lemma KeptIsCheap(atlas: Atlas, frames: seq<Frame>, states: seq<Option<int>>, i: nat) returns (kept: nat)
    requires Valid(atlas, frames) && |states| <= |frames| && AllJustified(atlas, frames, states)
    requires 2 <= i < |states| && states[i].Some? && states[i] == states[i - 1] == states[i - 2]
    ensures kept < |atlas.selected| && atlas.selected[kept] == states[i].value
    ensures forall k :: 0 <= k < |atlas.selected| ==>
      frames[i].base[kept] <= frames[i].base[k] + DistanceCost(atlas, states[i].value, k) + 0.25
  {
    assert Justified(atlas, frames, states, i);
    var previous: Option<int> :| JustifiedAfter(atlas, frames, states, i, previous);
    assert previous == states[i - 1] by { LastRenderedUnique(states, i, previous, i - 1); }
    kept := CheapIs(atlas, frames[i], states[i].value);
  }

  lemma CheapIs(atlas: Atlas, frame: Frame, state: int) returns (kept: nat)
    requires atlas.Valid() && |frame.base| == |atlas.selected| && Cheap(atlas, frame, Some(state), state)
    ensures kept < |atlas.selected| && atlas.selected[kept] == state
    ensures forall k :: 0 <= k < |atlas.selected| ==>
      frame.base[kept] <= frame.base[k] + DistanceCost(atlas, state, k) + 0.25
  {
    var costs := Costs(atlas, frame, Some(state));
    kept :| 0 <= kept < |costs| && atlas.selected[kept] == state &&
      forall k :: 0 <= k < |costs| ==> costs[kept] <= costs[k] + 0.25;
    CostIs(atlas, frame, Some(state), kept);
    forall k | 0 <= k < |atlas.selected|
      ensures frame.base[kept] <= frame.base[k] + DistanceCost(atlas, state, k) + 0.25
    {
      CostIs(atlas, frame, Some(state), k);
      assert costs[kept] <= costs[k] + 0.25;
    }
  }

  /** The distance of state `k` of the atlas from `state`, in parts of the atlas, at most 0.35. */
  function DistanceCost(atlas: Atlas, state: int, k: nat): real
    requires atlas.Valid() && k < |atlas.selected|
  {
    var moved := if state <= atlas.selected[k] then atlas.selected[k] - state else state - atlas.selected[k];
    MinReal(moved as real / atlas.count as real, 0.35)
  }
}
