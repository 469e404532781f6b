/** Medoid iteration of the mouth atlas: reassign, move each medoid to the
    middle of its cluster, stop when nothing moves; then put the state nearest
    the neutral portrait first. */
module Medoids {
  import opened Numeric
  import opened FarthestFirst
  import opened FeatureSpace

  // ---------------------------------------------------------------------- costs

  predicate States(assignments: seq<nat>, n: nat, stateCount: nat) {
    |assignments| == n && forall i :: 0 <= i < n ==> assignments[i] < stateCount
  }

  /** The assignment of every frame to its first nearest medoid. */
  function Assignments(d: Matrix, medoids: seq<nat>): (a: seq<nat>)
    requires Square(d) && Within(medoids, |d|) && medoids != []
    ensures States(a, |d|, |medoids|) && forall i :: 0 <= i < |d| ==> a[i] == Assigned(d, i, medoids)
  {
    seq(|d|, i requires 0 <= i < |d| => Assigned(d, i, medoids))
  }

  /** Summed distance of the first `n` frames to their nearest medoid. */
  function Spread(d: Matrix, medoids: seq<nat>, n: nat): real
    requires Square(d) && Within(medoids, |d|) && medoids != [] && n <= |d|
  {
    if n == 0 then 0.0 else Spread(d, medoids, n - 1) + Nearest(d, n - 1, medoids)
  }

  /** Summed distance of the first `n` frames to the medoid they are assigned to. */
  function AssignedCost(d: Matrix, assignments: seq<nat>, medoids: seq<nat>, n: nat): real
    requires Square(d) && Within(medoids, |d|) && States(assignments, |d|, |medoids|) && n <= |d|
  {
    if n == 0 then 0.0
    else AssignedCost(d, assignments, medoids, n - 1) + d[n - 1][medoids[assignments[n - 1]]]
  }

  /** Summed distance of the frames below `n` in `state` to frame `m`. */
  function ClusterCost(d: Matrix, assignments: seq<nat>, state: nat, m: nat, n: nat): real
    requires Square(d) && |assignments| == |d| && m < |d| && n <= |d|
  {
    if n == 0 then 0.0
    else ClusterCost(d, assignments, state, m, n - 1) + if assignments[n - 1] == state then d[n - 1][m] else 0.0
  }

  lemma AssignedIsNearest(d: Matrix, medoids: seq<nat>, i: nat)
    requires Square(d) && Within(medoids, |d|) && medoids != [] && i < |d|
    ensures d[i][medoids[Assignments(d, medoids)[i]]] == Nearest(d, i, medoids)
  {
    assert Assignments(d, medoids)[i] == Assigned(d, i, medoids);
  }

  lemma {:induction false} SpreadIsAssignedCost(d: Matrix, medoids: seq<nat>, n: nat)
    requires Square(d) && Within(medoids, |d|) && medoids != [] && n <= |d|
    ensures AssignedCost(d, Assignments(d, medoids), medoids, n) == Spread(d, medoids, n)
  {
    if n > 0 {
      SpreadIsAssignedCost(d, medoids, n - 1);
      AssignedIsNearest(d, medoids, n - 1);
    }
  }

  lemma {:induction false} SpreadIsLeast(d: Matrix, assignments: seq<nat>, medoids: seq<nat>, n: nat)
    requires Square(d) && Within(medoids, |d|) && medoids != [] && States(assignments, |d|, |medoids|) && n <= |d|
    ensures Spread(d, medoids, n) <= AssignedCost(d, assignments, medoids, n)
  {
    if n > 0 {
      SpreadIsLeast(d, assignments, medoids, n - 1);
      NearestIsLeast(d, n - 1, medoids, assignments[n - 1]);
    }
  }

  /** Moving one medoid changes the cost of its own cluster alone. */
  lemma {:induction false} MoveOneMedoid(
    d: Matrix, assignments: seq<nat>, medoids: seq<nat>, state: nat, m: nat, n: nat)
    requires Square(d) && Within(medoids, |d|) && States(assignments, |d|, |medoids|) && n <= |d|
    requires state < |medoids| && m < |d|
    ensures Within(medoids[state := m], |d|)
    ensures AssignedCost(d, assignments, medoids[state := m], n)
         == AssignedCost(d, assignments, medoids, n)
            - ClusterCost(d, assignments, state, medoids[state], n) + ClusterCost(d, assignments, state, m, n)
  {
    if n > 0 {
      MoveOneMedoid(d, assignments, medoids, state, m, n - 1);
    }
  }

  // -------------------------------------------------------------------- members

  /** The frames below `n` assigned to `state`, in order. */
  function Members(assignments: seq<nat>, state: nat, n: nat): (members: seq<nat>)
    requires n <= |assignments|
    ensures forall k :: 0 <= k < |members| ==> members[k] < n && assignments[members[k]] == state
    ensures forall i :: 0 <= i < n && assignments[i] == state ==> i in members
  {
    if n == 0 then []
    else Members(assignments, state, n - 1) + if assignments[n - 1] == state then [n - 1] else []
  }

  /** Summed distance from frame `m` to the first `k` members. */
  function MemberSum(d: Matrix, members: seq<nat>, m: nat, k: nat): real
    requires Square(d) && Within(members, |d|) && m < |d| && k <= |members|
  {
    if k == 0 then 0.0 else MemberSum(d, members, m, k - 1) + d[m][members[k - 1]]
  }

  lemma {:induction false} MemberSumPrefix(d: Matrix, members: seq<nat>, more: seq<nat>, m: nat, k: nat)
    requires Square(d) && Within(members, |d|) && Within(members + more, |d|) && m < |d| && k <= |members|
    ensures MemberSum(d, members + more, m, k) == MemberSum(d, members, m, k)
  {
    if k > 0 {
      MemberSumPrefix(d, members, more, m, k - 1);
    }
  }

  lemma {:induction false} MemberSumAppend(d: Matrix, members: seq<nat>, next: nat, m: nat)
    requires Square(d) && Within(members, |d|) && next < |d| && m < |d|
    ensures var longer := members + [next];
      Within(longer, |d|) && MemberSum(d, longer, m, |longer|) == MemberSum(d, members, m, |members|) + d[m][next]
  {
    var longer := members + [next];
    assert Within(longer, |d|);
    MemberSumPrefix(d, members, [next], m, |members|);
  }

  /** `ClusterCost` summed along row `m` instead of column `m`. */
  function RowCost(d: Matrix, assignments: seq<nat>, state: nat, m: nat, n: nat): real
    requires Square(d) && |assignments| == |d| && m < |d| && n <= |d|
  {
    if n == 0 then 0.0
    else RowCost(d, assignments, state, m, n - 1) + if assignments[n - 1] == state then d[m][n - 1] else 0.0
  }

  lemma {:induction false} RowCostIsClusterCost(d: Matrix, assignments: seq<nat>, state: nat, m: nat, n: nat)
    requires Square(d) && Symmetric(d) && |assignments| == |d| && m < |d| && n <= |d|
    ensures RowCost(d, assignments, state, m, n) == ClusterCost(d, assignments, state, m, n)
  {
    if n > 0 {
      RowCostIsClusterCost(d, assignments, state, m, n - 1);
    }
  }

  lemma {:induction false} MemberSumIsRowCost(d: Matrix, assignments: seq<nat>, state: nat, m: nat, n: nat)
    requires Square(d) && |assignments| == |d| && m < |d| && n <= |d|
    ensures var members := Members(assignments, state, n);
      Within(members, |d|) && MemberSum(d, members, m, |members|) == RowCost(d, assignments, state, m, n)
  {
    var members := Members(assignments, state, n);
    if n > 0 {
      MemberSumIsRowCost(d, assignments, state, m, n - 1);
      var before := Members(assignments, state, n - 1);
      if assignments[n - 1] == state {
        assert members == before + [n - 1];
        MemberSumAppend(d, before, n - 1, m);
      } else {
        assert members == before;
      }
    }
  }

  // ------------------------------------------------------------------ one update

  /** The middle of a non-empty cluster: the member with the least summed distance. */
  function Middle(d: Matrix, members: seq<nat>): (m: nat)
    requires Square(d) && Within(members, |d|) && members != []
    ensures m in members
  {
    members[ArgMin(seq(|members|, k requires 0 <= k < |members| => MemberSum(d, members, members[k], |members|)))]
  }

  lemma {:induction false} MiddleIsLeast(d: Matrix, members: seq<nat>, k: nat)
    requires Square(d) && Within(members, |d|) && k < |members|
    ensures MemberSum(d, members, Middle(d, members), |members|) <= MemberSum(d, members, members[k], |members|)
  {
    var sums := seq(|members|, k requires 0 <= k < |members| => MemberSum(d, members, members[k], |members|));
    assert sums[ArgMin(sums)] <= sums[k];
  }

  /** Of several middles it is the first. */
  lemma {:induction false} MiddleIsFirst(d: Matrix, members: seq<nat>) returns (at: nat)
    requires Square(d) && Within(members, |d|) && members != []
    ensures at < |members| && Middle(d, members) == members[at]
    ensures forall k :: 0 <= k < at ==>
      MemberSum(d, members, Middle(d, members), |members|) < MemberSum(d, members, members[k], |members|)
  {
    var sums := seq(|members|, k requires 0 <= k < |members| => MemberSum(d, members, members[k], |members|));
    at := ArgMin(sums);
    forall k | 0 <= k < at
      ensures MemberSum(d, members, Middle(d, members), |members|) < MemberSum(d, members, members[k], |members|)
    {
      assert sums[at] < sums[k];
    }
  }

  /** `updated` holds, for each of the states so far, the new medoid. */
  ghost predicate UpdatedTo(d: Matrix, medoids: seq<nat>, assignments: seq<nat>, updated: seq<nat>) {
    && Square(d) && Within(medoids, |d|) && Within(updated, |d|) && |updated| <= |medoids| && |assignments| == |d|
    && forall s :: 0 <= s < |updated| ==> UpdatedState(d, medoids, assignments, updated, s)
  }

  ghost predicate UpdatedState(d: Matrix, medoids: seq<nat>, assignments: seq<nat>, updated: seq<nat>, s: nat)
    requires Square(d) && |assignments| == |d| && Within(medoids, |d|) && s < |updated|
  {
    UpdatedAt(d, medoids, assignments, updated[..s], updated[s])
  }

  /** `m` is the middle of the cluster after those of `before`; if that is empty, it is the
      frame farthest from the old medoids that is neither one of them nor taken already. */
  ghost predicate UpdatedAt(d: Matrix, medoids: seq<nat>, assignments: seq<nat>, before: seq<nat>, m: nat)
    requires Square(d) && |assignments| == |d| && Within(medoids, |d|)
  {
    var members := Members(assignments, |before|, |d|);
    if members != [] then Within(members, |d|) && m == Middle(d, members)
    else medoids != [] && d != [] && m == ArgMax(Gaps(d, medoids, medoids + before))
  }

  method UpdateMedoids(d: Matrix, medoids: seq<nat>, assignments: seq<nat>) returns (updated: seq<nat>)
    requires Square(d) && d != [] && Within(medoids, |d|) && medoids != [] && States(assignments, |d|, |medoids|)
    ensures |updated| == |medoids| && UpdatedTo(d, medoids, assignments, updated)
  {
    updated := [];
    for state := 0 to |medoids|
      invariant |updated| == state && UpdatedTo(d, medoids, assignments, updated)
    {
      var members := Members(assignments, state, |d|);
      var next: nat;
      if members == [] {
        var gaps := Gaps(d, medoids, medoids + updated);
        next := ArgMax(gaps);
      } else {
        next := Middle(d, members);
      }
      OneMoreUpdated(d, medoids, assignments, updated, next);
      updated := updated + [next];
    }
  }

  lemma OneMoreUpdated(d: Matrix, medoids: seq<nat>, assignments: seq<nat>, updated: seq<nat>, next: nat)
    requires UpdatedTo(d, medoids, assignments, updated) && |updated| < |medoids| && next < |d|
    requires UpdatedAt(d, medoids, assignments, updated, next)
    ensures UpdatedTo(d, medoids, assignments, updated + [next])
  {
    var longer := updated + [next];
    forall s | 0 <= s < |longer| ensures UpdatedState(d, medoids, assignments, longer, s) {
      if s < |updated| {
        assert UpdatedState(d, medoids, assignments, updated, s);
        assert longer[..s] == updated[..s];
      } else {
        assert longer[..s] == updated;
      }
    }
  }

  /** Every medoid is its own nearest, unless an earlier medoid stands at the same place,
      and then its cluster is empty. */
  lemma {:induction false} MedoidInOwnCluster(d: Matrix, medoids: seq<nat>, state: nat)
    requires Distances(d) && Coherent(d) && Within(medoids, |d|) && state < |medoids|
    ensures var members := Members(Assignments(d, medoids), state, |d|);
      medoids[state] in members || members == []
  {
    var members := Members(Assignments(d, medoids), state, |d|);
    if members != [] {
      OwnNearest(d, medoids, state, members[0]);
    }
  }

  lemma OwnNearest(d: Matrix, medoids: seq<nat>, state: nat, i: nat)
    requires Distances(d) && Coherent(d) && Within(medoids, |d|) && state < |medoids|
    requires i < |d| && Assigned(d, i, medoids) == state
    ensures Assigned(d, medoids[state], medoids) == state
  {
    var m := medoids[state];
    var t := Assigned(d, m, medoids);
    NearestIsLeast(d, m, medoids, state);
    assert 0.0 <= d[m][medoids[t]] <= d[m][m];
    assert CoherentAt(d, m, medoids[t]);
    assert d[i][m] == d[i][medoids[t]];
    NearestIsLeast(d, i, medoids, t);
  }

  // ------------------------------------------------------- what an update keeps

  /** The new medoid of `state` costs its cluster no more than the old one did. */
  ghost predicate NoWorse(d: Matrix, assignments: seq<nat>, medoids: seq<nat>, updated: seq<nat>, state: nat)
    requires Square(d) && |assignments| == |d| && Within(medoids, |d|) && Within(updated, |d|)
    requires state < |medoids| == |updated|
  {
    ClusterCost(d, assignments, state, updated[state], |d|) <= ClusterCost(d, assignments, state, medoids[state], |d|)
  }

  lemma MiddleCostsNoMore(d: Matrix, medoids: seq<nat>, updated: seq<nat>, state: nat)
    requires Distances(d) && Coherent(d) && Within(medoids, |d|) && state < |medoids| == |updated|
    requires UpdatedTo(d, medoids, Assignments(d, medoids), updated)
    ensures NoWorse(d, Assignments(d, medoids), medoids, updated, state)
  {
    var a := Assignments(d, medoids);
    MedoidInOwnCluster(d, medoids, state);
    RowCostIsClusterCost(d, a, state, updated[state], |d|);
    RowCostIsClusterCost(d, a, state, medoids[state], |d|);
    MiddleRowNoMore(d, a, medoids, updated, state);
  }

  lemma {:induction false} MiddleRowNoMore(d: Matrix, a: seq<nat>, medoids: seq<nat>, updated: seq<nat>, state: nat)
    requires state < |medoids| == |updated| && UpdatedTo(d, medoids, a, updated)
    requires var members := Members(a, state, |d|); medoids[state] in members || members == []
    ensures RowCost(d, a, state, updated[state], |d|) <= RowCost(d, a, state, medoids[state], |d|)
  {
    var members := Members(a, state, |d|);
    MemberSumIsRowCost(d, a, state, updated[state], |d|);
    MemberSumIsRowCost(d, a, state, medoids[state], |d|);
    assert UpdatedState(d, medoids, a, updated, state);
    if members != [] {
      var k :| 0 <= k < |members| && members[k] == medoids[state];
      MiddleIsLeast(d, members, k);
    }
  }

  /** Medoids of which the first `s` have been moved. */
  function Partly(medoids: seq<nat>, updated: seq<nat>, s: nat): seq<nat>
    requires |medoids| == |updated| && s <= |medoids|
  {
    updated[..s] + medoids[s..]
  }

  lemma {:induction false} MovingCostsNoMore(d: Matrix, a: seq<nat>, medoids: seq<nat>, updated: seq<nat>, s: nat)
    requires Square(d) && Within(medoids, |d|) && Within(updated, |d|) && |updated| == |medoids| && s <= |medoids|
    requires States(a, |d|, |medoids|)
    requires forall t :: 0 <= t < |medoids| ==> NoWorse(d, a, medoids, updated, t)
    ensures Within(Partly(medoids, updated, s), |d|)
    ensures AssignedCost(d, a, Partly(medoids, updated, s), |d|) <= AssignedCost(d, a, medoids, |d|)
  {
    if s == 0 {
      assert Partly(medoids, updated, 0) == medoids;
    } else {
      MovingCostsNoMore(d, a, medoids, updated, s - 1);
      var before := Partly(medoids, updated, s - 1);
      assert before[s - 1] == medoids[s - 1];
      assert Partly(medoids, updated, s) == before[s - 1 := updated[s - 1]];
      MoveOneMedoid(d, a, before, s - 1, updated[s - 1], |d|);
      assert NoWorse(d, a, medoids, updated, s - 1);
    }
  }

  /** One update never raises the summed distance to the nearest medoid,
      whether or not frames share a feature vector. */
  lemma {:induction false} UpdateNeverCostsMore(d: Matrix, medoids: seq<nat>, updated: seq<nat>)
    requires Distances(d) && Coherent(d) && Updates(d, medoids, updated)
    ensures Spread(d, updated, |d|) <= Spread(d, medoids, |d|)
  {
    var a := Assignments(d, medoids);
    forall t | 0 <= t < |medoids| ensures NoWorse(d, a, medoids, updated, t) {
      MiddleCostsNoMore(d, medoids, updated, t);
    }
    CheaperMedoids(d, medoids, updated);
  }

  lemma {:induction false} CheaperMedoids(d: Matrix, medoids: seq<nat>, updated: seq<nat>)
    requires Square(d) && Within(medoids, |d|) && Within(updated, |d|) && medoids != [] && |updated| == |medoids|
    requires forall t :: 0 <= t < |medoids| ==> NoWorse(d, Assignments(d, medoids), medoids, updated, t)
    ensures Spread(d, updated, |d|) <= Spread(d, medoids, |d|)
  {
    var a := Assignments(d, medoids);
    SpreadIsAssignedCost(d, medoids, |d|);
    MovingCostsNoMore(d, a, medoids, updated, |medoids|);
    assert Partly(medoids, updated, |medoids|) == updated;
    SpreadIsLeast(d, a, updated, |d|);
  }

  lemma {:induction false} SharedPlaceIsEmpty(d: Matrix, medoids: seq<nat>, state: nat, t: nat)
    requires Distances(d) && Coherent(d) && Within(medoids, |d|) && t < state < |medoids|
    requires d[medoids[state]][medoids[t]] == 0.0
    ensures Members(Assignments(d, medoids), state, |d|) == []
  {
    var m, members := medoids[state], Members(Assignments(d, medoids), state, |d|);
    if members != [] {
      OwnNearest(d, medoids, state, members[0]);
      NearestIsLeast(d, m, medoids, t);
      NearestNonNegative(d, m, medoids);
    }
  }

  lemma EmptySharesPlace(d: Matrix, medoids: seq<nat>, state: nat) returns (t: nat)
    requires Distances(d) && Within(medoids, |d|) && state < |medoids|
    requires Members(Assignments(d, medoids), state, |d|) == []
    ensures t < state && d[medoids[state]][medoids[t]] == 0.0
  {
    var m := medoids[state];
    t := Assigned(d, m, medoids);
    assert Assignments(d, medoids)[m] != state;
    NearestIsLeast(d, m, medoids, state);
    NearestNonNegative(d, m, medoids);
  }

  /** Exactly when an earlier medoid stands at its place does a state have an empty cluster. */
  lemma {:induction false} EmptyClusterExactly(d: Matrix, medoids: seq<nat>, state: nat)
    requires Distances(d) && Coherent(d) && Within(medoids, |d|) && state < |medoids|
    ensures Members(Assignments(d, medoids), state, |d|) == [] <==>
            exists t :: 0 <= t < state && d[medoids[state]][medoids[t]] == 0.0
  {
    if Members(Assignments(d, medoids), state, |d|) == [] {
      var t := EmptySharesPlace(d, medoids, state);
    } else {
      forall t | 0 <= t < state ensures d[medoids[state]][medoids[t]] != 0.0 {
        if d[medoids[state]][medoids[t]] == 0.0 {
          SharedPlaceIsEmpty(d, medoids, state, t);
        }
      }
    }
  }

  // --------------------------------------------------------------- the iteration

  /** `updated` is what one update makes of `medoids`. */
  ghost predicate Updates(d: Matrix, medoids: seq<nat>, updated: seq<nat>) {
    && Square(d) && medoids != [] && Within(medoids, |d|) && |updated| == |medoids|
    && UpdatedTo(d, medoids, Assignments(d, medoids), updated)
  }

  ghost predicate MovesAt(d: Matrix, trace: seq<seq<nat>>, i: nat)
    requires i + 1 < |trace|
  {
    Updates(d, trace[i], trace[i + 1]) && trace[i] != trace[i + 1]
  }

  /** The medoids of successive updates, each different from the one before. */
  ghost predicate Trace(d: Matrix, trace: seq<seq<nat>>) {
    trace != [] && forall i :: 0 <= i < |trace| - 1 ==> MovesAt(d, trace, i)
  }

  /** A run of the iteration: at most 64 moves, and fewer only if it stopped where an
      update changes nothing. */
  ghost predicate Run(d: Matrix, trace: seq<seq<nat>>) {
    && Trace(d, trace) && |trace| <= 65
    && (|trace| < 65 ==> Updates(d, trace[|trace| - 1], trace[|trace| - 1]))
  }

  /** The iteration of `k_medoids`: at most 64 updates. */
  method Iterate(d: Matrix, seeds: seq<nat>) returns (medoids: seq<nat>, ghost trace: seq<seq<nat>>)
    requires d != [] && Square(d) && Within(seeds, |d|) && seeds != []
    ensures |medoids| == |seeds| && Within(medoids, |d|)
    ensures Run(d, trace) && trace[0] == seeds && trace[|trace| - 1] == medoids
  {
    medoids := seeds;
    trace := [seeds];
    var assignments := Assignments(d, medoids);
    for step := 0 to 64
      invariant |medoids| == |seeds| && Within(medoids, |d|)
      invariant assignments == Assignments(d, medoids)
      invariant Trace(d, trace) && |trace| == step + 1 && trace[0] == seeds && trace[step] == medoids
    {
      var updated := UpdateMedoids(d, medoids, assignments);
      if updated == medoids {
        return;
      }
      TraceGrows(d, trace, updated);
      trace := trace + [updated];
      medoids := updated;
      assignments := Assignments(d, medoids);
    }
  }

  lemma TraceGrows(d: Matrix, trace: seq<seq<nat>>, updated: seq<nat>)
    requires Trace(d, trace) && Updates(d, trace[|trace| - 1], updated) && updated != trace[|trace| - 1]
    ensures Trace(d, trace + [updated])
  {
    var longer := trace + [updated];
    forall i | 0 <= i < |longer| - 1 ensures MovesAt(d, longer, i) {
      if i + 1 < |trace| { assert MovesAt(d, trace, i); }
    }
  }

  /** Over the whole iteration the summed distance never rises. */
  lemma {:induction false} TraceNeverCostsMore(d: Matrix, trace: seq<seq<nat>>, i: nat)
    requires Distances(d) && Coherent(d) && Trace(d, trace) && i < |trace|
    requires trace[0] != [] && Within(trace[0], |d|)
    ensures |trace[i]| == |trace[0]| && Within(trace[i], |d|)
    ensures Spread(d, trace[i], |d|) <= Spread(d, trace[0], |d|)
  {
    if i > 0 {
      TraceNeverCostsMore(d, trace, i - 1);
      assert MovesAt(d, trace, i - 1);
      UpdateNeverCostsMore(d, trace[i - 1], trace[i]);
    }
  }

  /** Where an update changes nothing, every medoid of a non-empty cluster is a middle
      of it: no other member has a smaller summed distance to the cluster. */
  lemma {:induction false} FixedPointIsCentered(d: Matrix, medoids: seq<nat>, state: nat, i: nat)
    requires Updates(d, medoids, medoids) && Symmetric(d) && state < |medoids|
    requires i < |d| && Assignments(d, medoids)[i] == state
    ensures var a := Assignments(d, medoids);
      ClusterCost(d, a, state, medoids[state], |d|) <= ClusterCost(d, a, state, i, |d|)
  {
    var a := Assignments(d, medoids);
    var members := Members(a, state, |d|);
    assert i in members;
    var k :| 0 <= k < |members| && members[k] == i;
    assert UpdatedState(d, medoids, a, medoids, state);
    MiddleIsLeast(d, members, k);
    MemberSumIsRowCost(d, a, state, medoids[state], |d|);
    MemberSumIsRowCost(d, a, state, i, |d|);
    RowCostIsClusterCost(d, a, state, medoids[state], |d|);
    RowCostIsClusterCost(d, a, state, i, |d|);
  }

  /** Position of the first medoid nearest the neutral portrait. */
  function NeutralState(neutral: seq<real>, medoids: seq<nat>): (s: nat)
    requires medoids != [] && Within(medoids, |neutral|)
    ensures s < |medoids|
    ensures forall t :: 0 <= t < |medoids| ==> neutral[medoids[s]] <= neutral[medoids[t]]
    ensures forall t :: 0 <= t < s ==> neutral[medoids[s]] < neutral[medoids[t]]
  {
    var keys := seq(|medoids|, t requires 0 <= t < |medoids| => neutral[medoids[t]]);
    var s := ArgMin(keys);
    assert forall t :: 0 <= t < |medoids| ==> keys[s] <= keys[t] == neutral[medoids[t]];
    assert forall t :: 0 <= t < s ==> keys[s] < keys[t];
    s
  }

  function Swapped(medoids: seq<nat>, s: nat): (swapped: seq<nat>)
    requires s < |medoids|
    ensures |swapped| == |medoids|
    ensures forall p :: 0 <= p < |medoids| ==> swapped[Other(p, s)] == medoids[p] && swapped[p] == medoids[Other(p, s)]
  {
    medoids[0 := medoids[s]][s := medoids[0]]
  }

  /** Where position `p` goes when 0 and `s` change places. */
  function Other(p: nat, s: nat): (q: nat)
    ensures q == p || q == s || q == 0
  {
    if p == 0 then s else if p == s then 0 else p
  }

  /** Exchanging two medoids changes no nearest distance. */
  lemma SwapKeepsNearest(d: Matrix, medoids: seq<nat>, s: nat, i: nat)
    requires Square(d) && Within(medoids, |d|) && s < |medoids| && i < |d|
    ensures Within(Swapped(medoids, s), |d|)
    ensures Nearest(d, i, Swapped(medoids, s)) == Nearest(d, i, medoids)
  {
    var swapped := Swapped(medoids, s);
    assert forall p :: 0 <= p < |swapped| ==> swapped[p] == medoids[Other(p, s)];
    var p, q := Assigned(d, i, medoids), Assigned(d, i, swapped);
    NearestIsLeast(d, i, swapped, Other(p, s));
    NearestIsLeast(d, i, medoids, Other(q, s));
  }

  lemma {:induction false} EqualSpread(d: Matrix, a: seq<nat>, b: seq<nat>, n: nat)
    requires Square(d) && Within(a, |d|) && Within(b, |d|) && a != [] && b != [] && n <= |d|
    requires forall i :: 0 <= i < |d| ==> Nearest(d, i, a) == Nearest(d, i, b)
    ensures Spread(d, a, n) == Spread(d, b, n)
  {
    if n > 0 {
      EqualSpread(d, a, b, n - 1);
      assert Nearest(d, n - 1, a) == Nearest(d, n - 1, b);
    }
  }

  lemma {:induction false} SwapKeepsSpread(d: Matrix, medoids: seq<nat>, s: nat)
    requires Square(d) && d != [] && Within(medoids, |d|) && s < |medoids|
    ensures Within(Swapped(medoids, s), |d|)
    ensures Spread(d, Swapped(medoids, s), |d|) == Spread(d, medoids, |d|)
  {
    var swapped := Swapped(medoids, s);
    SwapKeepsNearest(d, medoids, s, 0);
    forall i | 0 <= i < |d| ensures Nearest(d, i, swapped) == Nearest(d, i, medoids) {
      SwapKeepsNearest(d, medoids, s, i);
    }
    EqualSpread(d, swapped, medoids, |d|);
  }

  lemma SwapKeepsDistinct(medoids: seq<nat>, s: nat)
    requires s < |medoids| && Distinct(medoids)
    ensures Distinct(Swapped(medoids, s))
  {
  }

  lemma SwapKeepsMembers(medoids: seq<nat>, s: nat)
    requires s < |medoids|
    ensures forall m :: m in Swapped(medoids, s) <==> m in medoids
  {
    var swapped := Swapped(medoids, s);
    forall m | m in medoids ensures m in swapped {
      var p :| 0 <= p < |medoids| && medoids[p] == m;
      assert swapped[Other(p, s)] == m;
    }
    forall m | m in swapped ensures m in medoids {
      var p :| 0 <= p < |swapped| && swapped[p] == m;
      assert medoids[Other(p, s)] == m;
    }
  }

  /** The state nearest the neutral portrait changes places with state 0. */
  method NeutralFirst(d: Matrix, neutral: seq<real>, found: seq<nat>) returns (medoids: seq<nat>)
    requires Square(d) && d != [] && |neutral| == |d| && Within(found, |d|) && found != []
    ensures medoids == Swapped(found, NeutralState(neutral, found))
    ensures |medoids| == |found| && Within(medoids, |d|) && Spread(d, medoids, |d|) == Spread(d, found, |d|)
    ensures forall m :: m in medoids <==> m in found
    ensures forall m :: m in medoids ==> neutral[medoids[0]] <= neutral[m]
  {
    var neutralState := NeutralState(neutral, found);
    medoids := found;
    if neutralState != 0 {
      medoids := medoids[0 := medoids[neutralState]][neutralState := medoids[0]];
    }
    assert medoids == Swapped(found, neutralState);
    SwapKeepsSpread(d, found, neutralState);
    SwapKeepsMembers(found, neutralState);
  }

  /** Every frame of an assignment has a nearest medoid, and the first such. */
  lemma AssignmentIsNearest(d: Matrix, medoids: seq<nat>, i: nat, t: nat)
    requires Square(d) && Within(medoids, |d|) && i < |d| && t < |medoids|
    ensures var s := Assignments(d, medoids)[i];
      d[i][medoids[s]] <= d[i][medoids[t]] && (t < s ==> d[i][medoids[s]] < d[i][medoids[t]])
  {
    NearestIsLeast(d, i, medoids, t);
  }
}
