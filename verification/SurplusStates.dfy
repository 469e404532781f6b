/** More states than places. The seeds take every place and then the lowest frames
    left over; the surplus states have empty clusters, so each update hands them other
    free frames and the next hands the seeds back. After 64 updates the medoids are
    the seeds again, and so different frames. */
module SurplusStates {
  import opened Numeric
  import opened FarthestFirst
  import opened FeatureSpace
  import opened Medoids
  import opened MedoidPlaces

  // ------------------------------------------------------------ the free frames

  /** `m` is the lowest frame not taken, or 0 if every frame is taken. */
  ghost predicate FirstFree(n: nat, taken: seq<nat>, m: nat) {
    || (m < n && m !in taken && forall i :: 0 <= i < m ==> i in taken)
    || (m == 0 && forall i :: 0 <= i < n ==> i in taken)
  }

  lemma FirstFreeUnique(n: nat, taken: seq<nat>, x: nat, y: nat)
    requires FirstFree(n, taken, x) && FirstFree(n, taken, y)
    ensures x == y
  {
  }

  ghost predicate FreeAt(n: nat, before: seq<nat>, medoids: seq<nat>, s: nat)
    requires s < |medoids|
  {
    FirstFree(n, before + medoids[..s], medoids[s])
  }

  /** From state `p` on, each state holds the lowest frame that is neither in `before`
      nor taken by an earlier state. */
  ghost predicate Refilled(n: nat, before: seq<nat>, medoids: seq<nat>, p: nat) {
    forall s :: p <= s < |medoids| ==> FreeAt(n, before, medoids, s)
  }

  lemma SurplusFrame(n: nat, seeds: seq<nat>, p: nat, s: nat)
    requires 0 < p <= s < |seeds| && Within(seeds, n) && Distinct(seeds) && Refilled(n, [], seeds, p)
    requires 0 in seeds[..p]
    ensures seeds[s] != 0 && seeds[s] !in seeds[..s] && forall i :: 0 <= i < seeds[s] ==> i in seeds[..s]
  {
    assert FreeAt(n, [], seeds, s);
    assert [] + seeds[..s] == seeds[..s];
    var t :| 0 <= t < p && seeds[..p][t] == 0;
    assert seeds[t] == 0;
  }

  lemma NotInOther(n: nat, seeds: seq<nat>, other: seq<nat>, p: nat, s: nat)
    requires 0 < p <= s < |seeds| == |other| && Within(seeds, n) && Distinct(seeds)
    requires Refilled(n, [], seeds, p) && 0 in seeds[..p]
    requires other[..p] == seeds[..p] && Refilled(n, seeds, other, p)
    ensures seeds[s] !in other
  {
    SurplusFrame(n, seeds, p, s);
    forall t | 0 <= t < |other| ensures other[t] != seeds[s] {
      if t < p {
        assert other[t] == other[..p][t] == seeds[t];
      } else {
        assert FreeAt(n, seeds, other, t);
      }
    }
  }

  /** Surplus states never keep their frame. */
  lemma SurplusMoves(n: nat, seeds: seq<nat>, other: seq<nat>, p: nat)
    requires 0 < p < |seeds| == |other| && Within(seeds, n) && Distinct(seeds)
    requires Refilled(n, [], seeds, p) && 0 in seeds[..p]
    requires other[..p] == seeds[..p] && Refilled(n, seeds, other, p)
    ensures other != seeds
  {
    NotInOther(n, seeds, other, p, p);
    assert seeds[p] in seeds;
  }

  /** Refilled twice, the surplus states are back where they started. */
  lemma {:induction false} SurplusReturns(n: nat, seeds: seq<nat>, other: seq<nat>, again: seq<nat>, p: nat, s: nat)
    requires 0 < p <= s <= |seeds| == |other| == |again| && Within(seeds, n) && Distinct(seeds)
    requires Refilled(n, [], seeds, p) && 0 in seeds[..p]
    requires other[..p] == seeds[..p] == again[..p] && Refilled(n, seeds, other, p) && Refilled(n, other, again, p)
    ensures again[..s] == seeds[..s]
  {
    if p < s {
      var t := s - 1;
      SurplusReturns(n, seeds, other, again, p, t);
      SurplusFrame(n, seeds, p, t);
      NotInOther(n, seeds, other, p, t);
      assert FreeAt(n, other, again, t);
      FirstFreeUnique(n, other + seeds[..t], seeds[t], again[t]);
      assert again[..s] == again[..t] + [again[t]] && seeds[..s] == seeds[..t] + [seeds[t]];
    }
  }

  // ------------------------------------------------------------------ one update

  /** No frame at the place of medoid `s` comes before it. */
  ghost predicate LowestAt(d: Matrix, medoids: seq<nat>, s: nat)
    requires Square(d) && Within(medoids, |d|) && s < |medoids|
  {
    forall i :: 0 <= i < |d| && d[i][medoids[s]] == 0.0 ==> medoids[s] <= i
  }

  /** The first `p` medoids are the lowest frames of all the places there are. */
  ghost predicate TakesAllPlaces(d: Matrix, medoids: seq<nat>, p: nat) {
    && Distances(d) && Within(medoids, |d|) && 0 < p <= |medoids|
    && Scattered(d, medoids[..p]) && Covering(d, medoids[..p])
    && forall s :: 0 <= s < p ==> LowestAt(d, medoids, s)
  }

  lemma ZeroTaken(d: Matrix, medoids: seq<nat>, p: nat)
    requires TakesAllPlaces(d, medoids, p) && d != []
    ensures 0 in medoids[..p]
  {
    assert PlacedAt(d, medoids[..p], 0);
    var s :| 0 <= s < p && d[0][medoids[..p][s]] == 0.0;
    assert LowestAt(d, medoids, s);
    assert medoids[..p][s] == 0;
  }

  lemma AllNear(d: Matrix, medoids: seq<nat>, p: nat, i: nat)
    requires TakesAllPlaces(d, medoids, p) && i < |d|
    ensures Nearest(d, i, medoids) == 0.0 && Assigned(d, i, medoids) < p
  {
    assert PlacedAt(d, medoids[..p], i);
    var s :| 0 <= s < p && d[i][medoids[..p][s]] == 0.0;
    NearestIsLeast(d, i, medoids, s);
    NearestNonNegative(d, i, medoids);
  }

  lemma {:induction false} SurplusIsEmpty(d: Matrix, medoids: seq<nat>, p: nat, s: nat)
    requires TakesAllPlaces(d, medoids, p) && p <= s < |medoids|
    ensures Members(Assignments(d, medoids), s, |d|) == []
  {
    var a := Assignments(d, medoids);
    var members := Members(a, s, |d|);
    if members != [] {
      AllNear(d, medoids, p, members[0]);
    }
  }

  lemma RefillIsFirstFree(d: Matrix, medoids: seq<nat>, taken: seq<nat>)
    requires Square(d) && d != [] && Within(medoids, |d|) && medoids != []
    requires forall i :: 0 <= i < |d| ==> Nearest(d, i, medoids) == 0.0
    ensures FirstFree(|d|, taken, ArgMax(Gaps(d, medoids, taken)))
  {
    var gaps := Gaps(d, medoids, taken);
    var m := ArgMax(gaps);
    assert forall i :: 0 <= i < |d| ==> gaps[i] == if i in taken then -1.0 else 0.0;
    if i :| 0 <= i < |d| && i !in taken {
      assert gaps[i] <= gaps[m];
      assert forall i :: 0 <= i < m ==> gaps[i] < gaps[m];
    } else {
      assert gaps[0] == gaps[m] == -1.0;
    }
  }

  lemma SurplusRefilled(d: Matrix, medoids: seq<nat>, updated: seq<nat>, p: nat)
    requires TakesAllPlaces(d, medoids, p) && Updates(d, medoids, updated)
    ensures Refilled(|d|, medoids, updated, p)
  {
    forall i | 0 <= i < |d| ensures Nearest(d, i, medoids) == 0.0 {
      AllNear(d, medoids, p, i);
    }
    forall s | p <= s < |updated| ensures FreeAt(|d|, medoids, updated, s) {
      SurplusIsEmpty(d, medoids, p, s);
      assert UpdatedState(d, medoids, Assignments(d, medoids), updated, s);
      RefillIsFirstFree(d, medoids, medoids + updated[..s]);
    }
  }

  lemma {:induction false} FirstMemberIsLowest(assignments: seq<nat>, state: nat, n: nat, k: nat)
    requires n <= |assignments| && k < |Members(assignments, state, n)|
    ensures Members(assignments, state, n)[0] <= Members(assignments, state, n)[k]
  {
    var rest := Members(assignments, state, n - 1);
    if k < |rest| {
      FirstMemberIsLowest(assignments, state, n - 1, k);
    }
  }

  lemma {:induction false} NoSpread(d: Matrix, members: seq<nat>, m: nat, k: nat)
    requires Square(d) && Within(members, |d|) && m < |d| && k <= |members|
    requires forall j :: 0 <= j < |members| ==> d[m][members[j]] == 0.0
    ensures MemberSum(d, members, m, k) == 0.0
  {
    if k > 0 {
      NoSpread(d, members, m, k - 1);
    }
  }

  /** In a cluster that is one place, the middle is the first member. */
  lemma MiddleOfOnePlace(d: Matrix, members: seq<nat>)
    requires Square(d) && Within(members, |d|) && members != []
    requires forall i, j :: 0 <= i < |members| && 0 <= j < |members| ==> d[members[i]][members[j]] == 0.0
    ensures Middle(d, members) == members[0]
  {
    var sums := seq(|members|, k requires 0 <= k < |members| => MemberSum(d, members, members[k], |members|));
    forall k | 0 <= k < |members| ensures sums[k] == 0.0 {
      NoSpread(d, members, members[k], |members|);
    }
    assert sums[ArgMin(sums)] == sums[0] == 0.0;
  }

  lemma OnePlace(d: Matrix, medoids: seq<nat>, p: nat, s: nat, i: nat, j: nat)
    requires TakesAllPlaces(d, medoids, p) && Coherent(d) && s < |medoids| && i < |d| && j < |d|
    requires Assigned(d, i, medoids) == s == Assigned(d, j, medoids)
    ensures d[i][j] == 0.0 && d[i][medoids[s]] == 0.0
  {
    AllNear(d, medoids, p, i);
    AllNear(d, medoids, p, j);
    SamePlace(d, i, medoids[s], j);
    assert d[medoids[s]][j] == d[j][medoids[s]];
  }

  lemma OwnPlace(d: Matrix, medoids: seq<nat>, p: nat, s: nat)
    requires TakesAllPlaces(d, medoids, p) && s < p
    ensures Assigned(d, medoids[s], medoids) == s
  {
    var m, t := medoids[s], Assigned(d, medoids[s], medoids);
    AllNear(d, medoids, p, m);
    NearestIsLeast(d, m, medoids, s);
    assert medoids[..p][t] == medoids[t] && medoids[..p][s] == m;
    assert d[m][medoids[t]] == d[medoids[t]][m];
  }

  lemma {:induction false} MiddleIsFirstMember(d: Matrix, medoids: seq<nat>, p: nat, s: nat)
    requires TakesAllPlaces(d, medoids, p) && Coherent(d) && s < p
    requires Members(Assignments(d, medoids), s, |d|) != []
    ensures var members := Members(Assignments(d, medoids), s, |d|);
      Within(members, |d|) && Middle(d, members) == members[0] && d[members[0]][medoids[s]] == 0.0
  {
    var members := Members(Assignments(d, medoids), s, |d|);
    forall i, j | 0 <= i < |members| && 0 <= j < |members| ensures d[members[i]][members[j]] == 0.0 {
      OnePlace(d, medoids, p, s, members[i], members[j]);
    }
    MiddleOfOnePlace(d, members);
    OnePlace(d, medoids, p, s, members[0], members[0]);
  }

  lemma KeepsItsPlace(d: Matrix, medoids: seq<nat>, updated: seq<nat>, p: nat, s: nat)
    requires TakesAllPlaces(d, medoids, p) && Coherent(d) && Updates(d, medoids, updated) && s < p
    ensures updated[s] == medoids[s]
  {
    var a := Assignments(d, medoids);
    var members := Members(a, s, |d|);
    OwnPlace(d, medoids, p, s);
    assert medoids[s] in members;
    var k :| 0 <= k < |members| && members[k] == medoids[s];
    MiddleIsFirstMember(d, medoids, p, s);
    assert UpdatedState(d, medoids, a, updated, s);
    FirstMemberIsLowest(a, s, |d|, k);
    assert LowestAt(d, medoids, s);
  }

  /** An update leaves the places to the same frames and refills the other states. */
  lemma UpdateRefillsSurplus(d: Matrix, medoids: seq<nat>, updated: seq<nat>, p: nat)
    requires TakesAllPlaces(d, medoids, p) && Coherent(d) && Updates(d, medoids, updated)
    ensures updated[..p] == medoids[..p] && Refilled(|d|, medoids, updated, p)
    ensures TakesAllPlaces(d, updated, p)
  {
    forall s | 0 <= s < p ensures updated[s] == medoids[s] {
      KeepsItsPlace(d, medoids, updated, p, s);
    }
    assert updated[..p] == medoids[..p];
    SurplusRefilled(d, medoids, updated, p);
    forall s | 0 <= s < p ensures LowestAt(d, updated, s) {
      assert LowestAt(d, medoids, s);
    }
  }

  // --------------------------------------------------------------- the iteration

  /** Seeds of which the first `p` take every place and the rest the lowest free frames. */
  ghost predicate SurplusSeeds(d: Matrix, seeds: seq<nat>, p: nat) {
    && TakesAllPlaces(d, seeds, p) && Coherent(d) && p < |seeds| && Distinct(seeds)
    && Refilled(|d|, [], seeds, p)
  }

  /** Two updates lead back to the seeds; one never does. */
  lemma TwoUpdatesReturn(d: Matrix, seeds: seq<nat>, other: seq<nat>, again: seq<nat>, p: nat)
    requires SurplusSeeds(d, seeds, p) && Updates(d, seeds, other) && Updates(d, other, again)
    ensures other != seeds && again == seeds
  {
    UpdateRefillsSurplus(d, seeds, other, p);
    UpdateRefillsSurplus(d, other, again, p);
    assert seeds[0] < |d|;
    ZeroTaken(d, seeds, p);
    SurplusMoves(|d|, seeds, other, p);
    SurplusReturns(|d|, seeds, other, again, p, |seeds|);
    assert again[..|seeds|] == again && seeds[..|seeds|] == seeds;
  }

  lemma {:induction false} EvenStepsAreSeeds(d: Matrix, trace: seq<seq<nat>>, p: nat, i: nat)
    requires Trace(d, trace) && SurplusSeeds(d, trace[0], p) && 2 * i < |trace|
    ensures trace[2 * i] == trace[0]
  {
    if i > 0 {
      EvenStepsAreSeeds(d, trace, p, i - 1);
      assert MovesAt(d, trace, 2 * i - 2);
      assert MovesAt(d, trace, 2 * i - 1);
      TwoUpdatesReturn(d, trace[0], trace[2 * i - 1], trace[2 * i], p);
    }
  }

  lemma NoFixedPoint(d: Matrix, seeds: seq<nat>, medoids: seq<nat>, p: nat)
    requires SurplusSeeds(d, seeds, p) && (medoids == seeds || Updates(d, seeds, medoids))
    ensures !Updates(d, medoids, medoids)
  {
    if Updates(d, medoids, medoids) {
      TwoUpdatesReturn(d, seeds, medoids, medoids, p);
    }
  }

  lemma SurplusNeverSettles(d: Matrix, trace: seq<seq<nat>>, p: nat, last: nat)
    requires Trace(d, trace) && SurplusSeeds(d, trace[0], p) && last < |trace|
    ensures !Updates(d, trace[last], trace[last])
  {
    EvenStepsAreSeeds(d, trace, p, last / 2);
    assert last % 2 == 1 ==> MovesAt(d, trace, last - 1);
    NoFixedPoint(d, trace[0], trace[last], p);
  }

  /** The iteration never settles, and its 64th update gives the seeds back. */
  lemma SurplusRunEndsAtSeeds(d: Matrix, trace: seq<seq<nat>>, p: nat)
    requires Run(d, trace) && SurplusSeeds(d, trace[0], p)
    ensures |trace| == 65 && trace[64] == trace[0]
  {
    SurplusNeverSettles(d, trace, p, |trace| - 1);
    EvenStepsAreSeeds(d, trace, p, 32);
  }

  // ---------------------------------------------------------------- from the seeding

  /** Frames that share a place are equally far from the neutral portrait. */
  ghost predicate NeutralCoherent(d: Matrix, neutral: seq<real>)
    requires Square(d) && |neutral| == |d|
  {
    forall i, j :: 0 <= i < |d| && 0 <= j < |d| && d[i][j] == 0.0 ==> neutral[i] == neutral[j]
  }

  ghost predicate Seeded(d: Matrix, neutral: seq<real>, seeds: seq<nat>) {
    && Distances(d) && Coherent(d) && d != [] && |neutral| == |d| && NeutralCoherent(d, neutral)
    && seeds != [] && Within(seeds, |d|) && Distinct(seeds)
    && seeds[0] == ArgMin(neutral) && IsFarthestFirst(d, seeds)
  }

  lemma SeedIsLowest(d: Matrix, neutral: seq<real>, seeds: seq<nat>, p: nat, s: nat)
    requires Seeded(d, neutral, seeds) && s < p <= |seeds| && Scattered(d, seeds[..p])
    ensures LowestAt(d, seeds, s)
  {
    forall i | 0 <= i < |d| && d[i][seeds[s]] == 0.0 ensures seeds[s] <= i {
      if s > 0 {
        var before := seeds[..s];
        forall t | 0 <= t < s ensures before[t] != i {
          assert seeds[..p][t] == seeds[t] && seeds[..p][s] == seeds[s];
        }
        assert FarthestAt(d, seeds, s);
        assert NoFarther(d, before, i, seeds[s]);
        SamePlaceSameState(d, i, seeds[s], before);
      }
    }
  }

  lemma SeedsRefill(d: Matrix, neutral: seq<real>, seeds: seq<nat>, p: nat)
    requires Seeded(d, neutral, seeds) && TakesAllPlaces(d, seeds, p)
    ensures Refilled(|d|, [], seeds, p)
  {
    forall s | p <= s < |seeds| ensures FreeAt(|d|, [], seeds, s) {
      SeedIsFree(d, neutral, seeds, p, s);
    }
  }

  lemma SeedIsFree(d: Matrix, neutral: seq<real>, seeds: seq<nat>, p: nat, s: nat)
    requires Seeded(d, neutral, seeds) && TakesAllPlaces(d, seeds, p) && p <= s < |seeds|
    ensures FreeAt(|d|, [], seeds, s)
  {
    var before := seeds[..s];
    assert [] + before == before;
    forall i | 0 <= i < seeds[s] ensures i in before {
      EarlierIsTaken(d, seeds, p, s, i);
    }
  }

  lemma EarlierIsTaken(d: Matrix, seeds: seq<nat>, p: nat, s: nat, i: nat)
    requires TakesAllPlaces(d, seeds, p) && IsFarthestFirst(d, seeds) && p <= s < |seeds| && i < seeds[s]
    ensures i in seeds[..s]
  {
    NearPrefix(d, seeds, p, s, i);
    NearPrefix(d, seeds, p, s, seeds[s]);
    assert FarthestAt(d, seeds, s);
    assert !NoFarther(d, seeds[..s], i, seeds[s]);
  }

  lemma NearPrefix(d: Matrix, seeds: seq<nat>, p: nat, s: nat, i: nat)
    requires TakesAllPlaces(d, seeds, p) && p <= s <= |seeds| && i < |d|
    ensures Nearest(d, i, seeds[..s]) == 0.0
  {
    var before := seeds[..s];
    assert before[..p] == seeds[..p];
    assert PlacedAt(d, seeds[..p], i);
    var t :| 0 <= t < p && d[i][seeds[..p][t]] == 0.0;
    assert before[t] == seeds[..p][t];
    NearestIsLeast(d, i, before, t);
    NearestNonNegative(d, i, before);
  }

  /** If two seeds share a place, the seeds are surplus seeds. */
  lemma CrowdedSeeds(d: Matrix, neutral: seq<real>, seeds: seq<nat>) returns (p: nat)
    requires Seeded(d, neutral, seeds) && !EnoughPlaces(d, |seeds|)
    ensures SurplusSeeds(d, seeds, p)
  {
    p := DistinctPlaces(d, seeds, 1);
    assert seeds[..|seeds|] == seeds;
    forall s | 0 <= s < p ensures LowestAt(d, seeds, s) {
      SeedIsLowest(d, neutral, seeds, p, s);
    }
    SeedsRefill(d, neutral, seeds, p);
  }

  lemma SpreadSeedsStaySpread(d: Matrix, trace: seq<seq<nat>>)
    requires Run(d, trace) && Distances(d) && Coherent(d) && trace[0] != [] && Within(trace[0], |d|)
    requires IsFarthestFirst(d, trace[0]) && EnoughPlaces(d, |trace[0]|)
    ensures var medoids := trace[|trace| - 1];
      |medoids| == |trace[0]| && Within(medoids, |d|) && Scattered(d, medoids) && Distinct(medoids)
  {
    EnoughPlacesSpreadSeeds(d, trace[0]);
    TraceKeepsScattered(d, trace, |trace| - 1);
    ScatteredIsDistinct(d, trace[|trace| - 1]);
  }

  lemma CrowdedSeedsReturn(d: Matrix, neutral: seq<real>, trace: seq<seq<nat>>)
    requires Run(d, trace) && Seeded(d, neutral, trace[0]) && !EnoughPlaces(d, |trace[0]|)
    ensures |trace| == 65 && trace[64] == trace[0] && !Scattered(d, trace[0])
  {
    var p := CrowdedSeeds(d, neutral, trace[0]);
    SurplusRunEndsAtSeeds(d, trace, p);
  }

  /** Whatever the features, the iteration ends with as many different frames; they stand
      at different places exactly if that many places exist, and are the seeds if not. */
  lemma IterationEndsDistinct(d: Matrix, neutral: seq<real>, trace: seq<seq<nat>>)
    requires Run(d, trace) && Seeded(d, neutral, trace[0])
    ensures var medoids := trace[|trace| - 1];
      && |medoids| == |trace[0]| && Within(medoids, |d|) && Distinct(medoids)
      && (Scattered(d, medoids) <==> EnoughPlaces(d, |medoids|))
      && (!EnoughPlaces(d, |medoids|) ==> |trace| == 65 && medoids == trace[0])
  {
    if EnoughPlaces(d, |trace[0]|) {
      SpreadSeedsStaySpread(d, trace);
    } else {
      CrowdedSeedsReturn(d, neutral, trace);
    }
  }

  /** Two equal frames and two states: the update gives both states frame 0. */
  lemma RepeatedMedoidExample(updated: seq<nat>)
    requires Updates([[0.0, 0.0], [0.0, 0.0]], [0, 1], updated)
    ensures updated == [0, 0] && !Distinct(updated)
  {
    var d: Matrix, medoids := [[0.0, 0.0], [0.0, 0.0]], [0, 1];
    assert Scattered(d, medoids[..1]) && Covering(d, medoids[..1]) by {
      assert d[0][medoids[..1][0]] == 0.0 && d[1][medoids[..1][0]] == 0.0;
    }
    assert Coherent(d);
    assert TakesAllPlaces(d, medoids, 1);
    UpdateRefillsSurplus(d, medoids, updated, 1);
    assert updated[0] == updated[..1][0] == medoids[..1][0];
    assert FreeAt(2, medoids, updated, 1);
    assert medoids[0] == 0 && medoids[1] == 1;
  }
}
