/** The mouth atlas from frame features: seeding, iteration and the final order. */
module MouthAtlas {
  import opened Numeric
  import opened FarthestFirst
  import opened FeatureSpace
  import opened Medoids
  import opened MedoidPlaces
  import opened SurplusStates

  datatype AtlasError = BadStateCount | NeutralWidthMismatch

  datatype Atlas = Atlas(medoids: seq<nat>, assignments: seq<nat>)

  /** Squared distance of every frame to the neutral portrait. */
  function ToNeutral(values: seq<Vector>, width: nat, neutral: Vector): (distances: seq<real>)
    requires Features(values, width) && |neutral| == width
    ensures |distances| == |values|
    ensures forall i :: 0 <= i < |values| ==> distances[i] == Apart(values[i], neutral)
  {
    seq(|values|, i requires 0 <= i < |values| => Apart(values[i], neutral))
  }

  /** The features of these frames are pairwise different. */
  predicate AllDiffer(values: seq<Vector>, frames: seq<nat>)
    requires Within(frames, |values|)
  {
    forall s, t :: 0 <= s < t < |frames| ==> values[frames[s]] != values[frames[t]]
  }

  /** At least `k` frames have pairwise different features. */
  ghost predicate EnoughVectors(values: seq<Vector>, k: nat) {
    exists frames: seq<nat> :: |frames| == k && Within(frames, |values|) && AllDiffer(values, frames)
  }

  /** Frames stand at different places exactly if their features differ. */
  lemma PlacesAreVectors(values: seq<Vector>, width: nat, frames: seq<nat>)
    requires Features(values, width) && Within(frames, |values|)
    ensures Scattered(PairwiseSquared(values, width), frames) <==> AllDiffer(values, frames)
  {
    var d := PairwiseSquared(values, width);
    PairwiseDistances(values, width);
    forall s, t | 0 <= s < t < |frames|
      ensures 0.0 < d[frames[s]][frames[t]] <==> values[frames[s]] != values[frames[t]]
    {
      ApartSymmetric(values[frames[s]], values[frames[t]]);
      assert 0.0 <= d[frames[s]][frames[t]];
    }
  }

  lemma EnoughPlacesAreVectors(values: seq<Vector>, width: nat, k: nat)
    requires Features(values, width)
    ensures EnoughPlaces(PairwiseSquared(values, width), k) <==> EnoughVectors(values, k)
  {
    var d := PairwiseSquared(values, width);
    if EnoughPlaces(d, k) {
      var frames: seq<nat> :| |frames| == k && Within(frames, |d|) && Scattered(d, frames);
      PlacesAreVectors(values, width, frames);
    }
    if EnoughVectors(values, k) {
      var frames: seq<nat> :| |frames| == k && Within(frames, |values|) && AllDiffer(values, frames);
      PlacesAreVectors(values, width, frames);
    }
  }

  lemma EqualFeaturesEquallyNeutral(values: seq<Vector>, width: nat, neutral: Vector)
    requires Features(values, width) && |neutral| == width
    ensures NeutralCoherent(PairwiseSquared(values, width), ToNeutral(values, width, neutral))
  {
    var d, distances := PairwiseSquared(values, width), ToNeutral(values, width, neutral);
    PairwiseDistances(values, width);
    forall i, j | 0 <= i < |d| && 0 <= j < |d| && d[i][j] == 0.0 ensures distances[i] == distances[j] {
      ApartSymmetric(values[i], values[j]);
    }
  }

  lemma SwapKeepsScattered(d: Matrix, medoids: seq<nat>, s: nat)
    requires Square(d) && Symmetric(d) && Within(medoids, |d|) && s < |medoids| && Scattered(d, medoids)
    ensures Within(Swapped(medoids, s), |d|) && Scattered(d, Swapped(medoids, s))
  {
    var swapped := Swapped(medoids, s);
    forall p | 0 <= p < |swapped| ensures swapped[p] < |d| {
      assert swapped[p] == medoids[Other(p, s)];
    }
    forall p, q | 0 <= p < q < |swapped| ensures 0.0 < d[swapped[p]][swapped[q]] {
      var x, y := Other(p, s), Other(q, s);
      assert swapped[p] == medoids[x] && swapped[q] == medoids[y] && x != y;
      assert d[medoids[x]][medoids[y]] == d[medoids[y]][medoids[x]];
    }
  }

  /** A run of the iteration from the seeds of these features. */
  ghost predicate Grown(values: seq<Vector>, width: nat, neutral: Vector, stateCount: nat, trace: seq<seq<nat>>) {
    && Features(values, width) && |neutral| == width
    && Run(PairwiseSquared(values, width), trace) && |trace[0]| == stateCount
    && Seeded(PairwiseSquared(values, width), ToNeutral(values, width, neutral), trace[0])
  }

  /** Whatever the features, the medoids are as many different frames, no costlier than the
      seeds; their features differ exactly if that many frames with different features exist. */
  ghost predicate WellChosen(values: seq<Vector>, width: nat, stateCount: nat, seeds: seq<nat>, medoids: seq<nat>) {
    && Features(values, width) && seeds != [] && Within(seeds, |values|)
    && |medoids| == stateCount > 0 && Within(medoids, |values|) && Distinct(medoids)
    && (AllDiffer(values, medoids) <==> EnoughVectors(values, stateCount))
    && var d := PairwiseSquared(values, width); Spread(d, medoids, |d|) <= Spread(d, seeds, |d|)
  }

  /** No state of the atlas is nearer the neutral portrait than state 0. */
  ghost predicate NeutralLeads(values: seq<Vector>, width: nat, neutral: Vector, medoids: seq<nat>) {
    && Features(values, width) && |neutral| == width && medoids != [] && Within(medoids, |values|)
    && forall s :: 0 <= s < |medoids| ==> Apart(values[medoids[0]], neutral) <= Apart(values[medoids[s]], neutral)
  }

  /** State `lead` is the first of those nearest the neutral portrait. */
  ghost predicate MostNeutral(values: seq<Vector>, width: nat, neutral: Vector, medoids: seq<nat>, lead: nat) {
    && Features(values, width) && |neutral| == width && Within(medoids, |values|) && lead < |medoids|
    && forall s :: 0 <= s < |medoids| ==>
         && Apart(values[medoids[lead]], neutral) <= Apart(values[medoids[s]], neutral)
         && (s < lead ==> Apart(values[medoids[lead]], neutral) < Apart(values[medoids[s]], neutral))
  }

  /** `after` is `before` with the entries at 0 and `lead` exchanged. */
  predicate Exchanged(before: seq<nat>, after: seq<nat>, lead: nat) {
    && |after| == |before| && lead < |before| && after[0] == before[lead] && after[lead] == before[0]
    && forall s :: 0 < s < |before| && s != lead ==> after[s] == before[s]
  }

  ghost predicate LedBy(
    values: seq<Vector>, width: nat, neutral: Vector, before: seq<nat>, after: seq<nat>, lead: nat)
  {
    MostNeutral(values, width, neutral, before, lead) && Exchanged(before, after, lead)
  }

  /** `after` is `before` with its most neutral state and state 0 exchanged. */
  ghost predicate MostNeutralFirst(
    values: seq<Vector>, width: nat, neutral: Vector, before: seq<nat>, after: seq<nat>)
  {
    exists lead: nat :: LedBy(values, width, neutral, before, after, lead)
  }

  /** The atlas holds the medoids the run ended with, the most neutral first, and assigns
      every frame to its first nearest medoid. */
  ghost predicate IsAtlas(values: seq<Vector>, width: nat, neutral: Vector, trace: seq<seq<nat>>, atlas: Atlas) {
    && trace != [] && WellChosen(values, width, |trace[0]|, trace[0], atlas.medoids)
    && NeutralLeads(values, width, neutral, atlas.medoids)
    && (forall m :: m in atlas.medoids <==> m in trace[|trace| - 1])
    && MostNeutralFirst(values, width, neutral, trace[|trace| - 1], atlas.medoids)
    && atlas.assignments == Assignments(PairwiseSquared(values, width), atlas.medoids)
  }

  lemma LastIsWellChosen(values: seq<Vector>, width: nat, neutral: Vector, stateCount: nat, trace: seq<seq<nat>>)
    requires Grown(values, width, neutral, stateCount, trace)
    ensures WellChosen(values, width, stateCount, trace[0], trace[|trace| - 1])
  {
    var d, last := PairwiseSquared(values, width), |trace| - 1;
    IterationEndsDistinct(d, ToNeutral(values, width, neutral), trace);
    TraceNeverCostsMore(d, trace, last);
    PlacesAreVectors(values, width, trace[last]);
    EnoughPlacesAreVectors(values, width, stateCount);
  }

  /** If the iteration stops early, enough features differ, and every medoid is a middle of its
      own cluster: no frame of the cluster has a smaller summed distance to it. */
  lemma EarlyStopIsCentered(
    values: seq<Vector>, width: nat, neutral: Vector, stateCount: nat, trace: seq<seq<nat>>, state: nat, i: nat)
    requires Grown(values, width, neutral, stateCount, trace) && |trace| < 65 && state < stateCount && i < |values|
    ensures var medoids := trace[|trace| - 1];
      && WellChosen(values, width, stateCount, trace[0], medoids) && EnoughVectors(values, stateCount)
      && var d := PairwiseSquared(values, width);
         var a := Assignments(d, medoids);
         && a[medoids[state]] == state
         && (a[i] == state ==> ClusterCost(d, a, state, medoids[state], |d|) <= ClusterCost(d, a, state, i, |d|))
  {
    var d, medoids := PairwiseSquared(values, width), trace[|trace| - 1];
    LastIsWellChosen(values, width, neutral, stateCount, trace);
    IterationEndsDistinct(d, ToNeutral(values, width, neutral), trace);
    EnoughPlacesAreVectors(values, width, stateCount);
    ScatteredOwn(d, medoids, state);
    if Assignments(d, medoids)[i] == state {
      FixedPointIsCentered(d, medoids, state, i);
    }
  }

  lemma SwapKeepsWellChosen(
    values: seq<Vector>, width: nat, stateCount: nat, seeds: seq<nat>, medoids: seq<nat>, s: nat)
    requires WellChosen(values, width, stateCount, seeds, medoids) && s < |medoids|
    ensures WellChosen(values, width, stateCount, seeds, Swapped(medoids, s))
  {
    var d, swapped := PairwiseSquared(values, width), Swapped(medoids, s);
    SwapKeepsDistinct(medoids, s);
    assert medoids[0] < |d|;
    SwapKeepsSpread(d, medoids, s);
    if AllDiffer(values, medoids) {
      PairwiseDistances(values, width);
      PlacesAreVectors(values, width, medoids);
      SwapKeepsScattered(d, medoids, s);
      PlacesAreVectors(values, width, swapped);
    }
  }

  /** Seeding and iteration over the features. */
  method Grow(values: seq<Vector>, width: nat, neutral: Vector, stateCount: nat)
    returns (found: seq<nat>, ghost trace: seq<seq<nat>>)
    requires Features(values, width) && |neutral| == width && 1 <= stateCount <= |values|
    ensures Grown(values, width, neutral, stateCount, trace) && found == trace[|trace| - 1]
    ensures |found| == stateCount && Within(found, |values|)
  {
    PairwiseSquaredIsCoherent(values, width);
    EqualFeaturesEquallyNeutral(values, width, neutral);
    var d, distances := PairwiseSquared(values, width), ToNeutral(values, width, neutral);
    var seeds := Seed(d, distances, stateCount);
    found, trace := Iterate(d, seeds);
  }

  lemma SwapPutsNeutralFirst(values: seq<Vector>, width: nat, neutral: Vector, found: seq<nat>)
    requires Features(values, width) && |neutral| == width && found != [] && Within(found, |values|)
    ensures NeutralLeads(values, width, neutral, Swapped(found, NeutralState(ToNeutral(values, width, neutral), found)))
  {
    var distances := ToNeutral(values, width, neutral);
    var lead := NeutralState(distances, found);
    var medoids := Swapped(found, lead);
    forall s | 0 <= s < |medoids|
      ensures medoids[s] < |values| && Apart(values[found[lead]], neutral) <= Apart(values[medoids[s]], neutral)
    {
      var t := Other(s, lead);
      assert medoids[s] == found[t];
      assert distances[found[lead]] <= distances[found[t]];
    }
    assert medoids[0] == found[Other(0, lead)];
  }

  lemma OrderedIsAtlas(values: seq<Vector>, width: nat, neutral: Vector, found: seq<nat>, trace: seq<seq<nat>>)
    requires Grown(values, width, neutral, |found|, trace) && found == trace[|trace| - 1]
    ensures found != [] && Within(found, |values|)
    ensures var medoids := Swapped(found, NeutralState(ToNeutral(values, width, neutral), found));
      && medoids != [] && Within(medoids, |values|)
      && IsAtlas(values, width, neutral, trace, Atlas(medoids, Assignments(PairwiseSquared(values, width), medoids)))
  {
    LastIsWellChosen(values, width, neutral, |found|, trace);
    var lead := NeutralState(ToNeutral(values, width, neutral), found);
    SwapKeepsWellChosen(values, width, |found|, trace[0], found, lead);
    SwapKeepsMembers(found, lead);
    SwapPutsNeutralFirst(values, width, neutral, found);
    LeadIsMostNeutral(values, width, neutral, found);
  }

  lemma LeadIsMostNeutral(values: seq<Vector>, width: nat, neutral: Vector, found: seq<nat>)
    requires Features(values, width) && |neutral| == width && found != [] && Within(found, |values|)
    ensures var lead := NeutralState(ToNeutral(values, width, neutral), found);
      LedBy(values, width, neutral, found, Swapped(found, lead), lead)
  {
    var distances := ToNeutral(values, width, neutral);
    var lead := NeutralState(distances, found);
    forall s | 0 <= s < |found|
      ensures Apart(values[found[lead]], neutral) <= Apart(values[found[s]], neutral)
      ensures s < lead ==> Apart(values[found[lead]], neutral) < Apart(values[found[s]], neutral)
    {
      assert distances[found[lead]] <= distances[found[s]];
    }
    var swapped := Swapped(found, lead);
    assert swapped[0] == found[Other(0, lead)] && swapped[lead] == found[Other(lead, lead)];
    forall s | 0 < s < |found| && s != lead ensures swapped[s] == found[s] {
      assert swapped[s] == found[Other(s, lead)];
    }
  }

  /** The final swap and assignment. */
  method Order(values: seq<Vector>, width: nat, neutral: Vector, found: seq<nat>, ghost trace: seq<seq<nat>>)
    returns (atlas: Atlas)
    requires Grown(values, width, neutral, |found|, trace) && found == trace[|trace| - 1]
    ensures IsAtlas(values, width, neutral, trace, atlas)
  {
    OrderedIsAtlas(values, width, neutral, found, trace);
    var d := PairwiseSquared(values, width);
    assert found[0] < |d|;
    var medoids := NeutralFirst(d, ToNeutral(values, width, neutral), found);
    atlas := Atlas(medoids, Assignments(d, medoids));
  }

  /** `k_medoids`. */
  method KMedoids(values: seq<Vector>, width: nat, neutral: Vector, stateCount: int)
    returns (result: Result<Atlas, AtlasError>, ghost trace: seq<seq<nat>>)
    requires Features(values, width)
    ensures result == Failure(BadStateCount) <==> |values| < stateCount || stateCount < 2
    ensures result == Failure(NeutralWidthMismatch) <==> 2 <= stateCount <= |values| && |neutral| != width
    ensures result.Success? ==>
      Grown(values, width, neutral, stateCount, trace) && IsAtlas(values, width, neutral, trace, result.value)
  {
    trace := [];
    if |values| < stateCount || stateCount < 2 {
      return Failure(BadStateCount), trace;
    }
    if |neutral| != width {
      return Failure(NeutralWidthMismatch), trace;
    }
    var found;
    found, trace := Grow(values, width, neutral, stateCount);
    var atlas := Order(values, width, neutral, found, trace);
    result := Success(atlas);
  }
}
