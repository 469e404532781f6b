/** Where the medoids stand. Frames at no distance from each other share a place;
    medoids keep different places exactly when there are enough of them, and
    stay different frames even when there are not. */
module MedoidPlaces {
  import opened FarthestFirst
  import opened FeatureSpace
  import opened Medoids

  /** The medoids stand at pairwise different places. */
  predicate Scattered(d: Matrix, medoids: seq<nat>)
    requires Square(d) && Within(medoids, |d|)
  {
    forall s, t :: 0 <= s < t < |medoids| ==> 0.0 < d[medoids[s]][medoids[t]]
  }

  /** Some `k` frames stand at pairwise different places. */
  ghost predicate EnoughPlaces(d: Matrix, k: nat)
    requires Square(d)
  {
    exists frames: seq<nat> :: |frames| == k && Within(frames, |d|) && Scattered(d, frames)
  }

  lemma ScatteredIsDistinct(d: Matrix, medoids: seq<nat>)
    requires Distances(d) && Within(medoids, |d|) && Scattered(d, medoids)
    ensures Distinct(medoids)
  {
  }

  /** Frames that share a place are equally far from every frame. */
  lemma SamePlace(d: Matrix, a: nat, b: nat, i: nat)
    requires Distances(d) && Coherent(d) && a < |d| && b < |d| && i < |d| && d[a][b] == 0.0
    ensures d[a][i] == d[b][i] && d[i][a] == d[i][b]
  {
    assert CoherentAt(d, a, b);
    assert d[a][i] == d[i][a] && d[b][i] == d[i][b];
  }

  lemma SamePlaceSameState(d: Matrix, a: nat, b: nat, medoids: seq<nat>)
    requires Distances(d) && Coherent(d) && a < |d| && b < |d| && d[a][b] == 0.0
    requires Within(medoids, |d|) && medoids != []
    ensures Assigned(d, a, medoids) == Assigned(d, b, medoids) && Nearest(d, a, medoids) == Nearest(d, b, medoids)
  {
    forall s | 0 <= s < |medoids| ensures d[a][medoids[s]] == d[b][medoids[s]] {
      SamePlace(d, a, b, medoids[s]);
    }
    assert ToMedoids(d, a, medoids) == ToMedoids(d, b, medoids);
  }

  // ---------------------------------------------------------- enough places

  lemma ScatteredOwn(d: Matrix, medoids: seq<nat>, s: nat)
    requires Distances(d) && Within(medoids, |d|) && Scattered(d, medoids) && s < |medoids|
    ensures Assigned(d, medoids[s], medoids) == s
  {
    var m := medoids[s];
    var t := Assigned(d, m, medoids);
    NearestIsLeast(d, m, medoids, s);
    assert d[m][medoids[t]] <= d[m][m] == 0.0;
    assert d[m][medoids[t]] == d[medoids[t]][m];
  }

  lemma {:induction false} UpdatedStaysInCluster(d: Matrix, medoids: seq<nat>, a: seq<nat>, updated: seq<nat>, s: nat)
    requires UpdatedTo(d, medoids, a, updated) && s < |updated| && Members(a, s, |d|) != []
    ensures a[updated[s]] == s
  {
    assert UpdatedState(d, medoids, a, updated, s);
  }

  lemma {:induction false} ScatteredMember(d: Matrix, medoids: seq<nat>, s: nat)
    requires Distances(d) && Within(medoids, |d|) && Scattered(d, medoids) && s < |medoids|
    ensures medoids[s] in Members(Assignments(d, medoids), s, |d|)
  {
    ScatteredOwn(d, medoids, s);
  }

  lemma DifferentStatesApart(d: Matrix, medoids: seq<nat>, x: nat, y: nat)
    requires Distances(d) && Coherent(d) && Within(medoids, |d|) && medoids != [] && x < |d| && y < |d|
    requires Assigned(d, x, medoids) != Assigned(d, y, medoids)
    ensures 0.0 < d[x][y]
  {
    assert 0.0 <= d[x][y];
    if d[x][y] == 0.0 {
      SamePlaceSameState(d, x, y, medoids);
    }
  }

  /** Medoids at different places have no empty cluster, each lies in its own, and
      an update leaves them at different places. */
  lemma {:induction false} UpdateKeepsScattered(d: Matrix, medoids: seq<nat>, updated: seq<nat>)
    requires Distances(d) && Coherent(d) && Updates(d, medoids, updated) && Scattered(d, medoids)
    ensures forall s :: 0 <= s < |medoids| ==> medoids[s] in Members(Assignments(d, medoids), s, |d|)
    ensures Scattered(d, updated)
  {
    var a := Assignments(d, medoids);
    forall s | 0 <= s < |medoids| ensures medoids[s] in Members(a, s, |d|) {
      ScatteredMember(d, medoids, s);
    }
    forall s, t | 0 <= s < t < |updated| ensures 0.0 < d[updated[s]][updated[t]] {
      UpdatedStaysInCluster(d, medoids, a, updated, s);
      UpdatedStaysInCluster(d, medoids, a, updated, t);
      DifferentStatesApart(d, medoids, updated[s], updated[t]);
    }
  }

  lemma {:induction false} TraceKeepsScattered(d: Matrix, trace: seq<seq<nat>>, i: nat)
    requires Distances(d) && Coherent(d) && Trace(d, trace) && i < |trace|
    requires Within(trace[0], |d|) && Scattered(d, trace[0])
    ensures |trace[i]| == |trace[0]| && Within(trace[i], |d|) && Scattered(d, trace[i])
  {
    if i > 0 {
      TraceKeepsScattered(d, trace, i - 1);
      assert MovesAt(d, trace, i - 1);
      UpdateKeepsScattered(d, trace[i - 1], trace[i]);
    }
  }

  /** Every frame shares its place with one of these. */
  ghost predicate Covering(d: Matrix, medoids: seq<nat>)
    requires Square(d) && Within(medoids, |d|)
  {
    forall i :: 0 <= i < |d| ==> PlacedAt(d, medoids, i)
  }

  ghost predicate PlacedAt(d: Matrix, medoids: seq<nat>, i: nat)
    requires Square(d) && Within(medoids, |d|) && i < |d|
  {
    exists s :: 0 <= s < |medoids| && d[i][medoids[s]] == 0.0
  }

  /** The seeds up to the first that repeats a place: they stand at different places,
      and if any seed is left they already take in every place. */
  lemma {:induction false} DistinctPlaces(d: Matrix, seeds: seq<nat>, t: nat) returns (p: nat)
    requires Distances(d) && Within(seeds, |d|) && IsFarthestFirst(d, seeds) && 0 < t <= |seeds|
    requires Scattered(d, seeds[..t])
    ensures t <= p <= |seeds| && Scattered(d, seeds[..p])
    ensures p < |seeds| ==> Covering(d, seeds[..p])
    decreases |seeds| - t
  {
    if t == |seeds| {
      p := t;
    } else {
      var before, m := seeds[..t], seeds[t];
      NearestNonNegative(d, m, before);
      if Nearest(d, m, before) == 0.0 {
        p := t;
        CoveredOnceFlat(d, seeds, t);
      } else {
        OneMorePlace(d, seeds, t);
        p := DistinctPlaces(d, seeds, t + 1);
      }
    }
  }

  lemma CoveredOnceFlat(d: Matrix, seeds: seq<nat>, t: nat)
    requires Distances(d) && Within(seeds, |d|) && IsFarthestFirst(d, seeds) && 0 < t < |seeds|
    requires Nearest(d, seeds[t], seeds[..t]) == 0.0
    ensures Covering(d, seeds[..t])
  {
    var before := seeds[..t];
    assert FarthestAt(d, seeds, t);
    forall i | 0 <= i < |d| ensures PlacedAt(d, before, i) {
      if i in before {
        var s :| 0 <= s < |before| && before[s] == i;
        assert d[i][before[s]] == 0.0;
      } else {
        assert NoFarther(d, before, i, seeds[t]);
        NearestNonNegative(d, i, before);
        assert d[i][before[Assigned(d, i, before)]] == 0.0;
      }
    }
  }

  lemma OneMorePlace(d: Matrix, seeds: seq<nat>, t: nat)
    requires Distances(d) && Within(seeds, |d|) && 0 < t < |seeds| && Scattered(d, seeds[..t])
    requires 0.0 < Nearest(d, seeds[t], seeds[..t])
    ensures Scattered(d, seeds[..t + 1])
  {
    var before, more := seeds[..t], seeds[..t + 1];
    forall x, y | 0 <= x < y < |more| ensures 0.0 < d[more[x]][more[y]] {
      if y < t {
        assert 0.0 < d[before[x]][before[y]];
      } else {
        NearestIsLeast(d, seeds[t], before, x);
        assert d[more[x]][more[y]] == d[more[y]][more[x]];
      }
    }
  }

  /** With enough places, the seeds stand at different ones. */
  lemma EnoughPlacesSpreadSeeds(d: Matrix, seeds: seq<nat>)
    requires Distances(d) && Coherent(d) && Within(seeds, |d|) && seeds != [] && IsFarthestFirst(d, seeds)
    requires EnoughPlaces(d, |seeds|)
    ensures Scattered(d, seeds)
  {
    var p := DistinctPlaces(d, seeds, 1);
    if p < |seeds| {
      var frames: seq<nat> :| |frames| == |seeds| && Within(frames, |d|) && Scattered(d, frames);
      TooManyPlaces(d, seeds[..p], frames);
    } else {
      assert seeds[..p] == seeds;
    }
  }

  /** More frames than places cannot all stand apart. */
  lemma TooManyPlaces(d: Matrix, places: seq<nat>, frames: seq<nat>)
    requires Distances(d) && Coherent(d) && Within(places, |d|) && Within(frames, |d|) && Covering(d, places)
    requires |places| < |frames|
    ensures !Scattered(d, frames)
  {
    var holes := PlaceOf(d, places, frames);
    var i, j := Pigeonhole(holes, |places|);
    var c := places[holes[i]];
    SamePlace(d, frames[i], c, frames[j]);
    assert d[frames[i]][frames[j]] == d[c][frames[j]] == d[frames[j]][c] == 0.0;
  }

  lemma {:induction false} PlaceOf(d: Matrix, places: seq<nat>, frames: seq<nat>) returns (holes: seq<nat>)
    requires Square(d) && Within(places, |d|) && Within(frames, |d|) && Covering(d, places)
    ensures |holes| == |frames|
    ensures forall x :: 0 <= x < |frames| ==> holes[x] < |places| && d[frames[x]][places[holes[x]]] == 0.0
  {
    if frames == [] {
      holes := [];
    } else {
      var n := |frames| - 1;
      var rest := PlaceOf(d, places, frames[..n]);
      assert PlacedAt(d, places, frames[n]);
      var s :| 0 <= s < |places| && d[frames[n]][places[s]] == 0.0;
      holes := rest + [s];
      forall x | 0 <= x < |frames| ensures holes[x] < |places| && d[frames[x]][places[holes[x]]] == 0.0 {
        if x < n { assert frames[..n][x] == frames[x]; }
      }
    }
  }
}
