/** Farthest-first seeding of the mouth atlas, over a matrix of squared
    distances between frames. */
module FarthestFirst {
  import opened Numeric

  type Matrix = seq<seq<real>>

  predicate Square(d: Matrix) {
    forall i :: 0 <= i < |d| ==> |d[i]| == |d|
  }

  predicate NonNegative(d: Matrix)
    requires Square(d)
  {
    forall i, j :: 0 <= i < |d| && 0 <= j < |d| ==> 0.0 <= d[i][j]
  }

  predicate Symmetric(d: Matrix)
    requires Square(d)
  {
    forall i, j :: 0 <= i < |d| && 0 <= j < |d| ==> d[i][j] == d[j][i]
  }

  /** Distances are non-negative and symmetric, and a frame is at no distance from itself. */
  predicate Distances(d: Matrix) {
    && Square(d) && NonNegative(d) && Symmetric(d)
    && forall i :: 0 <= i < |d| ==> d[i][i] == 0.0
  }

  lemma NearestNonNegative(d: Matrix, i: nat, medoids: seq<nat>)
    requires Square(d) && NonNegative(d) && i < |d| && Within(medoids, |d|) && medoids != []
    ensures 0.0 <= Nearest(d, i, medoids)
  {
    var m := medoids[Assigned(d, i, medoids)];
    assert 0.0 <= d[i][m];
  }

  /** The triangle inequality as squared distances have it. */
  ghost predicate RelaxedTriangle(d: Matrix)
    requires Square(d)
  {
    forall a, b, c :: 0 <= a < |d| && 0 <= b < |d| && 0 <= c < |d| ==> d[a][b] <= 2.0 * (d[a][c] + d[c][b])
  }

  /** Frame numbers below `n`. */
  predicate Within(medoids: seq<nat>, n: nat) {
    forall s :: 0 <= s < |medoids| ==> medoids[s] < n
  }

  predicate Distinct(medoids: seq<nat>) {
    forall s, t :: 0 <= s < t < |medoids| ==> medoids[s] != medoids[t]
  }

  /** Row `i` of `distances[:, medoids]`. */
  function ToMedoids(d: Matrix, i: nat, medoids: seq<nat>): (row: seq<real>)
    requires Square(d) && i < |d| && Within(medoids, |d|)
    ensures |row| == |medoids| && forall s :: 0 <= s < |medoids| ==> row[s] == d[i][medoids[s]]
  {
    seq(|medoids|, s requires 0 <= s < |medoids| => d[i][medoids[s]])
  }

  /** The state frame `i` is assigned to: the first nearest medoid. */
  function Assigned(d: Matrix, i: nat, medoids: seq<nat>): (s: nat)
    requires Square(d) && i < |d| && Within(medoids, |d|) && medoids != []
    ensures s < |medoids|
  {
    ArgMin(ToMedoids(d, i, medoids))
  }

  /** How far frame `i` is from the nearest medoid. */
  function Nearest(d: Matrix, i: nat, medoids: seq<nat>): real
    requires Square(d) && i < |d| && Within(medoids, |d|) && medoids != []
  {
    d[i][medoids[Assigned(d, i, medoids)]]
  }

  lemma NearestIsLeast(d: Matrix, i: nat, medoids: seq<nat>, t: nat)
    requires Square(d) && i < |d| && Within(medoids, |d|) && t < |medoids|
    ensures Nearest(d, i, medoids) <= d[i][medoids[t]]
    ensures t < Assigned(d, i, medoids) ==> Nearest(d, i, medoids) < d[i][medoids[t]]
  {
    var row := ToMedoids(d, i, medoids);
    assert row[t] == d[i][medoids[t]];
    assert row[ArgMin(row)] <= row[t];
  }

  /** More medoids bring no frame farther from the nearest. */
  lemma NearestOfPrefix(d: Matrix, i: nat, medoids: seq<nat>, t: nat)
    requires Square(d) && i < |d| && Within(medoids, |d|) && 0 < t <= |medoids|
    ensures Within(medoids[..t], |d|)
    ensures Nearest(d, i, medoids) <= Nearest(d, i, medoids[..t])
  {
    var s := Assigned(d, i, medoids[..t]);
    assert medoids[..t][s] == medoids[s];
    NearestIsLeast(d, i, medoids, s);
  }

  /** Nearest distances with the frames in `taken` ruled out. */
  function Gaps(d: Matrix, medoids: seq<nat>, taken: seq<nat>): (gaps: seq<real>)
    requires Square(d) && Within(medoids, |d|) && medoids != []
    ensures |gaps| == |d|
    ensures forall i :: 0 <= i < |d| ==> gaps[i] == if i in taken then -1.0 else Nearest(d, i, medoids)
  {
    seq(|d|, i requires 0 <= i < |d| => if i in taken then -1.0 else Nearest(d, i, medoids))
  }

  /** Seed `t` lies farthest from the seeds before it, among the frames not yet
      chosen, and is the first such frame. */
  ghost predicate FarthestAt(d: Matrix, medoids: seq<nat>, t: nat)
    requires Square(d) && Within(medoids, |d|) && 0 < t < |medoids|
  {
    forall i :: 0 <= i < |d| && i !in medoids[..t] ==> NoFarther(d, medoids[..t], i, medoids[t])
  }

  /** Frame `i` is no farther from the medoids than `m`, and nearer if it comes first. */
  predicate NoFarther(d: Matrix, medoids: seq<nat>, i: nat, m: nat)
    requires Square(d) && Within(medoids, |d|) && medoids != [] && i < |d| && m < |d|
  {
    && Nearest(d, i, medoids) <= Nearest(d, m, medoids)
    && (i < m ==> Nearest(d, i, medoids) < Nearest(d, m, medoids))
  }

  ghost predicate IsFarthestFirst(d: Matrix, medoids: seq<nat>)
    requires Square(d) && Within(medoids, |d|)
  {
    forall t :: 0 < t < |medoids| ==> FarthestAt(d, medoids, t)
  }

  /** The seeding loop of `k_medoids`. */
  method Seed(d: Matrix, neutral: seq<real>, stateCount: nat) returns (medoids: seq<nat>)
    requires Distances(d) && |neutral| == |d| && 1 <= stateCount <= |d|
    ensures |medoids| == stateCount && Within(medoids, |d|) && Distinct(medoids)
    ensures medoids[0] == ArgMin(neutral)
    ensures IsFarthestFirst(d, medoids)
  {
    medoids := [ArgMin(neutral)];
    while |medoids| < stateCount
      invariant 1 <= |medoids| <= stateCount && Within(medoids, |d|) && Distinct(medoids)
      invariant medoids[0] == ArgMin(neutral)
      invariant IsFarthestFirst(d, medoids)
    {
      var gaps := Gaps(d, medoids, medoids);
      var next := ArgMax(gaps);
      SomeFrameIsFree(d, medoids);
      SeedStep(d, medoids, gaps, next);
      medoids := medoids + [next];
    }
  }

  lemma SomeFrameIsFree(d: Matrix, medoids: seq<nat>)
    requires Within(medoids, |d|) && |medoids| < |d|
    ensures exists i :: 0 <= i < |d| && i !in medoids
  {
    if forall i :: 0 <= i < |d| ==> i in medoids {
      var places := Places(medoids, |d|);
      var i, j := Pigeonhole(places, |medoids|);
    }
  }

  lemma {:induction false} Places(medoids: seq<nat>, n: nat) returns (places: seq<nat>)
    requires forall i :: 0 <= i < n ==> i in medoids
    ensures |places| == n && forall i :: 0 <= i < n ==> places[i] < |medoids| && medoids[places[i]] == i
  {
    if n == 0 {
      places := [];
    } else {
      var rest := Places(medoids, n - 1);
      assert n - 1 in medoids;
      var p :| 0 <= p < |medoids| && medoids[p] == n - 1;
      places := rest + [p];
    }
  }

  /** The farthest frame is a new one, since medoids are ruled out and some frame is not. */
  lemma {:induction false} FarthestIsFree(d: Matrix, medoids: seq<nat>, gaps: seq<real>, next: nat)
    requires Square(d) && NonNegative(d) && Within(medoids, |d|) && medoids != []
    requires gaps == Gaps(d, medoids, medoids) && gaps != [] && next == ArgMax(gaps)
    requires exists i :: 0 <= i < |d| && i !in medoids
    ensures next < |d| && next !in medoids
    ensures forall f :: 0 <= f < |d| && f !in medoids ==> NoFarther(d, medoids, f, next)
  {
    var i :| 0 <= i < |d| && i !in medoids;
    NearestNonNegative(d, i, medoids);
    assert gaps[i] == Nearest(d, i, medoids);
    assert gaps[i] <= gaps[next];
    assert next !in medoids;
    forall f | 0 <= f < |d| && f !in medoids ensures NoFarther(d, medoids, f, next) {
      assert gaps[f] <= gaps[next] && (f < next ==> gaps[f] < gaps[next]);
    }
  }

  lemma {:induction false} SeedStep(d: Matrix, medoids: seq<nat>, gaps: seq<real>, next: nat)
    requires Square(d) && NonNegative(d) && Within(medoids, |d|)
    requires medoids != [] && Distinct(medoids) && IsFarthestFirst(d, medoids)
    requires gaps == Gaps(d, medoids, medoids) && gaps != [] && next == ArgMax(gaps)
    requires exists i :: 0 <= i < |d| && i !in medoids
    ensures Within(medoids + [next], |d|) && Distinct(medoids + [next]) && IsFarthestFirst(d, medoids + [next])
  {
    FarthestIsFree(d, medoids, gaps, next);
    var longer := medoids + [next];
    assert Within(longer, |d|) && Distinct(longer);
    forall t | 0 < t < |longer| ensures FarthestAt(d, longer, t) {
      FarthestStep(d, medoids, next, t);
    }
  }

  lemma FarthestStep(d: Matrix, medoids: seq<nat>, next: nat, t: nat)
    requires Square(d) && Within(medoids, |d|) && medoids != [] && next < |d| && 0 < t <= |medoids|
    requires t < |medoids| ==> FarthestAt(d, medoids, t)
    requires forall f :: 0 <= f < |d| && f !in medoids ==> NoFarther(d, medoids, f, next)
    ensures FarthestAt(d, medoids + [next], t)
  {
    assert (medoids + [next])[..t] == medoids[..t];
    assert t == |medoids| ==> medoids[..t] == medoids;
  }

  // ------------------------------------------------------------- factor of two

  /** Every frame is within `radius` of a centre. */
  ghost predicate Covered(d: Matrix, centers: seq<nat>, radius: real)
    requires Square(d) && Within(centers, |d|)
  {
    forall i :: 0 <= i < |d| ==> CoveredAt(d, centers, radius, i)
  }

  ghost predicate CoveredAt(d: Matrix, centers: seq<nat>, radius: real, i: nat)
    requires Square(d) && Within(centers, |d|) && i < |d|
  {
    exists c :: 0 <= c < |centers| && d[i][centers[c]] <= radius
  }

  /** Among more values than there are holes, two fall in one hole. */
  lemma {:induction false} Pigeonhole(holes: seq<nat>, k: nat) returns (i: nat, j: nat)
    requires |holes| > k && forall x :: 0 <= x < |holes| ==> holes[x] < k
    ensures i < j < |holes| && holes[i] == holes[j]
    decreases k
  {
    var last := |holes| - 1;
    if x :| 0 <= x < last && holes[x] == holes[last] {
      i, j := x, last;
    } else {
      // Move hole k - 1 into the hole of the last value, which no other value uses.
      var moved := seq(last, x requires 0 <= x < last => if holes[x] == k - 1 then holes[last] else holes[x]);
      i, j := Pigeonhole(moved, k - 1);
      assert moved[i] == moved[j];
    }
  }

  /** While frame `far` is `gap` from the seeds, so are the seeds from each other. */
  lemma SeedsApart(d: Matrix, medoids: seq<nat>, far: nat, s: nat, t: nat)
    requires Distances(d) && Within(medoids, |d|) && IsFarthestFirst(d, medoids) && medoids != []
    requires far < |d| && 0.0 < Nearest(d, far, medoids) && s < t < |medoids|
    ensures Nearest(d, far, medoids) <= d[medoids[t]][medoids[s]]
  {
    var before := medoids[..t];
    assert FarthestAt(d, medoids, t);
    forall x | 0 <= x < |before| ensures before[x] != far {
      NearestIsLeast(d, far, medoids, x);
    }
    NearestOfPrefix(d, far, medoids, t);
    assert NoFarther(d, before, far, medoids[t]);
    NearestIsLeast(d, medoids[t], before, s);
  }

  /** Farthest-first seeds cover every frame within four times the squared
      radius of any other choice of as many frames. */
  lemma SeedsCover(d: Matrix, medoids: seq<nat>, centers: seq<nat>, radius: real, far: nat)
    requires Distances(d) && RelaxedTriangle(d) && Within(medoids, |d|) && medoids != [] && IsFarthestFirst(d, medoids)
    requires Within(centers, |d|) && |centers| == |medoids| && Covered(d, centers, radius) && far < |d|
    ensures Nearest(d, far, medoids) <= 4.0 * radius
  {
    var gap := Nearest(d, far, medoids);
    if 0.0 < gap {
      var points := medoids + [far];
      var holes := Holes(d, points, centers, radius);
      var i, j := Pigeonhole(holes, |centers|);
      var a, b, c := points[i], points[j], centers[holes[i]];
      assert gap <= d[b][a] by {
        if j < |medoids| { SeedsApart(d, medoids, far, i, j); } else { NearestIsLeast(d, far, medoids, i); }
      }
      assert d[a][c] <= radius && d[b][c] <= radius;
      assert d[b][a] <= 2.0 * (d[b][c] + d[c][a]);
    } else {
      assert CoveredAt(d, centers, radius, far);
      var c :| 0 <= c < |centers| && d[far][centers[c]] <= radius;
    }
  }

  /** For each point a centre within the radius. */
  lemma {:induction false} Holes(d: Matrix, points: seq<nat>, centers: seq<nat>, radius: real) returns (holes: seq<nat>)
    requires Square(d) && Within(points, |d|) && Within(centers, |d|) && Covered(d, centers, radius)
    ensures |holes| == |points|
    ensures forall x :: 0 <= x < |points| ==> holes[x] < |centers| && d[points[x]][centers[holes[x]]] <= radius
  {
    if points == [] {
      holes := [];
    } else {
      var front := points[..|points| - 1];
      var rest := Holes(d, front, centers, radius);
      assert CoveredAt(d, centers, radius, points[|points| - 1]);
      var c :| 0 <= c < |centers| && d[points[|points| - 1]][centers[c]] <= radius;
      holes := rest + [c];
      forall x | 0 <= x < |points| ensures holes[x] < |centers| && d[points[x]][centers[holes[x]]] <= radius {
        if x < |front| { assert front[x] == points[x]; }
      }
    }
  }

  /** `m` holds non-negative distances and `d` their squares. */
  ghost predicate SquaresOf(d: Matrix, m: Matrix) {
    && Square(d) && Square(m) && |d| == |m|
    && forall i, j :: 0 <= i < |m| && 0 <= j < |m| ==> 0.0 <= m[i][j] && d[i][j] == m[i][j] * m[i][j]
  }

  ghost predicate Triangle(m: Matrix)
    requires Square(m)
  {
    forall a, b, c :: 0 <= a < |m| && 0 <= b < |m| && 0 <= c < |m| ==> m[a][b] <= m[a][c] + m[c][b]
  }

  lemma SquareOfSum(x: real, y: real, z: real)
    requires 0.0 <= x <= y + z && 0.0 <= y && 0.0 <= z
    ensures x * x <= 2.0 * (y * y + z * z)
  {
    var w := y + z;
    assert x * x <= w * w;
    assert w * w == y * y + 2.0 * (y * z) + z * z;
    assert 0.0 <= (y - z) * (y - z);
    assert (y - z) * (y - z) == y * y - 2.0 * (y * z) + z * z;
  }

  lemma SquareOrder(x: real, y: real)
    requires 0.0 <= x <= y
    ensures x * x <= y * y
  {
  }

  lemma SquareStrict(x: real, y: real)
    requires 0.0 <= x < y
    ensures x * x < y * y
  {
    PositiveProduct(y - x, y + x);
    DifferenceOfSquares(x, y);
  }

  lemma PositiveProduct(a: real, b: real)
    requires 0.0 < a && 0.0 < b
    ensures 0.0 < a * b
  {
  }

  lemma DifferenceOfSquares(x: real, y: real)
    ensures (y - x) * (y + x) == y * y - x * x
  {
  }

  lemma RootOrder(x: real, y: real)
    requires 0.0 <= x && 0.0 <= y && x * x <= 4.0 * (y * y)
    ensures x <= 2.0 * y
  {
    var z := 2.0 * y;
    assert z * z == 4.0 * (y * y);
    if z < x {
      SquareStrict(z, x);
    }
  }

  lemma SquaresRelax(d: Matrix, m: Matrix)
    requires SquaresOf(d, m) && Triangle(m)
    ensures RelaxedTriangle(d)
  {
    forall a, b, c | 0 <= a < |d| && 0 <= b < |d| && 0 <= c < |d| ensures d[a][b] <= 2.0 * (d[a][c] + d[c][b]) {
      SquareOfSum(m[a][b], m[a][c], m[c][b]);
    }
  }

  lemma SquaresCovered(d: Matrix, m: Matrix, centers: seq<nat>, radius: real)
    requires SquaresOf(d, m) && Within(centers, |d|) && Covered(m, centers, radius)
    ensures Covered(d, centers, radius * radius)
  {
    var square := radius * radius;
    forall i | 0 <= i < |d| ensures CoveredAt(d, centers, square, i) {
      SquareCoveredAt(d, m, centers, radius, i);
    }
  }

  lemma SquareCoveredAt(d: Matrix, m: Matrix, centers: seq<nat>, radius: real, i: nat)
    requires SquaresOf(d, m) && Within(centers, |d|) && Covered(m, centers, radius) && i < |d|
    ensures CoveredAt(d, centers, radius * radius, i)
  {
    assert CoveredAt(m, centers, radius, i);
    var c :| 0 <= c < |centers| && m[i][centers[c]] <= radius;
    SquareOrder(m[i][centers[c]], radius);
    assert d[i][centers[c]] <= radius * radius;
  }

  /** In the metric itself the seeds are within a factor of two of optimal. */
  lemma SeedsAreTwoApproximate(d: Matrix, m: Matrix, medoids: seq<nat>, centers: seq<nat>, radius: real, far: nat)
    requires Distances(d) && SquaresOf(d, m) && Triangle(m)
    requires Within(medoids, |d|) && medoids != [] && IsFarthestFirst(d, medoids)
    requires Within(centers, |d|) && |centers| == |medoids| && Covered(m, centers, radius) && far < |d|
    ensures exists s :: 0 <= s < |medoids| && m[far][medoids[s]] <= 2.0 * radius
  {
    SquaresRelax(d, m);
    SquaresCovered(d, m, centers, radius);
    SeedsCover(d, medoids, centers, radius * radius, far);
    assert CoveredAt(m, centers, radius, far);
    var s := Assigned(d, far, medoids);
    RootOrder(m[far][medoids[s]], radius);
  }
}
