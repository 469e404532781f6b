/** Squared Euclidean distances between frame features, as the atlas script
    computes them, and what they satisfy. */
module FeatureSpace {
  import opened Numeric
  import opened FarthestFirst

  type Vector = seq<real>

  function Dot(a: Vector, b: Vector): real
    requires |a| == |b|
  {
    if a == [] then 0.0 else
      var n := |a| - 1;
      Dot(a[..n], b[..n]) + Times(a[n], b[n])
  }

  function AbsReal(x: real): real { if x < 0.0 then -x else x }

  /** Absolute differences, coordinate by coordinate. */
  function Differences(a: Vector, b: Vector): (v: Vector)
    requires |a| == |b|
    ensures |v| == |a| && forall k :: 0 <= k < |v| ==> v[k] == AbsReal(a[k] - b[k])
  {
    seq(|a|, k requires 0 <= k < |a| => AbsReal(a[k] - b[k]))
  }

  function SumOfSquares(v: Vector): real {
    if v == [] then 0.0 else
      var n := |v| - 1;
      SumOfSquares(v[..n]) + Squared(v[n])
  }

  /** The sum of squared differences. */
  function Apart(a: Vector, b: Vector): real
    requires |a| == |b|
  {
    SumOfSquares(Differences(a, b))
  }

  predicate Features(values: seq<Vector>, width: nat) {
    forall i :: 0 <= i < |values| ==> |values[i]| == width
  }

  /** `np.maximum(squares + squares.T - 2 * values @ values.T, 0)`. */
  function PairwiseSquared(values: seq<Vector>, width: nat): (d: Matrix)
    requires Features(values, width)
    ensures |d| == |values| && Square(d)
    ensures forall i, j :: 0 <= i < |d| && 0 <= j < |d| ==> d[i][j] == Expanded(values[i], values[j])
  {
    seq(|values|, i requires 0 <= i < |values| =>
      seq(|values|, j requires 0 <= j < |values| => Expanded(values[i], values[j])))
  }

  function Expanded(a: Vector, b: Vector): real
    requires |a| == |b|
  {
    MaxReal(Dot(a, a) + Dot(b, b) - 2.0 * Dot(a, b), 0.0)
  }

  lemma DifferencesFront(a: Vector, b: Vector)
    requires |a| == |b| != 0
    ensures Differences(a, b)[..|a| - 1] == Differences(a[..|a| - 1], b[..|a| - 1])
  {
  }

  /** The expanded form is the sum of squared differences, so clipping at zero never acts. */
  lemma {:induction false} ExpandedForm(a: Vector, b: Vector)
    requires |a| == |b|
    ensures Dot(a, a) + Dot(b, b) - 2.0 * Dot(a, b) == Apart(a, b) >= 0.0
    ensures Expanded(a, b) == Apart(a, b)
  {
    if a != [] {
      var n := |a| - 1;
      var p, q := a[..n], b[..n];
      ExpandedForm(p, q);
      DifferencesFront(a, b);
      assert Apart(a, b) == Apart(p, q) + Squared(Differences(a, b)[n]);
      ExpandStep(Dot(p, p), Dot(q, q), Dot(p, q), Apart(p, q), a[n], b[n], Differences(a, b)[n]);
    }
  }

  lemma ExpandStep(aa: real, bb: real, ab: real, apart: real, x: real, y: real, z: real)
    requires aa + bb - 2.0 * ab == apart >= 0.0 && z == AbsReal(x - y)
    ensures (aa + Times(x, x)) + (bb + Times(y, y)) - 2.0 * (ab + Times(x, y)) == apart + Squared(z) >= 0.0
  {
    SquareOfDifference(x, y);
    assert Squared(z) == Squared(x - y);
  }

  lemma SquareOfDifference(x: real, y: real)
    ensures Squared(x - y) == Times(x, x) + Times(y, y) - 2.0 * Times(x, y)
  {
  }

  lemma {:induction false} SumIsZero(v: Vector)
    requires forall k :: 0 <= k < |v| ==> 0.0 <= v[k]
    ensures 0.0 <= SumOfSquares(v)
    ensures SumOfSquares(v) == 0.0 <==> forall k :: 0 <= k < |v| ==> v[k] == 0.0
  {
    if v != [] {
      var n := |v| - 1;
      SumIsZero(v[..n]);
      assert forall k :: 0 <= k < n ==> v[..n][k] == v[k];
    }
  }

  lemma ApartSymmetric(a: Vector, b: Vector)
    requires |a| == |b|
    ensures Apart(a, b) == Apart(b, a)
    ensures Apart(a, b) == 0.0 <==> a == b
  {
    assert Differences(a, b) == Differences(b, a);
    SumIsZero(Differences(a, b));
    if Apart(a, b) == 0.0 {
      assert forall k :: 0 <= k < |a| ==> Differences(a, b)[k] == 0.0;
    }
  }

  lemma ApartRelaxed(a: Vector, b: Vector, c: Vector)
    requires |a| == |b| == |c|
    ensures Apart(a, b) <= 2.0 * (Apart(a, c) + Apart(c, b))
  {
    SumsRelaxed(Differences(a, c), Differences(c, b), Differences(a, b));
  }

  lemma {:induction false} SumsRelaxed(p: Vector, q: Vector, r: Vector)
    requires |p| == |q| == |r|
    requires forall k :: 0 <= k < |r| ==> 0.0 <= p[k] && 0.0 <= q[k] && 0.0 <= r[k] <= p[k] + q[k]
    ensures SumOfSquares(r) <= 2.0 * (SumOfSquares(p) + SumOfSquares(q))
  {
    if r != [] {
      var n := |r| - 1;
      SumsRelaxed(p[..n], q[..n], r[..n]);
      SquareOfPart(r[n], p[n], q[n]);
    }
  }

  lemma SquareOfPart(r: real, p: real, q: real)
    requires 0.0 <= r <= p + q && 0.0 <= p && 0.0 <= q
    ensures Squared(r) <= 2.0 * (Squared(p) + Squared(q))
  {
    SquareOfSum(r, p, q);
  }

  /** Two frames at no distance are at the same distance from every frame. */
  ghost predicate Coherent(d: Matrix)
    requires Square(d)
  {
    forall a, b :: 0 <= a < |d| && 0 <= b < |d| ==> CoherentAt(d, a, b)
  }

  ghost predicate CoherentAt(d: Matrix, a: nat, b: nat)
    requires Square(d) && a < |d| && b < |d|
  {
    d[a][b] == 0.0 ==> forall i :: 0 <= i < |d| ==> d[i][a] == d[i][b]
  }

  lemma PairwiseDistances(values: seq<Vector>, width: nat)
    requires Features(values, width)
    ensures var d := PairwiseSquared(values, width);
      && (forall i, j :: 0 <= i < |d| && 0 <= j < |d| ==> d[i][j] == Apart(values[i], values[j]))
      && Distances(d)
  {
    var d := PairwiseSquared(values, width);
    forall i, j | 0 <= i < |d| && 0 <= j < |d| ensures d[i][j] == Apart(values[i], values[j]) >= 0.0 {
      ExpandedForm(values[i], values[j]);
    }
    forall i, j | 0 <= i < |d| && 0 <= j < |d| ensures d[i][j] == d[j][i] {
      ApartSymmetric(values[i], values[j]);
    }
    forall i | 0 <= i < |d| ensures d[i][i] == 0.0 {
      ApartSymmetric(values[i], values[i]);
    }
  }

  /** The matrix the script builds is everything the seeding and the iteration rely on. */
  lemma PairwiseSquaredIsCoherent(values: seq<Vector>, width: nat)
    requires Features(values, width)
    ensures var d := PairwiseSquared(values, width);
      && (forall i, j :: 0 <= i < |d| && 0 <= j < |d| ==> d[i][j] == Apart(values[i], values[j]))
      && Distances(d) && RelaxedTriangle(d) && Coherent(d)
  {
    var d := PairwiseSquared(values, width);
    PairwiseDistances(values, width);
    forall a, b, c | 0 <= a < |d| && 0 <= b < |d| && 0 <= c < |d| ensures d[a][b] <= 2.0 * (d[a][c] + d[c][b]) {
      ApartRelaxed(values[a], values[b], values[c]);
    }
    forall a, b | 0 <= a < |d| && 0 <= b < |d| ensures CoherentAt(d, a, b) {
      ApartSymmetric(values[a], values[b]);
    }
  }

  /** Frame `i` has a centre within squared distance `radius`. */
  ghost predicate NearCenter(values: seq<Vector>, width: nat, centers: seq<nat>, radius: real, i: nat)
    requires Features(values, width) && Within(centers, |values|) && i < |values|
  {
    exists c :: 0 <= c < |centers| && Apart(values[i], values[centers[c]]) <= radius
  }

  lemma CoverTransfers(values: seq<Vector>, width: nat, centers: seq<nat>, radius: real)
    requires Features(values, width) && Within(centers, |values|)
    requires forall i :: 0 <= i < |values| ==> NearCenter(values, width, centers, radius, i)
    ensures Covered(PairwiseSquared(values, width), centers, radius)
  {
    var d := PairwiseSquared(values, width);
    forall i | 0 <= i < |d| ensures CoveredAt(d, centers, radius, i) {
      assert NearCenter(values, width, centers, radius, i);
      var c :| 0 <= c < |centers| && Apart(values[i], values[centers[c]]) <= radius;
      ExpandedForm(values[i], values[centers[c]]);
      assert d[i][centers[c]] <= radius;
    }
  }

  /** For any features: the squared covering radius of farthest-first seeds is at
      most four times that of any choice of as many frames, so the radius at most twice. */
  lemma SeedingIsTwoApproximate(
    values: seq<Vector>, width: nat, medoids: seq<nat>, centers: seq<nat>, radius: real, far: nat)
    requires Features(values, width) && Within(medoids, |values|) && medoids != []
    requires IsFarthestFirst(PairwiseSquared(values, width), medoids)
    requires Within(centers, |values|) && |centers| == |medoids|
    requires forall i :: 0 <= i < |values| ==> NearCenter(values, width, centers, radius, i)
    requires far < |values|
    ensures NearCenter(values, width, medoids, 4.0 * radius, far)
  {
    var d := PairwiseSquared(values, width);
    assert Nearest(d, far, medoids) <= 4.0 * radius by {
      PairwiseSquaredIsCoherent(values, width);
      CoverTransfers(values, width, centers, radius);
      SeedsCover(d, medoids, centers, radius, far);
    }
    var s := Assigned(d, far, medoids);
    ExpandedForm(values[far], values[medoids[s]]);
    assert Apart(values[far], values[medoids[s]]) <= 4.0 * radius;
  }
}
