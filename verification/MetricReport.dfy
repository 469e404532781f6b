/** Benchmark aggregation: R-7 percentiles, the metric rows of a report, and the
    validator that checks those rows again. */
module MetricReport {
  import opened Numeric

  // -------------------------------------------------------------------- sorting

  predicate Sorted(xs: seq<real>) {
    forall i, j :: 0 <= i < j < |xs| ==> xs[i] <= xs[j]
  }

  function Insert(x: real, xs: seq<real>): seq<real> {
    if xs == [] || x <= xs[0] then [x] + xs else [xs[0]] + Insert(x, xs[1..])
  }

  /** `sorted(values)`. */
  function Sort(values: seq<real>): seq<real> {
    if values == [] then [] else Insert(values[0], Sort(values[1..]))
  }

  lemma ConsSorted(x: real, xs: seq<real>)
    requires Sorted(xs) && forall k :: 0 <= k < |xs| ==> x <= xs[k]
    ensures Sorted([x] + xs)
  {
  }

  lemma SplitHead(xs: seq<real>)
    requires xs != []
    ensures multiset(xs) == multiset{xs[0]} + multiset(xs[1..])
  {
    assert xs == [xs[0]] + xs[1..];
  }

  lemma {:induction false} Inserted(x: real, xs: seq<real>)
    requires Sorted(xs)
    ensures Sorted(Insert(x, xs)) && multiset(Insert(x, xs)) == multiset(xs) + multiset{x}
    decreases |xs|
  {
    if xs == [] || x <= xs[0] {
      ConsSorted(x, xs);
    } else {
      var rest := Insert(x, xs[1..]);
      Inserted(x, xs[1..]);
      SplitHead(xs);
      forall k | 0 <= k < |rest| ensures xs[0] <= rest[k] {
        assert rest[k] in multiset(rest);
        assert rest[k] == x || rest[k] in xs[1..];
      }
      ConsSorted(xs[0], rest);
    }
  }

  /** Sorting gives the samples in order, each as often as it came. */
  lemma {:induction false} SortIsSorted(values: seq<real>)
    ensures Sorted(Sort(values)) && multiset(Sort(values)) == multiset(values) && |Sort(values)| == |values|
  {
    if values != [] {
      SortIsSorted(values[1..]);
      Inserted(values[0], Sort(values[1..]));
      SplitHead(values);
      assert |multiset(Sort(values))| == |multiset(values)|;
    }
  }

  lemma SameHead(a: seq<real>, b: seq<real>)
    requires Sorted(a) && Sorted(b) && multiset(a) == multiset(b) && a != [] && b != []
    ensures a[0] <= b[0]
  {
    assert b[0] in multiset(a);
    assert b[0] in a;
  }

  lemma CancelHead(h: real, a: multiset<real>, b: multiset<real>)
    requires multiset{h} + a == multiset{h} + b
    ensures a == b
  {
    forall x ensures a[x] == b[x] {
      assert (multiset{h} + a)[x] == multiset{h}[x] + a[x];
      assert (multiset{h} + b)[x] == multiset{h}[x] + b[x];
    }
  }

  lemma SortedTail(a: seq<real>)
    requires Sorted(a) && a != []
    ensures Sorted(a[1..])
  {
  }

  lemma {:induction false} SortedUnique(a: seq<real>, b: seq<real>)
    requires Sorted(a) && Sorted(b) && multiset(a) == multiset(b)
    ensures a == b
    decreases |a|
  {
    assert |multiset(a)| == |a| && |multiset(b)| == |b|;
    if a != [] {
      SameHead(a, b);
      SameHead(b, a);
      assert multiset(a[1..]) == multiset(b[1..]) by {
        SplitHead(a);
        SplitHead(b);
        CancelHead(a[0], multiset(a[1..]), multiset(b[1..]));
      }
      SortedTail(a);
      SortedTail(b);
      SortedUnique(a[1..], b[1..]);
      assert a == [a[0]] + a[1..];
      assert b == [b[0]] + b[1..];
    }
  }

  // ----------------------------------------------------------------- percentiles

  /** The point `position` along a sorted list, linearly between its neighbours. */
  function Along(ordered: seq<real>, position: real): real
    requires 0.0 <= position <= (|ordered| - 1) as real
  {
    var lower := position.Floor;
    var fraction := position - lower as real;
    if fraction == 0.0 then ordered[lower]
    else ordered[lower] + Share(ordered[lower + 1] - ordered[lower], fraction)
  }

  /** `fraction` of `step`. */
  function Share(step: real, fraction: real): (part: real)
    ensures 0.0 <= step && 0.0 <= fraction <= 1.0 ==> 0.0 <= part <= step
  {
    var part := step * fraction;
    assert 0.0 <= step && 0.0 <= fraction <= 1.0 ==> 0.0 <= part && 0.0 <= step * (1.0 - fraction);
    part
  }

  lemma ShareMonotone(step: real, f: real, g: real)
    requires 0.0 <= step && f <= g
    ensures Share(step, f) <= Share(step, g)
  {
    assert 0.0 <= step * (g - f);
    assert step * (g - f) == step * g - step * f;
  }

  datatype ReportError = EmptySamples | BadProbability | MixedExecutionModes | MixedMeasurementKinds | MissingMetric

  function Percentile(values: seq<real>, probability: real): Result<real, ReportError> {
    if values == [] then Failure(EmptySamples)
    else if !(0.0 <= probability <= 1.0) then Failure(BadProbability)
    else
      PositionInRange(|values|, probability);
      SortIsSorted(values);
      Success(Along(Sort(values), Position(|values|, probability)))
  }

  function Position(n: nat, probability: real): real {
    Times((n - 1) as real, probability)
  }

  lemma PositionInRange(n: nat, probability: real)
    requires 0 < n && 0.0 <= probability <= 1.0
    ensures 0.0 <= Position(n, probability) <= (n - 1) as real
  {
    var last := (n - 1) as real;
    Scaled(last, 0.0, probability);
    Scaled(last, probability, 1.0);
    TimesOne(last);
  }

  lemma PositionMonotone(n: nat, p: real, q: real)
    requires 0 < n && p <= q
    ensures Position(n, p) <= Position(n, q)
  {
    Scaled((n - 1) as real, p, q);
  }

  /** Between the two neighbours of its position. */
  lemma AlongInside(ordered: seq<real>, position: real)
    requires Sorted(ordered) && 0.0 <= position <= (|ordered| - 1) as real
    ensures var lower := position.Floor;
      && ordered[lower] <= Along(ordered, position)
      && (lower + 1 < |ordered| ==> Along(ordered, position) <= ordered[lower + 1])
      && (lower + 1 == |ordered| ==> Along(ordered, position) == ordered[lower])
  {
  }

  lemma AlongMonotone(ordered: seq<real>, p: real, q: real)
    requires Sorted(ordered) && 0.0 <= p <= q <= (|ordered| - 1) as real
    ensures Along(ordered, p) <= Along(ordered, q)
  {
    AlongInside(ordered, p);
    AlongInside(ordered, q);
    var i, j := p.Floor, q.Floor;
    if i == j && i + 1 < |ordered| {
      ShareMonotone(ordered[i + 1] - ordered[i], p - i as real, q - i as real);
      assert Share(ordered[i + 1] - ordered[i], 0.0) == 0.0;
    } else if i < j {
      assert ordered[i + 1] <= ordered[j];
    }
  }

  /** The percentile does not depend on the order of the samples. */
  lemma PercentileIgnoresOrder(a: seq<real>, b: seq<real>, probability: real)
    requires multiset(a) == multiset(b)
    ensures Percentile(a, probability) == Percentile(b, probability)
  {
    assert |multiset(a)| == |a| && |multiset(b)| == |b|;
    SortIsSorted(a);
    SortIsSorted(b);
    SortedUnique(Sort(a), Sort(b));
  }

  /** Monotone in the probability and between the least and the greatest sample. */
  lemma {:induction false} PercentileOrdered(values: seq<real>, p: real, q: real)
    requires values != [] && 0.0 <= p <= q <= 1.0
    ensures Least(values) <= Percentile(values, p).value <= Percentile(values, q).value <= Greatest(values)
  {
    PercentileBetween(values, p);
    PercentileBetween(values, q);
    SortIsSorted(values);
    PositionInRange(|values|, p);
    PositionInRange(|values|, q);
    PositionMonotone(|values|, p, q);
    AlongMonotone(Sort(values), Position(|values|, p), Position(|values|, q));
  }

  lemma {:induction false} PercentileBetween(values: seq<real>, p: real)
    requires values != [] && 0.0 <= p <= 1.0
    ensures Least(values) <= Percentile(values, p).value <= Greatest(values)
  {
    var ordered, last := Sort(values), |values| - 1;
    SortIsSorted(values);
    PositionInRange(|values|, p);
    AlongMonotone(ordered, 0.0, Position(|values|, p));
    AlongMonotone(ordered, Position(|values|, p), last as real);
    assert Along(ordered, 0.0) == ordered[0] && Along(ordered, last as real) == ordered[last];
    assert ordered[0] in multiset(values) && ordered[last] in multiset(values);
    Extremes(values, ordered[0]);
    Extremes(values, ordered[last]);
  }

  /** The mean of `a` and `b` with weights `1 - fraction` and `fraction`. */
  function Weighted(a: real, b: real, fraction: real): real {
    (1.0 - fraction) * a + fraction * b
  }

  /** Between neighbours the percentile is the weighted mean of the two, and at
      a whole rank it is the sample of that rank. */
  lemma AlongInterpolates(ordered: seq<real>, i: nat, fraction: real)
    requires i < |ordered| && 0.0 <= fraction < 1.0 && (0.0 < fraction ==> i + 1 < |ordered|)
    ensures 0.0 <= i as real + fraction <= (|ordered| - 1) as real
    ensures Along(ordered, i as real + fraction) ==
      if fraction == 0.0 then ordered[i] else Weighted(ordered[i], ordered[i + 1], fraction)
  {
    assert (i as real + fraction).Floor == i;
    if 0.0 < fraction {
      Interpolation(ordered[i], ordered[i + 1], fraction);
    }
  }

  lemma Interpolation(a: real, b: real, fraction: real)
    ensures a + Share(b - a, fraction) == Weighted(a, b, fraction)
  {
  }

  /** The weighted mean, written out. */
  lemma WeightedIs(a: real, b: real, fraction: real)
    ensures Weighted(a, b, fraction) == (1.0 - fraction) * a + fraction * b
  {
  }

  /** For every probability: where `n - 1` times it is a whole number, the percentile is the sample of that
      rank; otherwise it is the mean of the two neighbouring samples, weighted by the fraction. Anything
      but a probability, and an empty list, is an error. */
  lemma {:induction false} PercentileIs(values: seq<real>, probability: real)
    ensures values == [] <==> Percentile(values, probability) == Failure(EmptySamples)
    ensures Percentile(values, probability) == Failure(BadProbability) <==>
      values != [] && !(0.0 <= probability <= 1.0)
    ensures values != [] && 0.0 <= probability <= 1.0 ==>
      var ordered, x := Sort(values), Times((|values| - 1) as real, probability);
      var i, f := x.Floor, x - x.Floor as real;
      && Sorted(ordered) && multiset(ordered) == multiset(values) && |ordered| == |values|
      && 0 <= i < |ordered| && (f != 0.0 ==> i + 1 < |ordered|)
      && Percentile(values, probability) ==
           Success(if f == 0.0 then ordered[i] else Weighted(ordered[i], ordered[i + 1], f))
  {
    if values != [] && 0.0 <= probability <= 1.0 {
      var ordered, x := Sort(values), Position(|values|, probability);
      SortIsSorted(values);
      PositionInRange(|values|, probability);
      AlongInterpolates(ordered, x.Floor, x - x.Floor as real);
    }
  }

  /** The same, from the rank and the fraction the probability stands for. */
  lemma {:induction false} PercentileInterpolates(values: seq<real>, probability: real, i: nat, fraction: real)
    requires 0.0 <= probability <= 1.0 && i < |values|
    requires 0.0 <= fraction < 1.0 && Times((|values| - 1) as real, probability) == i as real + fraction
    ensures |Sort(values)| == |values| && (0.0 < fraction ==> i + 1 < |values|)
    ensures Percentile(values, probability) == Success(
      if fraction == 0.0 then Sort(values)[i] else Weighted(Sort(values)[i], Sort(values)[i + 1], fraction))
  {
    PercentileIs(values, probability);
    assert (i as real + fraction).Floor == i;
  }

  /** One sample is every percentile of itself. */
  lemma PercentileOfOne(value: real, probability: real)
    requires 0.0 <= probability <= 1.0
    ensures Percentile([value], probability) == Success(value)
  {
    assert Sort([value]) == [value];
    PercentileInterpolates([value], probability, 0, 0.0);
  }

  /** The median of two samples is halfway between them. */
  lemma MedianOfTwo(a: real, b: real)
    requires a <= b
    ensures Percentile([a, b], 0.5) == Success((a + b) / 2.0)
  {
    assert [a, b][1..] == [b] && Sort([b]) == [b] && Sort([a, b]) == [a, b];
    PercentileInterpolates([a, b], 0.5, 0, 0.5);
  }

  /** `p` is the percentile of rank `percent` hundredths of the way through the ordered samples. */
  ghost predicate AtRank(values: seq<real>, percent: nat, p: real) {
    var hundredths := percent * (|values| - 1);
    var i, rest := hundredths / 100, hundredths % 100;
    && |Sort(values)| == |values| && 0 <= i < |values| && (rest != 0 ==> i + 1 < |values|)
    && p == if rest == 0 then Sort(values)[i]
            else Weighted(Sort(values)[i], Sort(values)[i + 1], rest as real / 100.0)
  }

  /** A whole number of percent, in integers: `percent * (n - 1)` hundredths of a rank. */
  lemma {:induction false} PercentRank(values: seq<real>, percent: nat)
    requires values != [] && percent <= 100
    ensures Percentile(values, percent as real / 100.0).Success?
    ensures AtRank(values, percent, Percentile(values, percent as real / 100.0).value)
  {
    var last, hundredths := |values| - 1, percent * (|values| - 1);
    var i, rest := hundredths / 100, hundredths % 100;
    HundredthsBound(percent, last, hundredths);
    PercentProduct(percent, last, hundredths);
    assert i as real + rest as real / 100.0 == hundredths as real / 100.0;
    PercentileInterpolates(values, percent as real / 100.0, i, rest as real / 100.0);
  }

  lemma HundredthsBound(percent: nat, last: nat, hundredths: int)
    requires percent <= 100 && hundredths == percent * last
    ensures 0 <= hundredths <= 100 * last
  {
  }

  lemma PercentProduct(percent: nat, last: nat, hundredths: int)
    requires hundredths == percent * last
    ensures Times(last as real, percent as real / 100.0) == hundredths as real / 100.0
  {
  }

  /** `min(values)`. */
  function Least(values: seq<real>): real
    requires values != []
  {
    if |values| == 1 then values[0] else MinReal(values[0], Least(values[1..]))
  }

  /** `max(values)`. */
  function Greatest(values: seq<real>): real
    requires values != []
  {
    if |values| == 1 then values[0] else MaxReal(values[0], Greatest(values[1..]))
  }

  lemma {:induction false} Extremes(values: seq<real>, x: real)
    requires x in values
    ensures Least(values) <= x <= Greatest(values)
  {
    if |values| > 1 && x != values[0] {
      assert x in values[1..];
      Extremes(values[1..], x);
    } else if |values| > 1 {
      Extremes(values[1..], values[1]);
    }
  }

  function Sum(values: seq<real>): real {
    if values == [] then 0.0 else values[0] + Sum(values[1..])
  }

  function Mean(values: seq<real>): real
    requires values != []
  {
    Sum(values) / |values| as real
  }

  /** The mean times the number of samples is their sum. */
  ghost predicate IsMean(values: seq<real>, mean: real) {
    Times(mean, |values| as real) == Sum(values)
  }

  lemma MeanIs(values: seq<real>)
    requires values != []
    ensures IsMean(values, Mean(values))
  {
    QuotientTimes(Sum(values), |values| as real);
  }

  lemma QuotientTimes(sum: real, n: real)
    requires 0.0 < n
    ensures Times(sum / n, n) == sum
  {
  }

  ghost predicate IsLeast(values: seq<real>, low: real) {
    low in values && forall k :: 0 <= k < |values| ==> low <= values[k]
  }

  ghost predicate IsGreatest(values: seq<real>, high: real) {
    high in values && forall k :: 0 <= k < |values| ==> values[k] <= high
  }

  /** The least and the greatest are samples, and no sample lies beyond them. */
  lemma {:induction false} ExtremesAreSamples(values: seq<real>)
    requires values != []
    ensures IsLeast(values, Least(values)) && IsGreatest(values, Greatest(values))
  {
    if |values| > 1 {
      ExtremesAreSamples(values[1..]);
    }
    forall k | 0 <= k < |values| ensures Least(values) <= values[k] <= Greatest(values) {
      Extremes(values, values[k]);
    }
  }

  lemma {:induction false} SumBetween(values: seq<real>, lo: real, hi: real)
    requires forall i :: 0 <= i < |values| ==> lo <= values[i] <= hi
    ensures lo * |values| as real <= Sum(values) <= hi * |values| as real
  {
    if values != [] {
      SumBetween(values[1..], lo, hi);
      var n := |values| as real;
      assert lo * n == lo + lo * (n - 1.0) && hi * n == hi + hi * (n - 1.0);
    }
  }

  lemma {:induction false} MeanBetween(values: seq<real>)
    requires values != []
    ensures Least(values) <= Mean(values) <= Greatest(values)
  {
    var lo, hi := Least(values), Greatest(values);
    forall i | 0 <= i < |values| ensures lo <= values[i] <= hi {
      Extremes(values, values[i]);
    }
    SumBetween(values, lo, hi);
    QuotientBetween(Sum(values), |values| as real, lo, hi);
  }

  lemma QuotientBetween(sum: real, n: real, lo: real, hi: real)
    requires 0.0 < n && lo * n <= sum <= hi * n
    ensures lo <= sum / n <= hi
  {
    var mean := sum / n;
    assert mean * n == sum;
    assert mean < lo ==> mean * n < lo * n;
    assert hi < mean ==> hi * n < mean * n;
  }

  // -------------------------------------------------------------- the metric rows

  datatype Definition = Definition(name: string, unit: string, description: string)

  datatype Sample = Sample(metric: string, value: real, executionMode: string, measurementKind: string)

  datatype MetricRow = MetricRow(
    name: string, unit: string, description: string,
    sampleCount: int, min: real, max: real, mean: real, p50: real, p95: real, p99: real,
    executionMode: string, measurementKind: string)

  datatype Classification = Classification(executionMode: string, measurementKind: string, eligible: bool)

  datatype Report = Report(classification: Classification, metrics: seq<MetricRow>)

  const EXECUTION_MODES := {"simulated", "mocked", "live"}
  const MEASUREMENT_KINDS := {"measured", "planning_estimate"}
  const HARD_MAX_RECORDS := 1_000_000

  /** A rounding the report may use: it never changes an order, and keeps zero from going below zero. */
  ghost predicate Rounding(rounded: real -> real) {
    (forall x, y :: x <= y ==> rounded(x) <= rounded(y)) && 0.0 <= rounded(0.0)
  }

  /** `round(value, 6)`. */
  function RoundMillionths(x: real): (r: real)
    ensures -0.0000005 <= r - x <= 0.0000005
  {
    RoundHalfEven(x * 1000000.0) as real / 1000000.0
  }

  /** A whole number of millionths. */
  ghost predicate WholeMillionths(x: real) {
    (x * 1000000.0).Floor as real == x * 1000000.0
  }

  lemma RoundMillionthsIsWhole(x: real)
    ensures WholeMillionths(RoundMillionths(x))
  {
    MillionthsAreWhole(RoundHalfEven(x * 1000000.0));
  }

  lemma MillionthsAreWhole(n: int)
    ensures WholeMillionths(n as real / 1000000.0)
  {
    assert n as real / 1000000.0 * 1000000.0 == n as real;
  }

  lemma RoundMillionthsIsARounding()
    ensures Rounding(RoundMillionths)
  {
    forall x: real, y: real | x <= y ensures RoundMillionths(x) <= RoundMillionths(y) {
      RoundHalfEvenMonotone(x * 1000000.0, y * 1000000.0);
    }
  }

  function NamesOf(metrics: seq<Definition>): (names: seq<string>)
    ensures |names| == |metrics| && forall i :: 0 <= i < |names| ==> names[i] == metrics[i].name
  {
    seq(|metrics|, i requires 0 <= i < |metrics| => metrics[i].name)
  }

  /** Distinct metric names. */
  predicate Names(names: seq<string>) {
    forall i, j :: 0 <= i < j < |names| ==> names[i] != names[j]
  }

  /** Samples as the input validation passes them on. */
  predicate Validated(names: seq<string>, rows: seq<Sample>) {
    forall i :: 0 <= i < |rows| ==>
      && rows[i].metric in names && 0.0 <= rows[i].value
      && rows[i].executionMode in EXECUTION_MODES && rows[i].measurementKind in MEASUREMENT_KINDS
  }

  /** The values recorded for one metric, in input order. */
  function ValuesOf(rows: seq<Sample>, name: string): seq<real> {
    if rows == [] then [] else
      var n := |rows| - 1;
      ValuesOf(rows[..n], name) + if rows[n].metric == name then [rows[n].value] else []
  }

  lemma {:induction false} ValuesNonNegative(names: seq<string>, rows: seq<Sample>, name: string)
    requires Validated(names, rows)
    ensures forall k :: 0 <= k < |ValuesOf(rows, name)| ==> 0.0 <= ValuesOf(rows, name)[k]
    ensures |ValuesOf(rows, name)| <= |rows|
  {
    if rows != [] {
      ValuesNonNegative(names, rows[..|rows| - 1], name);
    }
  }

  function RowFor(metric: Definition, classification: Classification, values: seq<real>, rounded: real -> real)
    : MetricRow
    requires values != []
  {
    MetricRow(metric.name, metric.unit, metric.description, |values|,
              rounded(Least(values)), rounded(Greatest(values)), rounded(Mean(values)),
              rounded(Percentile(values, 0.50).value), rounded(Percentile(values, 0.95).value),
              rounded(Percentile(values, 0.99).value), classification.executionMode, classification.measurementKind)
  }

  /** The checks the validator makes on the figures of one metric row. */
  predicate RowPasses(row: MetricRow) {
    && 1 <= row.sampleCount <= HARD_MAX_RECORDS
    && 0.0 <= row.min && 0.0 <= row.max && 0.0 <= row.mean && 0.0 <= row.p50 && 0.0 <= row.p95 && 0.0 <= row.p99
    && row.min <= row.p50 <= row.p95 <= row.p99 <= row.max
    && row.min <= row.mean <= row.max
  }

  /** A row named like a metric carries that metric's unit and description. */
  predicate AsDefined(metrics: seq<Definition>, row: MetricRow) {
    forall i :: 0 <= i < |metrics| && metrics[i].name == row.name ==>
      row.unit == metrics[i].unit && row.description == metrics[i].description
  }

  predicate AsClassified(classification: Classification, row: MetricRow) {
    row.executionMode == classification.executionMode && row.measurementKind == classification.measurementKind
  }

  /** Only live measurements on Windows may count as acceptance evidence. */
  predicate Eligible(executionMode: string, measurementKind: string, system: string) {
    executionMode == "live" && measurementKind == "measured" && system == "Windows"
  }

  predicate LabelPasses(classification: Classification, system: string) {
    && classification.executionMode in EXECUTION_MODES && classification.measurementKind in MEASUREMENT_KINDS
    && classification.eligible == Eligible(classification.executionMode, classification.measurementKind, system)
  }

  /** What the validator demands of the classification and the metrics: one row for every
      metric, defined and classified as the report says, with its figures in order. */
  predicate ReportPasses(metrics: seq<Definition>, system: string, report: Report) {
    && LabelPasses(report.classification, system)
    && |report.metrics| == |metrics| && SameNames(NamesOf(metrics), report.metrics)
    && forall k :: 0 <= k < |report.metrics| ==> RowAllowed(metrics, report, k)
  }

  predicate RowAllowed(metrics: seq<Definition>, report: Report, k: nat)
    requires k < |report.metrics|
  {
    var row := report.metrics[k];
    AsDefined(metrics, row) && AsClassified(report.classification, row) && RowPasses(row)
  }

  predicate SameNames(names: seq<string>, metrics: seq<MetricRow>) {
    && (forall i :: 0 <= i < |names| ==> HasRow(metrics, names[i]))
    && (forall k :: 0 <= k < |metrics| ==> metrics[k].name in names)
  }

  predicate HasRow(metrics: seq<MetricRow>, name: string) {
    exists k :: 0 <= k < |metrics| && metrics[k].name == name
  }

  /** Whatever the samples, the row built from them passes the validator. */
  lemma BuiltRowPasses(metric: Definition, classification: Classification, values: seq<real>, rounded: real -> real)
    requires values != [] && |values| <= HARD_MAX_RECORDS && Rounding(rounded)
    requires forall k :: 0 <= k < |values| ==> 0.0 <= values[k]
    ensures RowPasses(RowFor(metric, classification, values, rounded))
  {
    PercentileOrdered(values, 0.50, 0.95);
    PercentileOrdered(values, 0.95, 0.99);
    MeanBetween(values);
    ExtremesAreSamples(values);
    var p50, p95, p99 := Percentile(values, 0.50).value, Percentile(values, 0.95).value, Percentile(values, 0.99).value;
    assert rounded(0.0) <= rounded(Least(values)) <= rounded(p50) <= rounded(p95);
    assert rounded(p95) <= rounded(p99) <= rounded(Greatest(values));
    assert rounded(Least(values)) <= rounded(Mean(values)) <= rounded(Greatest(values));
  }

  /** The grouping loop of `summarize_rows`. */
  method GroupRows(names: seq<string>, rows: seq<Sample>) returns (grouped: map<string, seq<real>>)
    requires Validated(names, rows)
    ensures forall name :: name in names ==> name in grouped && grouped[name] == ValuesOf(rows, name)
  {
    grouped := map name | name in names :: [];
    for i := 0 to |rows|
      invariant forall name :: name in names ==> name in grouped && grouped[name] == ValuesOf(rows[..i], name)
    {
      var row := rows[i];
      assert rows[..i + 1][..i] == rows[..i];
      grouped := grouped[row.metric := grouped[row.metric] + [row.value]];
    }
    assert rows[..|rows|] == rows;
  }

  /** Row `k` of a report is built from the values of metric `k`. */
  ghost predicate BuiltAt(metrics: seq<Definition>, rows: seq<Sample>, report: Report, k: nat)
    requires k < |metrics| && k < |report.metrics|
  {
    var values := ValuesOf(rows, metrics[k].name);
    values != [] && report.metrics[k] == RowFor(metrics[k], report.classification, values, RoundMillionths)
  }

  /** Every sample carries the same label. */
  predicate Uniform(labels: seq<string>) {
    labels != [] && forall i :: 0 <= i < |labels| ==> labels[i] == labels[0]
  }

  /** `_uniform_label`. */
  method UniformLabel(labels: seq<string>) returns (shared: Option<string>)
    ensures shared.Some? <==> Uniform(labels)
    ensures shared.Some? ==> shared.value == labels[0]
  {
    var values := set i | 0 <= i < |labels| :: labels[i];
    OneValue(labels, values);
    if |values| != 1 {
      return None;
    }
    return Some(labels[0]);
  }

  lemma OneValue(labels: seq<string>, values: set<string>)
    requires values == set i | 0 <= i < |labels| :: labels[i]
    ensures |values| == 1 <==> Uniform(labels)
  {
    if labels != [] {
      var rest := values - {labels[0]};
      assert labels[0] in values;
      assert |values| == |rest| + 1;
      if rest == {} {
        forall i | 0 <= i < |labels| ensures labels[i] == labels[0] {
          assert labels[i] in values && labels[i] !in rest;
        }
      } else {
        var x :| x in rest;
      }
    }
  }

  function Modes(rows: seq<Sample>): (labels: seq<string>)
    ensures |labels| == |rows|
  {
    seq(|rows|, i requires 0 <= i < |rows| => rows[i].executionMode)
  }

  function Kinds(rows: seq<Sample>): (labels: seq<string>)
    ensures |labels| == |rows|
  {
    seq(|rows|, i requires 0 <= i < |rows| => rows[i].measurementKind)
  }

  /** Every metric has a sample. */
  ghost predicate Complete(metrics: seq<Definition>, rows: seq<Sample>) {
    forall i :: 0 <= i < |metrics| ==> ValuesOf(rows, metrics[i].name) != []
  }

  /** The report is built from the samples, row by row. */
  ghost predicate BuiltFrom(metrics: seq<Definition>, rows: seq<Sample>, system: string, report: Report) {
    && rows != [] && |report.metrics| == |metrics|
    && report.classification == Classification(rows[0].executionMode, rows[0].measurementKind,
                                  Eligible(rows[0].executionMode, rows[0].measurementKind, system))
    && forall k :: 0 <= k < |metrics| ==> BuiltAt(metrics, rows, report, k)
  }

  /** Classification and metric rows of `summarize_rows`. */
  method SummarizeRows(metrics: seq<Definition>, rows: seq<Sample>, system: string)
    returns (r: Result<Report, ReportError>)
    requires Names(NamesOf(metrics)) && Validated(NamesOf(metrics), rows) && |rows| <= HARD_MAX_RECORDS
    ensures r == Failure(MixedExecutionModes) <==> !Uniform(Modes(rows))
    ensures r == Failure(MixedMeasurementKinds) <==> Uniform(Modes(rows)) && !Uniform(Kinds(rows))
    ensures r.Success? <==> Uniform(Modes(rows)) && Uniform(Kinds(rows)) && Complete(metrics, rows)
    ensures r.Success? ==> BuiltFrom(metrics, rows, system, r.value)
    ensures r.Success? ==> ReportPasses(metrics, system, r.value) && SampleTotal(r.value.metrics) == |rows|
    ensures r.Success? ==> (r.value.classification.eligible <==>
      rows != [] && rows[0].executionMode == "live" && rows[0].measurementKind == "measured" && system == "Windows")
  {
    var executionMode := UniformLabel(Modes(rows));
    if executionMode.None? {
      return Failure(MixedExecutionModes);
    }
    var measurementKind := UniformLabel(Kinds(rows));
    if measurementKind.None? {
      return Failure(MixedMeasurementKinds);
    }
    var eligible := Eligible(executionMode.value, measurementKind.value, system);
    var classification := Classification(executionMode.value, measurementKind.value, eligible);
    var built := BuildRows(metrics, rows, classification);
    if built.None? {
      return Failure(MissingMetric);
    }
    r := Success(Report(classification, built.value));
    ReportIsBuilt(metrics, rows, system, r.value);
  }

  method BuildRows(metrics: seq<Definition>, rows: seq<Sample>, classification: Classification)
    returns (built: Option<seq<MetricRow>>)
    requires Validated(NamesOf(metrics), rows)
    ensures built.Some? <==> Complete(metrics, rows)
    ensures built.Some? ==>
      && |built.value| == |metrics|
      && forall k :: 0 <= k < |metrics| ==> BuiltAt(metrics, rows, Report(classification, built.value), k)
  {
    var names := NamesOf(metrics);
    var grouped := GroupRows(names, rows);
    var results: seq<MetricRow> := [];
    for i := 0 to |metrics|
      invariant |results| == i
      invariant forall k :: 0 <= k < i ==> BuiltAt(metrics, rows, Report(classification, results), k)
    {
      assert names[i] in names;
      var values := grouped[metrics[i].name];
      if values == [] {
        return None;
      }
      ghost var before := results;
      results := results + [RowFor(metrics[i], classification, values, RoundMillionths)];
      forall k | 0 <= k <= i ensures BuiltAt(metrics, rows, Report(classification, results), k) {
        if k < i { assert BuiltAt(metrics, rows, Report(classification, before), k); }
      }
    }
    forall i | 0 <= i < |metrics| ensures ValuesOf(rows, metrics[i].name) != [] {
      assert BuiltAt(metrics, rows, Report(classification, results), i);
    }
    return Some(results);
  }

  lemma ReportIsBuilt(metrics: seq<Definition>, rows: seq<Sample>, system: string, report: Report)
    requires Names(NamesOf(metrics)) && Validated(NamesOf(metrics), rows) && |rows| <= HARD_MAX_RECORDS
    requires BuiltFrom(metrics, rows, system, report)
    ensures ReportPasses(metrics, system, report) && SampleTotal(report.metrics) == |rows|
  {
    forall k | 0 <= k < |report.metrics| ensures RowAllowed(metrics, report, k) {
      BuiltRowAllowed(metrics, rows, report, k);
    }
    BuiltNames(metrics, rows, report);
    SamplesAddUp(metrics, rows, report);
  }

  lemma BuiltRowAllowed(metrics: seq<Definition>, rows: seq<Sample>, report: Report, k: nat)
    requires Names(NamesOf(metrics)) && Validated(NamesOf(metrics), rows) && |rows| <= HARD_MAX_RECORDS
    requires k < |metrics| == |report.metrics| && BuiltAt(metrics, rows, report, k)
    ensures RowAllowed(metrics, report, k)
  {
    var names, values := NamesOf(metrics), ValuesOf(rows, metrics[k].name);
    ValuesNonNegative(names, rows, metrics[k].name);
    RoundMillionthsIsARounding();
    BuiltRowPasses(metrics[k], report.classification, values, RoundMillionths);
    forall i | 0 <= i < |metrics| && metrics[i].name == metrics[k].name ensures i == k {
      assert names[i] == names[k];
    }
  }

  lemma BuiltNames(metrics: seq<Definition>, rows: seq<Sample>, report: Report)
    requires |metrics| == |report.metrics| && forall k :: 0 <= k < |metrics| ==> BuiltAt(metrics, rows, report, k)
    ensures SameNames(NamesOf(metrics), report.metrics)
  {
    var names := NamesOf(metrics);
    forall k | 0 <= k < |metrics| ensures report.metrics[k].name == names[k] {
      assert BuiltAt(metrics, rows, report, k);
    }
    forall k | 0 <= k < |names| ensures HasRow(report.metrics, names[k]) {
      assert report.metrics[k].name == names[k];
    }
  }

  /** The figures of a report row, before rounding: count, extremes among the samples, mean, and the
      percentiles at 50, 95 and 99 hundredths of the ranks. */
  datatype Exact = Exact(min: real, max: real, mean: real, p50: real, p95: real, p99: real)

  ghost predicate ExactFigures(values: seq<real>, x: Exact) {
    && IsLeast(values, x.min) && IsGreatest(values, x.max) && IsMean(values, x.mean)
    && AtRank(values, 50, x.p50) && AtRank(values, 95, x.p95) && AtRank(values, 99, x.p99)
  }

  /** The row states these figures to the millionth. */
  predicate Rounds(row: MetricRow, x: Exact) {
    && row.min == RoundMillionths(x.min) && row.max == RoundMillionths(x.max) && row.mean == RoundMillionths(x.mean)
    && row.p50 == RoundMillionths(x.p50) && row.p95 == RoundMillionths(x.p95) && row.p99 == RoundMillionths(x.p99)
  }

  function ExactOf(values: seq<real>): Exact
    requires values != []
  {
    Exact(Least(values), Greatest(values), Mean(values), Percentile(values, 0.50).value,
          Percentile(values, 0.95).value, Percentile(values, 0.99).value)
  }

  lemma {:induction false} ExactOfIs(values: seq<real>)
    requires values != []
    ensures ExactFigures(values, ExactOf(values))
  {
    ExtremesAreSamples(values);
    MeanIs(values);
    PercentRank(values, 50);
    PercentRank(values, 95);
    PercentRank(values, 99);
  }

  /** Every row of a built report states the figures of its metric's values. */
  lemma RowFigures(metrics: seq<Definition>, rows: seq<Sample>, report: Report, k: nat) returns (x: Exact)
    requires k < |metrics| && k < |report.metrics| && BuiltAt(metrics, rows, report, k)
    ensures report.metrics[k].name == metrics[k].name
    ensures report.metrics[k].sampleCount == |ValuesOf(rows, metrics[k].name)|
    ensures ExactFigures(ValuesOf(rows, metrics[k].name), x) && Rounds(report.metrics[k], x)
  {
    x := ExactOf(ValuesOf(rows, metrics[k].name));
    ExactOfIs(ValuesOf(rows, metrics[k].name));
  }

  // -------------------------------------------------------------- counts add up

  function SampleTotal(metrics: seq<MetricRow>): int {
    if metrics == [] then 0 else SampleTotal(metrics[..|metrics| - 1]) + metrics[|metrics| - 1].sampleCount
  }

  /** Samples of the first `n` metrics. */
  function CountTo(names: seq<string>, rows: seq<Sample>, n: nat): int
    requires n <= |names|
  {
    if n == 0 then 0 else CountTo(names, rows, n - 1) + |ValuesOf(rows, names[n - 1])|
  }

  lemma {:induction false} OneMoreSample(names: seq<string>, rows: seq<Sample>, n: nat)
    requires Names(names) && n <= |names| && rows != []
    ensures CountTo(names, rows, n) == CountTo(names, rows[..|rows| - 1], n)
      + if rows[|rows| - 1].metric in names[..n] then 1 else 0
  {
    if n > 0 {
      OneMoreSample(names, rows, n - 1);
      assert names[..n] == names[..n - 1] + [names[n - 1]];
    }
  }

  lemma {:induction false} AllCounted(names: seq<string>, rows: seq<Sample>)
    requires Names(names) && Validated(names, rows)
    ensures CountTo(names, rows, |names|) == |rows|
  {
    if rows == [] {
      NoneCounted(names, |names|);
    } else {
      AllCounted(names, rows[..|rows| - 1]);
      OneMoreSample(names, rows, |names|);
      assert names[..|names|] == names;
    }
  }

  lemma {:induction false} NoneCounted(names: seq<string>, n: nat)
    requires n <= |names|
    ensures CountTo(names, [], n) == 0
  {
    if n > 0 {
      NoneCounted(names, n - 1);
    }
  }

  lemma {:induction false} TotalIsCount(metrics: seq<Definition>, rows: seq<Sample>, report: Report, n: nat)
    requires n <= |metrics| == |report.metrics|
    requires forall k :: 0 <= k < |metrics| ==> BuiltAt(metrics, rows, report, k)
    ensures SampleTotal(report.metrics[..n]) == CountTo(NamesOf(metrics), rows, n)
  {
    if n > 0 {
      TotalIsCount(metrics, rows, report, n - 1);
      assert BuiltAt(metrics, rows, report, n - 1);
      assert report.metrics[..n][..n - 1] == report.metrics[..n - 1];
    }
  }

  /** The sample counts of the rows add up to the number of records. */
  lemma SamplesAddUp(metrics: seq<Definition>, rows: seq<Sample>, report: Report)
    requires Names(NamesOf(metrics)) && Validated(NamesOf(metrics), rows) && |report.metrics| == |metrics|
    requires forall k :: 0 <= k < |metrics| ==> BuiltAt(metrics, rows, report, k)
    ensures SampleTotal(report.metrics) == |rows|
  {
    TotalIsCount(metrics, rows, report, |metrics|);
    assert report.metrics[..|metrics|] == report.metrics;
    AllCounted(NamesOf(metrics), rows);
  }

  // --------------------------------------------------------------- the validator

  /** What a passing report says, written out. */
  lemma PassingReport(metrics: seq<Definition>, system: string, report: Report, k: nat, i: nat)
    requires ReportPasses(metrics, system, report) && k < |report.metrics| && i < |metrics|
    requires report.metrics[k].name == metrics[i].name
    ensures var mode, kind := report.classification.executionMode, report.classification.measurementKind;
      && mode in {"simulated", "mocked", "live"} && kind in {"measured", "planning_estimate"}
      && (report.classification.eligible <==> mode == "live" && kind == "measured" && system == "Windows")
      && report.metrics[k].executionMode == mode && report.metrics[k].measurementKind == kind
      && report.metrics[k].unit == metrics[i].unit && report.metrics[k].description == metrics[i].description
      && 1 <= report.metrics[k].sampleCount <= 1_000_000
  {
    assert RowAllowed(metrics, report, k);
  }

  /** The count, sign and order checks on one metric row. */
  method CheckFigures(m: MetricRow) returns (passed: bool)
    ensures passed <==> RowPasses(m)
  {
    if !(1 <= m.sampleCount <= HARD_MAX_RECORDS) {
      return false;
    }
    if m.min < 0.0 || m.max < 0.0 || m.mean < 0.0 || m.p50 < 0.0 || m.p95 < 0.0 || m.p99 < 0.0 {
      return false;
    }
    if !(m.min <= m.p50 <= m.p95 <= m.p99 <= m.max) {
      return false;
    }
    return m.min <= m.mean <= m.max;
  }

  /** `METRIC_BY_NAME`. */
  function ByName(metrics: seq<Definition>): (byName: map<string, Definition>)
    requires Names(NamesOf(metrics))
    ensures forall name :: name in byName <==> name in NamesOf(metrics)
    ensures forall i :: 0 <= i < |metrics| ==> byName[metrics[i].name] == metrics[i]
  {
    var names := NamesOf(metrics);
    assert forall i, j :: 0 <= i < |names| && 0 <= j < |names| && names[i] == names[j] ==> i == j;
    map i | 0 <= i < |metrics| :: names[i] := metrics[i]
  }

  /** All checks on one metric row. */
  method CheckRow(metrics: seq<Definition>, report: Report, k: nat) returns (passed: bool)
    requires Names(NamesOf(metrics)) && k < |report.metrics| && report.metrics[k].name in NamesOf(metrics)
    ensures passed <==> RowAllowed(metrics, report, k)
  {
    var m, definition := report.metrics[k], ByName(metrics)[report.metrics[k].name];
    ghost var i :| 0 <= i < |metrics| && NamesOf(metrics)[i] == m.name;
    assert definition == metrics[i];
    if m.unit != definition.unit || m.description != definition.description {
      return false;
    }
    if !AsClassified(report.classification, m) {
      return false;
    }
    passed := CheckFigures(m);
  }

  /** The classification and metric checks of `validate_report_shape`. */
  method ValidateMetrics(metrics: seq<Definition>, system: string, report: Report) returns (passed: bool)
    requires Names(NamesOf(metrics))
    ensures passed <==> ReportPasses(metrics, system, report)
  {
    var classification := report.classification;
    if classification.executionMode !in EXECUTION_MODES || classification.measurementKind !in MEASUREMENT_KINDS {
      return false;
    }
    if classification.eligible != Eligible(classification.executionMode, classification.measurementKind, system) {
      return false;
    }
    if |report.metrics| != |metrics| {
      return false;
    }
    var found := set k | 0 <= k < |report.metrics| :: report.metrics[k].name;
    NameSets(NamesOf(metrics), report.metrics, found, ByName(metrics).Keys);
    if found != ByName(metrics).Keys {
      return false;
    }
    for k := 0 to |report.metrics|
      invariant forall i :: 0 <= i < k ==> RowAllowed(metrics, report, i)
    {
      passed := CheckRow(metrics, report, k);
      if !passed {
        return;
      }
    }
    return true;
  }

  lemma NameSets(names: seq<string>, metrics: seq<MetricRow>, found: set<string>, wanted: set<string>)
    requires found == (set k | 0 <= k < |metrics| :: metrics[k].name)
    requires forall name :: name in wanted <==> name in names
    ensures found == wanted <==> SameNames(names, metrics)
  {
    if found == wanted {
      forall i | 0 <= i < |names| ensures HasRow(metrics, names[i]) {
        assert names[i] in wanted;
        assert names[i] in found;
      }
      forall k | 0 <= k < |metrics| ensures metrics[k].name in names {
        assert metrics[k].name in found;
        assert metrics[k].name in wanted;
      }
    }
    if SameNames(names, metrics) {
      forall x | x in wanted ensures x in found {
        var i :| 0 <= i < |names| && names[i] == x;
        assert HasRow(metrics, names[i]);
      }
      forall x | x in found ensures x in wanted {
        var k :| 0 <= k < |metrics| && metrics[k].name == x;
      }
      assert found == wanted;
    }
  }
}
