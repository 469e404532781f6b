/** The ordered lip-strip map of one image column: where each target height is
    sampled from, strip by strip. Heights grow downwards. */
module LipStrips {
  import opened Numeric

  datatype StripError = TooNarrow | CrossedInnerContour | UnorderedStrip

  /** What one column of the warp is given: the four contour heights, the mouth
      width, the wanted aperture and gain, the lens shape at this column, the gap
      at the mouth centre, and whether an oral reference is at hand. */
  datatype Column = Column(
    outerUpper: real, outerLower: real, innerUpper: real, innerLower: real,
    width: real, aperture: real, strength: real, shape: real, centerGap: real, oral: bool)
  {
    predicate Contact() {
      aperture < 0.02
    }

    function SourceGap(): real {
      MaxReal(innerLower - innerUpper, 0.12)
    }

    function Seam(): real {
      innerUpper * 0.68 + innerLower * 0.32
    }

    function TargetGap(): real {
      var gain := if Contact() then 1.0 else strength;
      var desired := if Contact() then 0.0 else MaxReal(0.55, Times(width, aperture));
      var cap := if oral then width * 0.22 else MaxReal(1.8, MaxReal(0.12, centerGap) * 2.25);
      MaxReal(SourceGap() + Times(gain, Times(MinReal(desired, cap), shape) - SourceGap()),
              if Contact() then 0.0 else 0.12)
    }

    /** Lip edges of the source, pushed apart to a gap and two lips of positive height. */
    function Source(): Edges {
      var ui, li := Seam() - 0.32 * SourceGap(), Seam() + 0.68 * SourceGap();
      Edges(MinReal(outerUpper, ui - 0.25), ui, li, MaxReal(outerLower, li + 0.25))
    }

    /** Lip edges after the gap has taken its target size. */
    function Target(): Edges {
      var s, ui, li := Source(), Seam() - 0.32 * TargetGap(), Seam() + 0.68 * TargetGap();
      Edges(ui - (s.ui - s.uo), ui, li, li + (s.lo - s.li))
    }

    /** Heights sampled at the strip boundaries. Under contact the cavity is left
        out: each lip is sampled within itself. */
    function Sampled(): Edges {
      var s := Source();
      if Contact()
      then Edges(s.uo, MaxReal(s.uo + 0.1, s.ui - 0.75), MinReal(s.lo - 0.1, s.li + 0.75), s.lo)
      else s
    }

    function TargetKnots(): seq<real> {
      Target().Knots(width)
    }

    function SampledKnots(): seq<real> {
      Sampled().Knots(width)
    }
  }

  datatype Edges = Edges(uo: real, ui: real, li: real, lo: real) {
    /** The six strip boundaries, from the top of the region to its bottom. */
    function Knots(width: real): (k: seq<real>)
      ensures |k| == 6
    {
      [-width * 0.72, uo, ui, li, lo, width * 0.72]
    }
  }

  /** Strip `i` is at least a hundredth high on both sides. */
  predicate StripOrdered(target: seq<real>, original: seq<real>, i: nat)
    requires |target| == |original| == 6 && i < 5
  {
    target[i + 1] - target[i] >= 0.01 && original[i + 1] - original[i] >= 0.01
  }

  /** Every strip that is used is ordered; under contact the middle one is closed instead. */
  predicate Ordered(target: seq<real>, original: seq<real>, contact: bool)
    requires |target| == |original| == 6
  {
    forall i :: 0 <= i < 5 && !(contact && i == 2) ==> StripOrdered(target, original, i)
  }

  /** How far `y` is through [ta, tb). */
  function Ratio(y: real, ta: real, tb: real): real
    requires ta < tb
  {
    (y - ta) / (tb - ta)
  }

  /** `ratio` of `height` below `from`. */
  function Blend(from: real, ratio: real, height: real): real {
    from + ratio * height
  }

  /** `y` of strip [ta, tb) carried to [sa, sb). */
  function Carry(y: real, ta: real, tb: real, sa: real, sb: real): real
    requires ta < tb
  {
    Blend(sa, Ratio(y, ta, tb), sb - sa)
  }

  lemma RatioTimesHeight(y: real, ta: real, tb: real)
    requires ta < tb
    ensures Ratio(y, ta, tb) * (tb - ta) == y - ta
  {
  }

  lemma RatioInside(y: real, ta: real, tb: real)
    requires ta <= y < tb
    ensures 0.0 <= Ratio(y, ta, tb) < 1.0
  {
    RatioOrder(ta, y, ta, tb);
    RatioOrder(y, tb, ta, tb);
    assert Ratio(ta, ta, tb) == 0.0;
    WholeRatio(tb - ta);
  }

  lemma WholeRatio(h: real)
    requires 0.0 < h
    ensures h / h == 1.0
  {
  }

  lemma RatioOrder(y: real, z: real, ta: real, tb: real)
    requires ta < tb
    ensures y < z ==> Ratio(y, ta, tb) < Ratio(z, ta, tb)
  {
    RatioTimesHeight(y, ta, tb);
    RatioTimesHeight(z, ta, tb);
    var p, q, h := Ratio(y, ta, tb), Ratio(z, ta, tb), tb - ta;
    if q < p {
      MulStrict(q, p, h);
    }
  }

  lemma BlendOrder(from: real, p: real, q: real, height: real)
    requires 0.0 < height && p < q
    ensures Blend(from, p, height) < Blend(from, q, height)
  {
    MulStrict(p, q, height);
  }

  lemma CarryInside(y: real, ta: real, tb: real, sa: real, sb: real)
    requires ta <= y < tb && sa < sb
    ensures sa <= Carry(y, ta, tb, sa, sb) < sb
  {
    RatioInside(y, ta, tb);
    var r, d := Ratio(y, ta, tb), sb - sa;
    BlendOrder(sa, r, 1.0, d);
    if 0.0 < r {
      BlendOrder(sa, 0.0, r, d);
    }
    assert Blend(sa, 0.0, d) == sa && Blend(sa, 1.0, d) == sa + d;
  }

  lemma CarryIncreases(y: real, z: real, ta: real, tb: real, sa: real, sb: real)
    requires ta < tb && sa < sb && y < z
    ensures Carry(y, ta, tb, sa, sb) < Carry(z, ta, tb, sa, sb)
  {
    RatioOrder(y, z, ta, tb);
    BlendOrder(sa, Ratio(y, ta, tb), Ratio(z, ta, tb), sb - sa);
  }

  lemma CarryBack(y: real, ta: real, tb: real, sa: real, sb: real)
    requires ta < tb && sa < sb
    ensures Carry(Carry(y, ta, tb, sa, sb), sa, sb, ta, tb) == y
  {
    var r, d := Ratio(y, ta, tb), sb - sa;
    assert Ratio(Blend(sa, r, d), sa, sb) == r by {
      assert Blend(sa, r, d) - sa == r * d;
      assert r * d / d == r;
    }
    RatioTimesHeight(y, ta, tb);
  }

  /** The strip that holds `y`: 0 to 4, or 5 outside the region. */
  function StripOf(target: seq<real>, y: real): (i: nat)
    requires |target| == 6
    ensures i <= 5
  {
    if y < target[0] || target[5] <= y then 5
    else if target[4] <= y then 4
    else if target[3] <= y then 3
    else if target[2] <= y then 2
    else if target[1] <= y then 1
    else 0
  }

  /** Knots in order, except that the middle strip may be closed. */
  predicate Ascending(k: seq<real>) {
    |k| == 6 && k[0] < k[1] < k[2] <= k[3] < k[4] < k[5]
  }

  /** Where height `y` is sampled. */
  function SampleAt(target: seq<real>, original: seq<real>, y: real): real
    requires Ascending(target) && |original| == 6
  {
    var i := StripOf(target, y);
    if i == 5 then y else Carry(y, target[i], target[i + 1], original[i], original[i + 1])
  }

  // ------------------------------------------------------------ the knots of a column

  /** The three middle strips can never raise the ordering error: only the two
      outer strips are at stake, and the column's knots are ascending whenever those pass. */
  lemma MiddleStripsAlwaysOrdered(c: Column)
    requires c.width >= 24.0
    ensures StripOrdered(c.TargetKnots(), c.SampledKnots(), 1)
    ensures StripOrdered(c.TargetKnots(), c.SampledKnots(), 3)
    ensures !c.Contact() ==> StripOrdered(c.TargetKnots(), c.SampledKnots(), 2)
    ensures c.Contact() ==> c.TargetKnots()[2] == c.TargetKnots()[3] == c.Seam()
    ensures c.SampledKnots()[2] < c.SampledKnots()[3]
  {
    GapBounds(c);
  }

  lemma GapBounds(c: Column)
    requires c.width >= 24.0
    ensures c.SourceGap() >= 0.12
    ensures !c.Contact() ==> c.TargetGap() >= 0.12
    ensures c.Contact() ==> c.TargetGap() == 0.0
  {
    TimesOne(0.0 - c.SourceGap());
  }

  /** The two outer strips are what is left to check. */
  predicate OuterStripsOrdered(c: Column) {
    StripOrdered(c.TargetKnots(), c.SampledKnots(), 0) && StripOrdered(c.TargetKnots(), c.SampledKnots(), 4)
  }

  lemma KnotsAscend(c: Column)
    requires c.width >= 24.0
    ensures Ordered(c.TargetKnots(), c.SampledKnots(), c.Contact()) <==> OuterStripsOrdered(c)
    ensures OuterStripsOrdered(c) ==> Ascending(c.TargetKnots()) && Ascending(c.SampledKnots())
  {
    MiddleStripsAlwaysOrdered(c);
    var t, o := c.TargetKnots(), c.SampledKnots();
    if OuterStripsOrdered(c) {
      forall i | 0 <= i < 5 && !(c.Contact() && i == 2) ensures StripOrdered(t, o, i) {
        assert i == 0 || i == 1 || i == 2 || i == 3 || i == 4;
      }
      assert StripOrdered(t, o, 0) && StripOrdered(t, o, 1) && StripOrdered(t, o, 3) && StripOrdered(t, o, 4);
    }
  }

  // -------------------------------------------------------------------- the loop

  method WarpColumn(c: Column, ys: seq<real>) returns (r: Result<seq<real>, StripError>)
    ensures r == Failure(TooNarrow) <==> c.width < 24.0
    ensures r == Failure(CrossedInnerContour) <==> c.width >= 24.0 && c.innerLower - c.innerUpper < -0.75
    ensures r.Success? <==> c.width >= 24.0 && c.innerLower - c.innerUpper >= -0.75 && OuterStripsOrdered(c)
    ensures r.Success? <==>
      var t, o := c.TargetKnots(), c.SampledKnots();
      && c.width >= 24.0 && c.innerLower - c.innerUpper >= -0.75
      && t[1] - t[0] >= 0.01 && o[1] - o[0] >= 0.01 && t[5] - t[4] >= 0.01 && o[5] - o[4] >= 0.01
    ensures r.Success? ==>
      && Ascending(c.TargetKnots()) && |r.value| == |ys|
      && forall p :: 0 <= p < |ys| ==> r.value[p] == SampleAt(c.TargetKnots(), c.SampledKnots(), ys[p])
  {
    if c.width < 24.0 {
      return Failure(TooNarrow);
    }
    if c.innerLower - c.innerUpper < -0.75 {
      return Failure(CrossedInnerContour);
    }
    KnotsAscend(c);
    MiddleStripsAlwaysOrdered(c);
    r := FillStrips(c.TargetKnots(), c.SampledKnots(), c.Contact(), ys);
  }

  /** The loop over the five strips. */
  method FillStrips(target: seq<real>, original: seq<real>, contact: bool, ys: seq<real>)
    returns (r: Result<seq<real>, StripError>)
    requires |target| == |original| == 6
    requires Ordered(target, original, contact) ==> Ascending(target) && (contact ==> target[2] == target[3])
    ensures r == Failure(UnorderedStrip) <==> !Ordered(target, original, contact)
    ensures r.Success? <==> Ordered(target, original, contact)
    ensures r.Success? ==>
      |r.value| == |ys| && forall p :: 0 <= p < |ys| ==> r.value[p] == SampleAt(target, original, ys[p])
  {
    var sy := ys;
    for index := 0 to 5
      invariant |sy| == |ys|
      invariant forall i :: 0 <= i < index && !(contact && i == 2) ==> StripOrdered(target, original, i)
      invariant forall p :: 0 <= p < |ys| ==> sy[p] == FilledTo(target, original, contact, index, ys[p])
    {
      if !(contact && index == 2) {
        if target[index + 1] - target[index] < 0.01 || original[index + 1] - original[index] < 0.01 {
          assert !StripOrdered(target, original, index);
          return Failure(UnorderedStrip);
        }
        sy := FillStrip(ys, sy, target[index], target[index + 1], original[index], original[index + 1]);
      }
    }
    forall p | 0 <= p < |ys| ensures sy[p] == SampleAt(target, original, ys[p]) {
      FilledIsSample(target, original, contact, ys[p]);
    }
    return Success(sy);
  }

  /** The value of one height once the first `n` strips have been filled in. */
  function FilledTo(target: seq<real>, original: seq<real>, contact: bool, n: nat, y: real): real
    requires |target| == |original| == 6 && n <= 5
  {
    if n == 0 then y else
      var i := n - 1;
      if !(contact && i == 2) && target[i] <= y < target[n]
      then Carry(y, target[i], target[n], original[i], original[n])
      else FilledTo(target, original, contact, i, y)
  }

  lemma {:induction false} FilledIsSample(target: seq<real>, original: seq<real>, contact: bool, y: real)
    requires Ascending(target) && |original| == 6 && (contact ==> target[2] == target[3])
    ensures FilledTo(target, original, contact, 5, y) == SampleAt(target, original, y)
  {
    assert FilledTo(target, original, contact, 5, y) ==
      if target[4] <= y < target[5] then Carry(y, target[4], target[5], original[4], original[5])
      else FilledTo(target, original, contact, 4, y);
    assert FilledTo(target, original, contact, 3, y) ==
      if !contact && target[2] <= y < target[3] then Carry(y, target[2], target[3], original[2], original[3])
      else FilledTo(target, original, contact, 2, y);
    assert FilledTo(target, original, contact, 1, y) ==
      if target[0] <= y < target[1] then Carry(y, target[0], target[1], original[0], original[1]) else y;
  }

  /** `sy[inside] = (sa + ratio * (sb - sa))[inside]`. */
  method FillStrip(ys: seq<real>, sy: seq<real>, ta: real, tb: real, sa: real, sb: real) returns (filled: seq<real>)
    requires |ys| == |sy| && tb - ta >= 0.01
    ensures |filled| == |ys|
    ensures forall p :: 0 <= p < |ys| ==>
      filled[p] == if ta <= ys[p] < tb then Carry(ys[p], ta, tb, sa, sb) else sy[p]
  {
    filled := sy;
    for p := 0 to |ys|
      invariant |filled| == |ys|
      invariant forall q :: 0 <= q < p ==>
        filled[q] == if ta <= ys[q] < tb then Carry(ys[q], ta, tb, sa, sb) else sy[q]
      invariant forall q :: p <= q < |ys| ==> filled[q] == sy[q]
    {
      if ta <= ys[p] < tb {
        var ratio := Clip((ys[p] - ta) / MaxReal(tb - ta, 0.01));
        InsideNeedsNoClip(ys[p], ta, tb);
        filled := filled[p := sa + ratio * (sb - sa)];
      }
    }
  }

  function Clip(x: real): real {
    MinReal(MaxReal(x, 0.0), 1.0)
  }

  lemma InsideNeedsNoClip(y: real, ta: real, tb: real)
    requires ta <= y < tb && tb - ta >= 0.01
    ensures Clip((y - ta) / MaxReal(tb - ta, 0.01)) == (y - ta) / (tb - ta)
  {
    RatioInside(y, ta, tb);
  }

  // ------------------------------------------------------------- what the map keeps

  /** Each strip's heights stay inside the strip's source. */
  lemma SampleInStrip(target: seq<real>, original: seq<real>, y: real)
    requires Ascending(target) && Ascending(original) && original[2] < original[3]
    ensures var i, s := StripOf(target, y), SampleAt(target, original, y);
      if i == 5 then s == y else original[i] <= s < original[i + 1]
  {
    var i := StripOf(target, y);
    if i != 5 {
      assert original[i] < original[i + 1];
      CarryInside(y, target[i], target[i + 1], original[i], original[i + 1]);
    }
  }

  lemma KnotsOrdered(k: seq<real>, i: nat, j: nat)
    requires Ascending(k) && i <= j < 6
    ensures k[i] <= k[j]
  {
  }

  /** The map is strictly increasing: no two heights swap and none coincide. */
  lemma MapIsIncreasing(target: seq<real>, original: seq<real>, y: real, z: real)
    requires Ascending(target) && Ascending(original) && original[2] < original[3]
    requires target[0] == original[0] && target[5] == original[5] && y < z
    ensures SampleAt(target, original, y) < SampleAt(target, original, z)
  {
    var i, j := StripOf(target, y), StripOf(target, z);
    SampleInStrip(target, original, y);
    SampleInStrip(target, original, z);
    if i != 5 && j != 5 {
      if i == j {
        assert original[i] < original[i + 1];
        CarryIncreases(y, z, target[i], target[i + 1], original[i], original[i + 1]);
      } else {
        KnotsOrdered(original, i + 1, j);
      }
    } else if i == 5 && j != 5 {
      KnotsOrdered(original, 0, j);
    } else if i != 5 && j == 5 {
      KnotsOrdered(original, i + 1, 5);
    }
  }

  /** Without contact the map has an inverse: the same map with the knots exchanged. */
  lemma MapIsInvertible(target: seq<real>, original: seq<real>, y: real)
    requires Ascending(target) && Ascending(original) && target[2] < target[3] && original[2] < original[3]
    requires target[0] == original[0] && target[5] == original[5]
    ensures SampleAt(original, target, SampleAt(target, original, y)) == y
  {
    var i, s := StripOf(target, y), SampleAt(target, original, y);
    SampleInStrip(target, original, y);
    if i != 5 {
      KnotsOrdered(original, 0, i);
      KnotsOrdered(original, i + 1, 5);
      assert StripOf(original, s) == i;
      assert original[i] < original[i + 1] && target[i] < target[i + 1];
      CarryBack(y, target[i], target[i + 1], original[i], original[i + 1]);
    }
  }

  /** The whole promise for one column whose outer strips are ordered. */
  lemma ColumnMap(c: Column, y: real, z: real)
    requires c.width >= 24.0 && OuterStripsOrdered(c) && y < z
    ensures Ascending(c.TargetKnots()) && Ascending(c.SampledKnots())
    ensures var t, o := c.TargetKnots(), c.SampledKnots();
      && SampleAt(t, o, y) < SampleAt(t, o, z)
      && (y < -c.width * 0.72 || c.width * 0.72 <= y ==> SampleAt(t, o, y) == y)
      && (!c.Contact() ==> SampleAt(o, t, SampleAt(t, o, y)) == y)
  {
    KnotsAscend(c);
    MiddleStripsAlwaysOrdered(c);
    var t, o := c.TargetKnots(), c.SampledKnots();
    MapIsIncreasing(t, o, y, z);
    if !c.Contact() {
      assert StripOrdered(t, o, 2);
      MapIsInvertible(t, o, y);
    }
  }

  /** Lips keep their thickness, and without contact they move as rigid strips. */
  lemma LipsMoveRigidly(c: Column, y: real)
    requires c.width >= 24.0 && OuterStripsOrdered(c)
    ensures c.Target().ui - c.Target().uo == c.Source().ui - c.Source().uo
    ensures c.Target().lo - c.Target().li == c.Source().lo - c.Source().li
    ensures Ascending(c.TargetKnots())
    ensures !c.Contact() && c.Target().uo <= y < c.Target().ui ==>
      SampleAt(c.TargetKnots(), c.SampledKnots(), y) == y + (c.Source().ui - c.Target().ui)
    ensures !c.Contact() && c.Target().li <= y < c.Target().lo ==>
      SampleAt(c.TargetKnots(), c.SampledKnots(), y) == y + (c.Source().li - c.Target().li)
  {
    KnotsAscend(c);
    var t, s := c.Target(), c.Source();
    if !c.Contact() && t.uo <= y < t.ui {
      RigidCarry(y, t.uo, t.ui, s.uo, s.ui);
    }
    if !c.Contact() && t.li <= y < t.lo {
      RigidCarry(y, t.li, t.lo, s.li, s.lo);
    }
  }

  lemma RigidCarry(y: real, ta: real, tb: real, sa: real, sb: real)
    requires ta < tb && tb - ta == sb - sa
    ensures Carry(y, ta, tb, sa, sb) == y + (sa - ta)
  {
    RatioTimesHeight(y, ta, tb);
  }

  /** Under contact nothing is sampled from the source's inner gap: every height
      comes from at least 0.15 above it or 0.15 below it. */
  lemma ContactHidesTheCavity(c: Column, y: real)
    requires c.width >= 24.0 && OuterStripsOrdered(c) && c.Contact()
    ensures Ascending(c.TargetKnots())
    ensures var s := SampleAt(c.TargetKnots(), c.SampledKnots(), y);
      if y < c.Seam() then s <= c.Source().ui - 0.15 else c.Source().li + 0.15 <= s
  {
    KnotsAscend(c);
    MiddleStripsAlwaysOrdered(c);
    var t, o := c.TargetKnots(), c.SampledKnots();
    SampleInStrip(t, o, y);
    var i := StripOf(t, y);
    if y < c.Seam() {
      if i != 5 { KnotsOrdered(o, i + 1, 2); }
    } else {
      if i != 5 { KnotsOrdered(o, 3, i); }
    }
  }

  // -------------------------------------------------------------- how far it opens

  /** How high a lip is taken to be: at least a quarter. */
  function LipHeight(outer: real, inner: real): real {
    MaxReal(inner - outer, 0.25)
  }

  /** The widest gap allowed: part of the mouth width with an oral reference, otherwise a multiple of
      the gap at the mouth centre. */
  function GapCap(c: Column): real {
    if c.oral then 0.22 * c.width else MaxReal(1.8, 2.25 * MaxReal(0.12, c.centerGap))
  }

  /** The gap the aperture asks for at this column. */
  function WantedGap(c: Column): real {
    Times(MinReal(MaxReal(0.55, Times(c.width, c.aperture)), GapCap(c)), c.shape)
  }

  /** Where source and target edges lie. Both gaps are split 0.32 to 0.68 by the seam, itself a
      0.32 to 0.68 mean of the inner contours; the source gap is at least 0.12; the target gap lies
      `strength` of the way from it to the wanted gap, and is at least 0.12 or, under contact, 0. Lips
      keep their height. Under contact they are sampled up to 0.75 inside, never to their outer edge. */
  lemma EdgesAre(c: Column)
    requires c.width >= 24.0
    ensures var t, o := c.TargetKnots(), c.SampledKnots();
      var seam := c.innerUpper + 0.32 * (c.innerLower - c.innerUpper);
      var source := MaxReal(c.innerLower - c.innerUpper, 0.12);
      var ui, li := seam - 0.32 * source, seam + 0.68 * source;
      var upper, lower := LipHeight(c.outerUpper, ui), LipHeight(-c.outerLower, -li);
      && t[0] == o[0] == -0.72 * c.width && t[5] == o[5] == 0.72 * c.width
      && t[2] == seam - 0.32 * (t[3] - t[2]) && t[3] == seam + 0.68 * (t[3] - t[2])
      && t[1] == t[2] - upper && t[4] == t[3] + lower && o[1] == ui - upper && o[4] == li + lower
      && (c.aperture < 0.02 ==> t[2] == t[3] == seam)
      && (c.aperture < 0.02 ==> o[2] == ui - MinReal(upper - 0.1, 0.75) && o[3] == li + MinReal(lower - 0.1, 0.75))
      && (c.aperture >= 0.02 ==> o[2] == ui && o[3] == li)
      && (c.aperture >= 0.02 ==> t[3] - t[2] == MaxReal(0.12, source + Times(c.strength, WantedGap(c) - source)))
  {
    GapBounds(c);
  }

  /** The height between the inner edges of the target. */
  function OpenGap(c: Column): real {
    c.TargetKnots()[3] - c.TargetKnots()[2]
  }

  /** The height between the inner edges of the source, at least 0.12. */
  function ClosedGap(c: Column): real {
    MaxReal(c.innerLower - c.innerUpper, 0.12)
  }

  /** At no strength the mouth keeps its gap. */
  lemma NoStrengthKeepsTheGap(c: Column)
    requires c.width >= 24.0 && c.aperture >= 0.02 && c.strength == 0.0
    ensures OpenGap(c) == c.SampledKnots()[3] - c.SampledKnots()[2] == ClosedGap(c)
  {
    EdgesAre(c);
  }

  /** At full strength it takes the wanted one. */
  lemma FullStrengthTakesTheWantedGap(c: Column)
    requires c.width >= 24.0 && c.aperture >= 0.02 && c.strength == 1.0
    ensures OpenGap(c) == MaxReal(0.12, WantedGap(c))
  {
    EdgesAre(c);
    TimesOne(WantedGap(c) - ClosedGap(c));
  }

  /** A larger aperture never asks for less. */
  lemma WiderApertureWantsMore(c: Column, aperture: real)
    requires c.aperture <= aperture && 0.0 <= c.shape && 0.0 <= c.width
    ensures WantedGap(c) <= WantedGap(c.(aperture := aperture))
  {
    Scaled(c.width, c.aperture, aperture);
    Scaled(c.shape, MinReal(MaxReal(0.55, Times(c.width, c.aperture)), GapCap(c)),
           MinReal(MaxReal(0.55, Times(c.width, aperture)), GapCap(c)));
  }

  /** A larger aperture never opens the mouth less. */
  lemma WiderApertureOpensMore(c: Column, aperture: real)
    requires c.width >= 24.0 && 0.02 <= c.aperture <= aperture && 0.0 <= c.strength && 0.0 <= c.shape
    ensures OpenGap(c) <= OpenGap(c.(aperture := aperture))
  {
    var d := c.(aperture := aperture);
    EdgesAre(c);
    EdgesAre(d);
    WiderApertureWantsMore(c, aperture);
    Scaled(c.strength, WantedGap(c) - ClosedGap(c), WantedGap(d) - ClosedGap(c));
  }

  /** At the strengths the script allows, the open gap lies between the source gap and the wanted one,
      and so exceeds the source gap only up to the cap at this column, or 0.12. */
  lemma GapStaysCapped(c: Column)
    requires c.width >= 24.0 && c.aperture >= 0.02 && 0.0 <= c.strength <= 1.0 && 0.0 <= c.shape
    ensures MinReal(ClosedGap(c), MaxReal(0.12, WantedGap(c))) <= OpenGap(c)
    ensures OpenGap(c) <= MaxReal(ClosedGap(c), WantedGap(c))
    ensures OpenGap(c) <= MaxReal(ClosedGap(c), Times(GapCap(c), c.shape))
  {
    EdgesAre(c);
    Scaled(c.shape, MinReal(MaxReal(0.55, Times(c.width, c.aperture)), GapCap(c)), GapCap(c));
    BetweenBoth(ClosedGap(c), WantedGap(c), c.strength);
  }

  lemma BetweenBoth(a: real, b: real, s: real)
    requires 0.0 <= s <= 1.0
    ensures MinReal(a, b) <= a + Times(s, b - a) <= MaxReal(a, b)
  {
    var d := b - a;
    TimesOne(d);
    if a <= b {
      Scaled(d, 0.0, s);
      Scaled(d, s, 1.0);
    } else {
      Scaled(-d, 0.0, s);
      Scaled(-d, s, 1.0);
      TimesDistributes(s, 0.0, d);
      TimesDistributes(1.0, 0.0, d);
    }
  }
}
