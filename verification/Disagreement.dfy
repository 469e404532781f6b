/** Frame disagreement of two cue timelines: the two-pointer merge, and the
    pointwise count it computes. */
module Disagreement {
  import opened Numeric
  import opened CueTimeline

  /** How many positions of two equally long sequences differ. */
  function Differing(a: seq<Shape>, b: seq<Shape>): nat
    requires |a| == |b|
  {
    if a == [] then 0 else
      var n := |a| - 1;
      Differing(a[..n], b[..n]) + if a[n] == b[n] then 0 else 1
  }

  lemma {:induction false} DifferingConcat(a: seq<Shape>, b: seq<Shape>, c: seq<Shape>, d: seq<Shape>)
    requires |a| == |b| && |c| == |d|
    ensures Differing(a + c, b + d) == Differing(a, b) + Differing(c, d)
    decreases |c|
  {
    var n := |c| - 1;
    if c == [] {
      assert a + c == a && b + d == b;
    } else {
      assert (a + c)[..|a| + n] == a + c[..n] && (b + d)[..|a| + n] == b + d[..n];
      DifferingConcat(a, b, c[..n], d[..n]);
    }
  }

  lemma {:induction false} DifferingHolds(s: Shape, t: Shape, n: nat)
    ensures Differing(Hold(s, n), Hold(t, n)) == if s == t then 0 else n
  {
    if n > 0 {
      assert Hold(s, n)[..n - 1] == Hold(s, n - 1) && Hold(t, n)[..n - 1] == Hold(t, n - 1);
      DifferingHolds(s, t, n - 1);
    }
  }

  /** Symmetric, at most the length, and zero exactly on equal sequences. */
  lemma {:induction false} DifferingIsADistance(a: seq<Shape>, b: seq<Shape>)
    requires |a| == |b|
    ensures Differing(a, b) == Differing(b, a) <= |a|
    ensures Differing(a, b) == 0 <==> a == b
  {
    if a != [] {
      var n := |a| - 1;
      DifferingIsADistance(a[..n], b[..n]);
      assert a == a[..n] + [a[n]] && b == b[..n] + [b[n]];
    }
  }

  lemma {:induction false} DifferingTriangle(a: seq<Shape>, b: seq<Shape>, c: seq<Shape>)
    requires |a| == |b| == |c|
    ensures Differing(a, c) <= Differing(a, b) + Differing(b, c)
  {
    if a != [] {
      var n := |a| - 1;
      DifferingTriangle(a[..n], b[..n], c[..n]);
    }
  }

  predicate SameRange(left: seq<Cue>, right: seq<Cue>)
    requires left != [] && right != []
  {
    First(left) == First(right) && End(left) == End(right)
  }

  /** The number of frames two comparable timelines show differently. */
  function Disagreeing(left: seq<Cue>, right: seq<Cue>): nat
    requires Contiguous(left) && Contiguous(right) && SameRange(left, right)
  {
    FramesLength(left);
    FramesLength(right);
    Differing(Frames(left), Frames(right))
  }

  /** On timelines of one range, disagreement is a metric bounded by the range. */
  lemma {:induction false} DisagreementIsAMetric(a: seq<Cue>, b: seq<Cue>, c: seq<Cue>)
    requires Contiguous(a) && Contiguous(b) && Contiguous(c) && SameRange(a, b) && SameRange(b, c)
    ensures Disagreeing(a, b) == Disagreeing(b, a) <= End(a) - First(a)
    ensures Disagreeing(a, b) == 0 <==> Frames(a) == Frames(b)
    ensures Disagreeing(a, c) <= Disagreeing(a, b) + Disagreeing(b, c)
  {
    FramesLength(a);
    FramesLength(b);
    FramesLength(c);
    DifferingIsADistance(Frames(a), Frames(b));
    DifferingTriangle(Frames(a), Frames(b), Frames(c));
  }

  /** Pointer `i` names the cue that holds frame `cursor`, or is past the end. */
  ghost predicate PointsAt(cues: seq<Cue>, i: nat, cursor: int)
    requires cues != []
  {
    if i < |cues| then cues[i].start <= cursor < cues[i].end else i == |cues| && cursor == End(cues)
  }

  method DisagreementFrames(left: seq<Cue>, right: seq<Cue>) returns (r: Result<nat, CueError>)
    ensures r.Success? <==> Contiguous(left) && Contiguous(right) && SameRange(left, right)
    ensures r.Success? ==> r.value == Disagreeing(left, right)
    ensures !Contiguous(left) ==> Fault(left).Some? && r == Failure(Fault(left).value)
    ensures Contiguous(left) && !Contiguous(right) ==> Fault(right).Some? && r == Failure(Fault(right).value)
    ensures Contiguous(left) && Contiguous(right) && !SameRange(left, right) ==> r == Failure(DifferentRanges)
  {
    var fault := ValidateContiguous(left);
    if fault.Some? {
      return Failure(fault.value);
    }
    fault := ValidateContiguous(right);
    if fault.Some? {
      return Failure(fault.value);
    }
    if left[0].start != right[0].start || left[|left| - 1].end != right[|right| - 1].end {
      return Failure(DifferentRanges);
    }
    var disagreed, _, _ := MergeCount(left, right);
    return Success(disagreed);
  }

  /** The disagreement of the frames before `cursor`. */
  ghost function CountTo(left: seq<Cue>, right: seq<Cue>, cursor: int): nat
    requires Contiguous(left) && Contiguous(right) && SameRange(left, right)
    requires First(left) <= cursor <= End(left)
  {
    FramesLength(left);
    FramesLength(right);
    Differing(Frames(left)[..cursor - First(left)], Frames(right)[..cursor - First(left)])
  }

  lemma CountNothing(left: seq<Cue>, right: seq<Cue>)
    requires Contiguous(left) && Contiguous(right) && SameRange(left, right)
    ensures First(left) <= End(left) && CountTo(left, right, First(left)) == 0
  {
    assert LinkedAt(left, 0);
    StartsOrdered(left, 0, |left| - 1);
  }

  lemma {:induction false} WholeSequences(l: seq<Shape>, r: seq<Shape>, n: nat)
    requires |l| == |r| == n
    ensures Differing(l[..n], r[..n]) == Differing(l, r)
  {
    assert l[..n] == l && r[..n] == r;
  }

  lemma CountWhole(left: seq<Cue>, right: seq<Cue>)
    requires Contiguous(left) && Contiguous(right) && SameRange(left, right)
    ensures First(left) <= End(left) && CountTo(left, right, End(left)) == Disagreeing(left, right)
  {
    assert First(left) <= End(left) by { CountNothing(left, right); }
    FramesLength(left);
    FramesLength(right);
    WholeSequences(Frames(left), Frames(right), End(left) - First(left));
  }

  /** Where the two-pointer loop stands: everything before `cursor` is counted. */
  ghost predicate Merging(left: seq<Cue>, right: seq<Cue>, i: nat, j: nat, cursor: int, disagreed: int) {
    && Contiguous(left) && Contiguous(right) && SameRange(left, right)
    && PointsAt(left, i, cursor) && PointsAt(right, j, cursor)
    && First(left) <= cursor <= End(left) && disagreed == CountTo(left, right, cursor)
  }

  lemma MergeStart(left: seq<Cue>, right: seq<Cue>)
    requires Contiguous(left) && Contiguous(right) && SameRange(left, right)
    ensures Merging(left, right, 0, 0, First(left), 0)
  {
    CountNothing(left, right);
    assert LinkedAt(left, 0) && LinkedAt(right, 0);
  }

  lemma MergeStep(left: seq<Cue>, right: seq<Cue>, i: nat, j: nat, cursor: int, disagreed: int)
    requires Merging(left, right, i, j, cursor, disagreed) && i < |left| && j < |right|
    ensures var end := Min(left[i].end, right[j].end);
      && cursor < end
      && Merging(left, right, if end == left[i].end then i + 1 else i, if end == right[j].end then j + 1 else j, end,
                 disagreed + if left[i].shape == right[j].shape then 0 else end - cursor)
  {
    var end := Min(left[i].end, right[j].end);
    AdvancePointer(left, i, cursor, end);
    AdvancePointer(right, j, cursor, end);
    CountStretch(left, right, i, j, cursor, end);
  }

  lemma MergeDone(left: seq<Cue>, right: seq<Cue>, i: nat, j: nat, cursor: int, disagreed: int)
    requires Merging(left, right, i, j, cursor, disagreed) && (i == |left| || j == |right|)
    ensures i == |left| && j == |right| && disagreed == Disagreeing(left, right)
  {
    CountWhole(left, right);
    if i < |left| { AdvancePointer(left, i, cursor, left[i].end); }
    if j < |right| { AdvancePointer(right, j, cursor, right[j].end); }
  }

  /** The two-pointer loop of `disagreement_frames`: both lists are exhausted together. */
  method MergeCount(left: seq<Cue>, right: seq<Cue>) returns (disagreed: nat, i: nat, j: nat)
    requires Contiguous(left) && Contiguous(right) && SameRange(left, right)
    ensures disagreed == Disagreeing(left, right) && i == |left| && j == |right|
  {
    disagreed, i, j := 0, 0, 0;
    var cursor := left[0].start;
    MergeStart(left, right);
    while i < |left| && j < |right|
      invariant i <= |left| && j <= |right|
      invariant Merging(left, right, i, j, cursor, disagreed)
      decreases |left| - i + |right| - j
    {
      MergeStep(left, right, i, j, cursor, disagreed);
      ghost var x, y := i, j;
      var end := Min(left[i].end, right[j].end);
      if left[i].shape != right[j].shape {
        disagreed := disagreed + (end - cursor);
      }
      cursor := end;
      var leftEnds, rightEnds := cursor == left[i].end, cursor == right[j].end;
      if leftEnds {
        i := i + 1;
      }
      if rightEnds {
        j := j + 1;
      }
      assert i == (if end == left[x].end then x + 1 else x) && j == (if end == right[y].end then y + 1 else y);
    }
    MergeDone(left, right, i, j, cursor, disagreed);
  }

  lemma CountStretch(left: seq<Cue>, right: seq<Cue>, i: nat, j: nat, cursor: int, end: int)
    requires Contiguous(left) && Contiguous(right) && SameRange(left, right) && i < |left| && j < |right|
    requires First(left) <= cursor <= end <= End(left)
    requires left[i].start <= cursor <= end <= left[i].end && right[j].start <= cursor <= end <= right[j].end
    ensures CountTo(left, right, end)
         == CountTo(left, right, cursor) + if left[i].shape == right[j].shape then 0 else end - cursor
  {
    FramesLength(left);
    FramesLength(right);
    FramesInCue(left, i, cursor, end);
    FramesInCue(right, j, cursor, end);
    HeldCount(Frames(left), Frames(right), cursor - First(left), end - First(left), left[i].shape, right[j].shape);
  }

  lemma HeldCount(l: seq<Shape>, r: seq<Shape>, a: nat, b: nat, s: Shape, t: Shape)
    requires |l| == |r| && a <= b <= |l|
    requires l[a..b] == Hold(s, b - a) && r[a..b] == Hold(t, b - a)
    ensures Differing(l[..b], r[..b]) == Differing(l[..a], r[..a]) + if s == t then 0 else b - a
  {
    DifferingConcat(l[..a], r[..a], l[a..b], r[a..b]);
    assert l[..b] == l[..a] + l[a..b] && r[..b] == r[..a] + r[a..b];
    DifferingHolds(s, t, b - a);
  }

  lemma AdvancePointer(cues: seq<Cue>, i: nat, cursor: int, end: int)
    requires Contiguous(cues) && i < |cues| && cues[i].start <= cursor < end <= cues[i].end
    ensures PointsAt(cues, if end == cues[i].end then i + 1 else i, end)
    ensures end <= End(cues)
  {
    StartsOrdered(cues, i, |cues| - 1);
    if i + 1 < |cues| {
      assert LinkedAt(cues, i + 1);
    }
  }
}
