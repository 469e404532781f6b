/** Cue timelines on the integer sample clock, the frames they stand for, and
    the run-length form of a frame sequence. */
module CueTimeline {
  import opened Numeric

  /** Mouth shapes are named by one character. */
  type Shape = char

  datatype Cue = Cue(start: int, end: int, shape: Shape)

  datatype CueError =
    | NoCues
    | UnknownShape
    | NotContiguous
    | WatermarkMovedBackwards
    | CursorNotCovered
    | WatermarkNotCovered
    | DifferentRanges
    | DifferentAudio
    | DurationMismatch
    | StartOmitted
    | TailOmitted
    | InexactCoverage
    | NoRuns
    | UnknownStrategy
    | GenerationNotPositive
    | RecognizerFailed

  const RHUBARB_SHAPES: set<Shape> := {'X', 'A', 'B', 'C', 'D', 'E', 'F', 'G', 'H'}

  /** Cue `i` is non-empty and starts where its predecessor ends. */
  predicate LinkedAt(cues: seq<Cue>, i: nat)
    requires i < |cues|
  {
    cues[i].start < cues[i].end && (i > 0 ==> cues[i].start == cues[i - 1].end)
  }

  predicate Linked(cues: seq<Cue>) {
    forall i :: 0 <= i < |cues| ==> LinkedAt(cues, i)
  }

  predicate KnownAt(cues: seq<Cue>, i: nat)
    requires i < |cues|
  {
    cues[i].shape in RHUBARB_SHAPES
  }

  predicate Known(cues: seq<Cue>) {
    forall i :: 0 <= i < |cues| ==> KnownAt(cues, i)
  }

  /** What `validate_contiguous_cues` accepts. */
  predicate Contiguous(cues: seq<Cue>) {
    cues != [] && Linked(cues) && Known(cues)
  }

  function First(cues: seq<Cue>): int
    requires cues != []
  {
    cues[0].start
  }

  function End(cues: seq<Cue>): int
    requires cues != []
  {
    cues[|cues| - 1].end
  }

  // ---------------------------------------------------------------- validation

  /** The first fault at or after position `i`, in the order the checks are made. */
  function FaultFrom(cues: seq<Cue>, i: nat): Option<CueError>
    requires i <= |cues|
    decreases |cues| - i
  {
    if i == |cues| then None
    else if !KnownAt(cues, i) then Some(UnknownShape)
    else if !LinkedAt(cues, i) then Some(NotContiguous)
    else FaultFrom(cues, i + 1)
  }

  function Fault(cues: seq<Cue>): Option<CueError> {
    if cues == [] then Some(NoCues) else FaultFrom(cues, 0)
  }

  lemma {:induction false} FaultFromExact(cues: seq<Cue>, i: nat)
    requires i <= |cues|
    ensures FaultFrom(cues, i).None? <==>
            forall k :: i <= k < |cues| ==> KnownAt(cues, k) && LinkedAt(cues, k)
    decreases |cues| - i
  {
    if i < |cues| {
      FaultFromExact(cues, i + 1);
    }
  }

  /** The validator passes exactly the contiguous timelines. */
  lemma FaultExact(cues: seq<Cue>)
    ensures Fault(cues).None? <==> Contiguous(cues)
  {
    FaultFromExact(cues, 0);
  }

  /** Everything before cue `i` is in order: known shapes, no empty cue, each starting where the last ended. */
  ghost predicate FineBefore(cues: seq<Cue>, i: nat)
    requires i <= |cues|
  {
    forall k :: 0 <= k < i ==> KnownAt(cues, k) && LinkedAt(cues, k)
  }

  /** Cue `i` is the first with a fault, and has an unknown shape. */
  ghost predicate UnknownFirst(cues: seq<Cue>, i: nat) {
    i < |cues| && FineBefore(cues, i) && cues[i].shape !in RHUBARB_SHAPES
  }

  /** Cue `i` is the first with a fault: a known shape, but empty or not where the last one ended. */
  ghost predicate UnlinkedFirst(cues: seq<Cue>, i: nat) {
    && i < |cues| && FineBefore(cues, i) && cues[i].shape in RHUBARB_SHAPES
    && (cues[i].end <= cues[i].start || (i > 0 && cues[i].start != cues[i - 1].end))
  }

  lemma {:induction false} FirstFaultFrom(cues: seq<Cue>, i: nat) returns (at: nat)
    requires i <= |cues| && FineBefore(cues, i)
    ensures FaultFrom(cues, i) == Some(UnknownShape) ==> UnknownFirst(cues, at)
    ensures FaultFrom(cues, i) == Some(NotContiguous) ==> UnlinkedFirst(cues, at)
    ensures FaultFrom(cues, i).None? || FaultFrom(cues, i).value in {UnknownShape, NotContiguous}
    decreases |cues| - i
  {
    at := i;
    if i < |cues| && KnownAt(cues, i) && LinkedAt(cues, i) {
      at := FirstFaultFrom(cues, i + 1);
    }
  }

  lemma OneFirstFault(cues: seq<Cue>, i: nat, j: nat)
    requires UnknownFirst(cues, i)
    ensures !UnlinkedFirst(cues, j)
  {
    assert !KnownAt(cues, i);
    if j < i {
      assert LinkedAt(cues, j);
    }
  }

  /** Which fault is reported: the first in the list, an unknown shape before a bad position. */
  lemma FaultIsTheFirst(cues: seq<Cue>)
    ensures Fault(cues) == Some(NoCues) <==> cues == []
    ensures Fault(cues) == Some(UnknownShape) <==> exists i: nat :: UnknownFirst(cues, i)
    ensures Fault(cues) == Some(NotContiguous) <==> exists i: nat :: UnlinkedFirst(cues, i)
    ensures Fault(cues).None? || Fault(cues).value in {NoCues, UnknownShape, NotContiguous}
  {
    var at := FirstFaultFrom(cues, 0);
    FaultExact(cues);
    forall i: nat, j: nat | UnknownFirst(cues, i) ensures !UnlinkedFirst(cues, j) {
      OneFirstFault(cues, i, j);
    }
    forall i: nat | UnknownFirst(cues, i) || UnlinkedFirst(cues, i) ensures !Contiguous(cues) {
      assert !(KnownAt(cues, i) && LinkedAt(cues, i));
    }
  }

  method ValidateContiguous(cues: seq<Cue>) returns (fault: Option<CueError>)
    ensures fault == Fault(cues)
    ensures fault.None? <==> Contiguous(cues)
  {
    FaultExact(cues);
    if cues == [] {
      return Some(NoCues);
    }
    var cursor := cues[0].start;
    for i := 0 to |cues|
      invariant cursor == if i == 0 then cues[0].start else cues[i - 1].end
      invariant Fault(cues) == FaultFrom(cues, i)
    {
      if cues[i].shape !in RHUBARB_SHAPES {
        return Some(UnknownShape);
      }
      if cues[i].start != cursor || cues[i].end <= cues[i].start {
        return Some(NotContiguous);
      }
      cursor := cues[i].end;
    }
    return None;
  }

  // -------------------------------------------------------------------- frames

  /** `n` frames that all show one shape. */
  function Hold(shape: Shape, n: int): seq<Shape> {
    seq(Max(0, n), _ => shape)
  }

  /** The shape of every sample frame of a timeline, in order. */
  function Frames(cues: seq<Cue>): seq<Shape> {
    if cues == [] then [] else
      var last := cues[|cues| - 1];
      Frames(cues[..|cues| - 1]) + Hold(last.shape, last.end - last.start)
  }

  lemma LinkedPrefix(cues: seq<Cue>, n: nat)
    requires Linked(cues) && n <= |cues|
    ensures Linked(cues[..n])
  {
    forall i | 0 <= i < n ensures LinkedAt(cues[..n], i) {
      assert LinkedAt(cues, i);
    }
  }

  lemma KnownPrefix(cues: seq<Cue>, n: nat)
    requires Known(cues) && n <= |cues|
    ensures Known(cues[..n])
  {
    forall i | 0 <= i < n ensures KnownAt(cues[..n], i) {
      assert KnownAt(cues, i);
    }
  }

  lemma {:induction false} FramesLength(cues: seq<Cue>)
    requires Linked(cues)
    ensures |Frames(cues)| == if cues == [] then 0 else End(cues) - First(cues)
  {
    if cues != [] {
      var n := |cues| - 1;
      LinkedPrefix(cues, n);
      FramesLength(cues[..n]);
      assert LinkedAt(cues, n);
    }
  }

  lemma {:induction false} FramesAppend(cues: seq<Cue>, cue: Cue)
    ensures Frames(cues + [cue]) == Frames(cues) + Hold(cue.shape, cue.end - cue.start)
  {
    var all := cues + [cue];
    assert all[..|all| - 1] == cues;
  }

  /** A stretch of frames inside one cue all show that cue's shape. */
  lemma {:induction false} FramesInCue(cues: seq<Cue>, i: nat, a: int, b: int)
    requires Linked(cues) && i < |cues|
    requires cues[i].start <= a <= b <= cues[i].end
    ensures 0 <= a - First(cues) <= b - First(cues) <= |Frames(cues)|
    ensures Frames(cues)[a - First(cues)..b - First(cues)] == Hold(cues[i].shape, b - a)
  {
    var n := |cues| - 1;
    LinkedPrefix(cues, n);
    FramesLength(cues);
    FramesLength(cues[..n]);
    assert LinkedAt(cues, n);
    if i < n {
      FramesInCue(cues[..n], i, a, b);
    }
  }

  lemma {:induction false} StartsOrdered(cues: seq<Cue>, i: nat, j: nat)
    requires Linked(cues) && i <= j < |cues|
    ensures cues[i].start <= cues[j].start && cues[i].end <= cues[j].end
    decreases j - i
  {
    assert LinkedAt(cues, j);
    if i < j {
      assert LinkedAt(cues, j - 1);
      StartsOrdered(cues, i, j - 1);
    }
  }

  // ------------------------------------------------------------ run-length form

  /** Contiguous from frame 0 to frame `n` with no two neighbours of one shape. */
  predicate RunLength(cues: seq<Cue>, n: int) {
    && Linked(cues)
    && (cues == [] <==> n == 0)
    && (cues != [] ==> First(cues) == 0 && End(cues) == n)
    && forall i :: 0 < i < |cues| ==> ChangesAt(cues, i)
  }

  /** Cue `i` shows another shape than its predecessor. */
  predicate ChangesAt(cues: seq<Cue>, i: nat)
    requires 0 < i < |cues|
  {
    cues[i - 1].shape != cues[i].shape
  }

  /** Add one cue at the end, extending the last cue when the shape repeats. */
  function Merge(cues: seq<Cue>, cue: Cue): seq<Cue> {
    if cues != [] && cues[|cues| - 1].shape == cue.shape
    then cues[|cues| - 1 := Cue(cues[|cues| - 1].start, cue.end, cue.shape)]
    else cues + [cue]
  }

  lemma {:induction false} MergeKeepsRunLength(cues: seq<Cue>, cue: Cue, n: int)
    requires RunLength(cues, n) && cue.start == n < cue.end && 0 <= n
    ensures RunLength(Merge(cues, cue), cue.end)
    ensures Frames(Merge(cues, cue)) == Frames(cues) + Hold(cue.shape, cue.end - cue.start)
  {
    if cues != [] && cues[|cues| - 1].shape == cue.shape {
      LastCueApart(cues, n);
      ExtendKeepsRunLength(cues, cue, n);
      ExtendFrames(cues, cue);
    } else {
      AppendKeepsRunLength(cues, cue, n);
    }
  }

  lemma ExtendKeepsRunLength(cues: seq<Cue>, cue: Cue, n: int)
    requires RunLength(cues, n) && cue.start == n < cue.end && cues != [] && cues[|cues| - 1].shape == cue.shape
    ensures RunLength(Merge(cues, cue), cue.end)
  {
    var front, last := cues[..|cues| - 1], cues[|cues| - 1];
    LastCueApart(cues, n);
    var longer := Cue(last.start, cue.end, last.shape);
    AppendKeepsRunLength(front, longer, last.start);
    assert Merge(cues, cue) == front + [longer];
  }

  lemma {:induction false} ExtendFrames(cues: seq<Cue>, cue: Cue)
    requires cues != [] && cues[|cues| - 1].shape == cue.shape
    requires cues[|cues| - 1].start < cues[|cues| - 1].end == cue.start < cue.end
    ensures Frames(Merge(cues, cue)) == Frames(cues) + Hold(cue.shape, cue.end - cue.start)
  {
    var front, last := cues[..|cues| - 1], cues[|cues| - 1];
    assert cues == front + [last] && Merge(cues, cue) == front + [Cue(last.start, cue.end, cue.shape)];
    LongerLastCue(front, last, cue);
  }

  lemma {:induction false} LongerLastCue(front: seq<Cue>, last: Cue, cue: Cue)
    requires last.shape == cue.shape && last.start < last.end == cue.start < cue.end
    ensures Frames(front + [Cue(last.start, cue.end, cue.shape)])
         == Frames(front + [last]) + Hold(cue.shape, cue.end - cue.start)
  {
    var longer := Cue(last.start, cue.end, cue.shape);
    FramesAppend(front, last);
    FramesAppend(front, longer);
    ExtendHold(Frames(front), Frames(front + [last]), Frames(front + [longer]), cue.shape,
               last.end - last.start, cue.end - cue.start);
  }

  lemma ExtendHold(front: seq<Shape>, before: seq<Shape>, after: seq<Shape>, shape: Shape, a: nat, b: nat)
    requires before == front + Hold(shape, a) && after == front + Hold(shape, a + b)
    ensures after == before + Hold(shape, b)
  {
  }

  /** A run-length timeline without its last cue, and how that cue joins on. */
  lemma LastCueApart(cues: seq<Cue>, n: int)
    requires RunLength(cues, n) && cues != []
    ensures var front, last := cues[..|cues| - 1], cues[|cues| - 1];
      && RunLength(front, last.start) && 0 <= last.start < last.end == n
      && (front != [] ==> front[|front| - 1].shape != last.shape)
  {
    var m := |cues| - 1;
    assert LinkedAt(cues, m);
    RunLengthPrefix(cues, n);
    StartsOrdered(cues, 0, m);
    if m > 0 { assert ChangesAt(cues, m); }
  }

  lemma {:induction false} AppendKeepsRunLength(cues: seq<Cue>, cue: Cue, n: int)
    requires RunLength(cues, n) && cue.start == n < cue.end && 0 <= n
    requires cues != [] ==> cues[|cues| - 1].shape != cue.shape
    ensures RunLength(cues + [cue], cue.end)
    ensures Frames(cues + [cue]) == Frames(cues) + Hold(cue.shape, cue.end - cue.start)
  {
    var longer := cues + [cue];
    forall i | 0 <= i < |longer| ensures LinkedAt(longer, i) && (0 < i ==> ChangesAt(longer, i)) {
      if i < |cues| { assert LinkedAt(cues, i) && (0 < i ==> ChangesAt(cues, i)); }
    }
    FramesAppend(cues, cue);
  }

  lemma MergeKeepsKnown(cues: seq<Cue>, cue: Cue)
    requires Known(cues) && cue.shape in RHUBARB_SHAPES
    ensures Known(Merge(cues, cue))
  {
    var merged := Merge(cues, cue);
    forall i | 0 <= i < |merged| ensures KnownAt(merged, i) {
      if i < |cues| { assert KnownAt(cues, i); }
    }
  }

  function MergeAll(cues: seq<Cue>, more: seq<Cue>): seq<Cue> {
    if more == [] then cues else Merge(MergeAll(cues, more[..|more| - 1]), more[|more| - 1])
  }

  lemma {:induction false} MergeAllStep(cues: seq<Cue>, more: seq<Cue>, i: nat)
    requires i < |more|
    ensures MergeAll(cues, more[..i + 1]) == Merge(MergeAll(cues, more[..i]), more[i])
  {
    assert more[..i + 1][..i] == more[..i];
  }

  lemma {:induction false} MergeAllKeepsRunLength(cues: seq<Cue>, more: seq<Cue>, n: int)
    requires RunLength(cues, n) && 0 <= n && Linked(more) && (more != [] ==> First(more) == n)
    requires Known(cues) && Known(more)
    ensures var merged := MergeAll(cues, more);
      && RunLength(merged, if more == [] then n else End(more)) && Known(merged)
      && Frames(merged) == Frames(cues) + Frames(more)
  {
    if more != [] {
      var m := |more| - 1;
      DropLast(more);
      MergeAllKeepsRunLength(cues, more[..m], n);
      MergeOneMore(MergeAll(cues, more[..m]), cues, more);
    }
  }

  lemma DropLast(more: seq<Cue>)
    requires Linked(more) && Known(more) && more != []
    ensures var m := |more| - 1; var front := more[..m];
      && Linked(front) && Known(front) && First(more) <= more[m].start < more[m].end
      && more[m].start == (if front == [] then First(more) else End(front))
      && (front != [] ==> First(front) == First(more))
  {
    var m := |more| - 1;
    LinkedPrefix(more, m);
    KnownPrefix(more, m);
    assert LinkedAt(more, m);
    StartsOrdered(more, 0, m);
  }

  lemma MergeOneMore(merged: seq<Cue>, cues: seq<Cue>, more: seq<Cue>)
    requires more != [] && Known(merged) && Known(more)
    requires var last := more[|more| - 1]; RunLength(merged, last.start) && 0 <= last.start < last.end
    requires Frames(merged) == Frames(cues) + Frames(more[..|more| - 1])
    ensures var all := Merge(merged, more[|more| - 1]);
      RunLength(all, End(more)) && Known(all) && Frames(all) == Frames(cues) + Frames(more)
  {
    var last := more[|more| - 1];
    MergeKeepsRunLength(merged, last, last.start);
    assert KnownAt(more, |more| - 1);
    MergeKeepsKnown(merged, last);
    var hold := Hold(last.shape, last.end - last.start);
    assert Frames(cues) + Frames(more[..|more| - 1]) + hold == Frames(cues) + (Frames(more[..|more| - 1]) + hold);
  }

  /** A frame sequence determines its run-length form. */
  lemma {:induction false} RunLengthUnique(a: seq<Cue>, b: seq<Cue>, n: int)
    requires RunLength(a, n) && RunLength(b, n)
    requires Frames(a) == Frames(b)
    ensures a == b
    decreases |a|
  {
    if a != [] {
      SameLastCue(a, b, n);
      var p, q := |a| - 1, |b| - 1;
      RunLengthPrefix(a, n);
      RunLengthPrefix(b, n);
      assert Frames(a[..p]) == Frames(a)[..a[p].start] by { FramesLength(a[..p]); }
      assert Frames(b[..q]) == Frames(b)[..b[q].start] by { FramesLength(b[..q]); }
      RunLengthUnique(a[..p], b[..q], a[p].start);
      assert a == a[..p] + [a[p]];
      assert b == b[..q] + [b[q]];
    }
  }

  lemma RunLengthPrefix(a: seq<Cue>, n: int)
    requires RunLength(a, n) && a != []
    ensures RunLength(a[..|a| - 1], a[|a| - 1].start)
  {
    var p := |a| - 1;
    LinkedPrefix(a, p);
    assert LinkedAt(a, p);
    StartsOrdered(a, 0, p);
    if p > 0 { assert LinkedAt(a, p - 1); StartsOrdered(a, 0, p - 1); }
    forall i | 0 < i < p ensures ChangesAt(a[..p], i) {
      assert ChangesAt(a, i);
    }
  }

  lemma {:induction false} FrameAt(cues: seq<Cue>, i: nat, f: int)
    requires Linked(cues) && i < |cues| && cues[i].start <= f < cues[i].end
    ensures 0 <= f - First(cues) < |Frames(cues)| && Frames(cues)[f - First(cues)] == cues[i].shape
  {
    FramesInCue(cues, i, f, f + 1);
    var a := f - First(cues);
    assert Frames(cues)[a..a + 1][0] == Hold(cues[i].shape, 1)[0];
  }

  lemma {:induction false} SameLastCue(a: seq<Cue>, b: seq<Cue>, n: int)
    requires RunLength(a, n) && RunLength(b, n) && a != [] && b != []
    requires Frames(a) == Frames(b)
    ensures a[|a| - 1] == b[|b| - 1]
  {
    var p, q := |a| - 1, |b| - 1;
    assert LinkedAt(a, p) && LinkedAt(b, q);
    FrameAt(a, p, n - 1);
    FrameAt(b, q, n - 1);
    NoEarlierStart(a, b, n);
    NoEarlierStart(b, a, n);
  }

  lemma {:induction false} NoEarlierStart(a: seq<Cue>, b: seq<Cue>, n: int)
    requires RunLength(a, n) && RunLength(b, n) && a != [] && b != []
    requires Frames(a) == Frames(b) && a[|a| - 1].shape == b[|b| - 1].shape
    ensures a[|a| - 1].start >= b[|b| - 1].start
  {
    var p, q := |a| - 1, |b| - 1;
    assert LinkedAt(a, p) && LinkedAt(b, q);
    StartsOrdered(a, 0, p);
    if q > 0 && a[p].start < b[q].start {
      assert LinkedAt(b, q - 1) && ChangesAt(b, q);
      var f := b[q].start - 1;
      FrameAt(a, p, f);
      FrameAt(b, q - 1, f);
    }
  }

  /** Run-length encode a frame sequence on the clock that starts at 0. */
  function Encode(frames: seq<Shape>): seq<Cue> {
    if frames == [] then [] else
      var n := |frames| - 1;
      Merge(Encode(frames[..n]), Cue(n, n + 1, frames[n]))
  }

  /** Encoding is in run-length form and decodes to the frames it came from. */
  lemma {:induction false} EncodeRoundTrip(frames: seq<Shape>)
    ensures RunLength(Encode(frames), |frames|)
    ensures Frames(Encode(frames)) == frames
  {
    if frames != [] {
      var n := |frames| - 1;
      EncodeRoundTrip(frames[..n]);
      EncodeOneMore(frames[..n], frames[n]);
      assert frames == frames[..n] + [frames[n]];
    }
  }

  lemma {:induction false} EncodeOneMore(frames: seq<Shape>, shape: Shape)
    requires RunLength(Encode(frames), |frames|) && Frames(Encode(frames)) == frames
    ensures RunLength(Encode(frames + [shape]), |frames| + 1)
    ensures Frames(Encode(frames + [shape])) == frames + [shape]
  {
    var n := |frames|;
    EncodeAppend(frames, shape);
    MergeKeepsRunLength(Encode(frames), Cue(n, n + 1, shape), n);
    assert Hold(shape, 1) == [shape];
  }

  /** Every run-length timeline is the encoding of its own frames. */
  lemma {:induction false} EncodeCanonical(cues: seq<Cue>, n: int)
    requires RunLength(cues, n)
    ensures Encode(Frames(cues)) == cues
  {
    FramesLength(cues);
    EncodeRoundTrip(Frames(cues));
    RunLengthUnique(Encode(Frames(cues)), cues, n);
  }

  /** Every cue of `before` but the last stands in `after` unchanged, and the last
      keeps its start and shape while its end never moves back. */
  ghost predicate CuesKept(before: seq<Cue>, after: seq<Cue>) {
    before != [] ==>
      var m := |before| - 1;
      && m < |after| && after[..m] == before[..m]
      && after[m].start == before[m].start && after[m].shape == before[m].shape && before[m].end <= after[m].end
  }

  lemma {:induction false} EncodeAppend(frames: seq<Shape>, shape: Shape)
    ensures Encode(frames + [shape]) == Merge(Encode(frames), Cue(|frames|, |frames| + 1, shape))
  {
    assert (frames + [shape])[..|frames|] == frames;
  }

  lemma {:induction false} LastShape(frames: seq<Shape>)
    requires frames != []
    ensures Encode(frames) != []
    ensures Encode(frames)[|Encode(frames)| - 1].shape == frames[|frames| - 1]
    ensures Encode(frames)[|Encode(frames)| - 1].end == |frames|
  {
    EncodeRoundTrip(frames);
  }

  /** One more frame, when `grown` has grown from `frames`. */
  lemma {:induction false} OneMoreFrame(frames: seq<Shape>, grown: seq<Shape>, shape: Shape)
    requires frames != [] && CuesKept(Encode(frames), Encode(grown)) && |frames| <= |grown|
    ensures CuesKept(Encode(frames), Encode(grown + [shape]))
    ensures grown == frames ==> (Encode(frames) <= Encode(grown + [shape]) <==> shape != frames[|frames| - 1])
    ensures |frames| < |grown| ==> (Encode(frames) <= Encode(grown + [shape]) <==> Encode(frames) <= Encode(grown))
  {
    LastShape(frames);
    LastShape(grown);
    EncodeAppend(grown, shape);
    GrowByOne(Encode(frames), Encode(grown), Cue(|grown|, |grown| + 1, shape));
  }

  /** Adding frames keeps every cue but the last, and keeps the last one exactly
      when the first added frame shows another shape. */
  lemma {:induction false} EncodeGrows(frames: seq<Shape>, more: seq<Shape>)
    requires frames != []
    ensures CuesKept(Encode(frames), Encode(frames + more))
    ensures Encode(frames) <= Encode(frames + more) <==> (more == [] || more[0] != frames[|frames| - 1])
    decreases |more|
  {
    if more == [] {
      LastShape(frames);
      assert frames + more == frames;
    } else {
      var n := |more| - 1;
      var grown := frames + more[..n];
      assert frames + more == grown + [more[n]];
      EncodeGrows(frames, more[..n]);
      OneMoreFrame(frames, grown, more[n]);
      if n == 0 {
        assert grown == frames;
      } else {
        assert more[..n][0] == more[0] && |frames| < |grown|;
      }
    }
  }

  /** A run-length timeline whose frames go on from those of another. */
  lemma {:induction false} GrownTimeline(before: seq<Cue>, n: int, after: seq<Cue>, m: int)
    requires RunLength(before, n) && RunLength(after, m) && before != [] && Frames(before) <= Frames(after)
    ensures 0 < n == |Frames(before)| <= |Frames(after)| == m && CuesKept(before, after)
    ensures before <= after <==> n == m || Frames(after)[n] != before[|before| - 1].shape
  {
    var first, later := Frames(before), Frames(after);
    FramesLength(before);
    FramesLength(after);
    assert 0 < n && before[|before| - 1].shape == first[n - 1] by {
      LastCueApart(before, n);
      EncodeCanonical(before, n);
      LastShape(first);
    }
    EncodeCanonical(before, n);
    EncodeCanonical(after, m);
    EncodedPrefix(first, later);
  }

  lemma {:induction false} EncodedPrefix(first: seq<Shape>, later: seq<Shape>)
    requires first != [] && first <= later
    ensures CuesKept(Encode(first), Encode(later))
    ensures Encode(first) <= Encode(later) <==> |first| == |later| || later[|first|] != first[|first| - 1]
  {
    var more := later[|first|..];
    assert later == first + more;
    EncodeGrows(first, more);
  }

  /** One merge after `before` has grown to `now`. */
  lemma GrowByOne(before: seq<Cue>, now: seq<Cue>, cue: Cue)
    requires before != [] && CuesKept(before, now) && now[|now| - 1].end == cue.start < cue.end
    ensures CuesKept(before, Merge(now, cue))
    ensures now == before ==>
      (before <= Merge(now, cue) <==> before[|before| - 1].shape != cue.shape)
    ensures before[|before| - 1].end < cue.start ==> (before <= Merge(now, cue) <==> before <= now)
  {
    var m, merged := |before| - 1, Merge(now, cue);
    assert merged[..|now| - 1] == now[..|now| - 1];
    assert merged[..m] == now[..m];
    assert before == before[..m] + [before[m]];
    assert before <= merged <==> merged[m] == before[m] by {
      assert merged[..m + 1] == merged[..m] + [merged[m]];
    }
    assert before <= now <==> now[m] == before[m] by {
      assert now[..m + 1] == now[..m] + [now[m]];
    }
  }

  lemma {:induction false} KnownFrames(cues: seq<Cue>)
    requires Known(cues)
    ensures forall f :: 0 <= f < |Frames(cues)| ==> Frames(cues)[f] in RHUBARB_SHAPES
  {
    if cues != [] {
      assert KnownAt(cues, |cues| - 1);
      KnownPrefix(cues, |cues| - 1);
      KnownFrames(cues[..|cues| - 1]);
    }
  }
}
