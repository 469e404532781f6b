/** Import of recognizer output: centisecond decimals become sample frames, and
    the tail cut off by centisecond rounding is given back to the last cue. */
module RhubarbImport {
  import opened Numeric
  import opened CueTimeline

  datatype RawCue = RawCue(start: real, end: real, value: Shape)

  /** `decimal_seconds_to_frames`. */
  function ToFrames(seconds: real, rate: int): int {
    RoundHalfUp(seconds * rate as real)
  }

  /** `tail` frames are less than a hundredth of a second. */
  predicate TailFits(tail: int, rate: int) {
    0 <= tail && tail * 100 < rate
  }

  function Imported(raw: seq<RawCue>, rate: int, offset: int): seq<Cue> {
    seq(|raw|, i requires 0 <= i < |raw| =>
      Cue(offset + ToFrames(raw[i].start, rate), offset + ToFrames(raw[i].end, rate), raw[i].value))
  }

  function WithEnd(cues: seq<Cue>, end: int): seq<Cue>
    requires cues != []
  {
    cues[|cues| - 1 := Cue(cues[|cues| - 1].start, end, cues[|cues| - 1].shape)]
  }

  /** The recognizer output that `parse_rhubarb_json` lets through. */
  predicate Importable(sameAudio: bool, duration: real, raw: seq<RawCue>, rate: int, window: int, offset: int) {
    var cues := Imported(raw, rate, offset);
    && sameAudio
    && TailFits(window - ToFrames(duration, rate), rate)
    && Contiguous(cues) && First(cues) == offset
    && TailFits(offset + window - End(cues), rate)
  }

  /** The tail in seconds: not negative and less than a hundredth. */
  lemma TailFitsIs(tail: int, rate: int)
    requires 0 < rate
    ensures TailFits(tail, rate) <==> 0.0 <= tail as real / rate as real < 0.01
  {
    QuotientOrder(tail as real, rate as real, 0.0);
    QuotientOrder(tail as real, rate as real, 0.01);
  }

  lemma QuotientOrder(t: real, q: real, bound: real)
    requires 0.0 < q
    ensures t / q < bound <==> t < bound * q
  {
    var x := t / q;
    assert x * q == t;
    if x < bound {
      MulStrict(x, bound, q);
    } else {
      MulWeak(bound, x, q);
    }
  }

  /** What is let through, in seconds: the same audio, a duration at most a hundredth of a second short of
      the window, and contiguous cues that start with it and end at most a hundredth of a second early. */
  lemma ImportableIs(sameAudio: bool, duration: real, raw: seq<RawCue>, rate: int, window: int, offset: int)
    requires 0 < rate
    ensures Importable(sameAudio, duration, raw, rate, window, offset) <==>
      && sameAudio
      && 0.0 <= (window - ToFrames(duration, rate)) as real / rate as real < 0.01
      && Contiguous(Imported(raw, rate, offset)) && ToFrames(raw[0].start, rate) == 0
      && 0.0 <= (window - ToFrames(raw[|raw| - 1].end, rate)) as real / rate as real < 0.01
  {
    TailFitsIs(window - ToFrames(duration, rate), rate);
    if raw != [] {
      TailFitsIs(window - ToFrames(raw[|raw| - 1].end, rate), rate);
    }
  }

  /** All cues keep their start and shape, and all but the last their end. */
  predicate KeepsCues(raw: seq<RawCue>, rate: int, offset: int, cues: seq<Cue>) {
    && |cues| == |raw|
    && forall i :: 0 <= i < |raw| ==>
         && cues[i].shape == raw[i].value && cues[i].start == offset + ToFrames(raw[i].start, rate)
         && (i < |raw| - 1 ==> cues[i].end == offset + ToFrames(raw[i].end, rate))
  }

  lemma WithEndKeeps(raw: seq<RawCue>, rate: int, offset: int, end: int)
    requires raw != []
    ensures KeepsCues(raw, rate, offset, WithEnd(Imported(raw, rate, offset), end))
  {
  }

  lemma WithEndContiguous(cues: seq<Cue>, end: int)
    requires Contiguous(cues) && End(cues) <= end
    ensures Contiguous(WithEnd(cues, end)) && First(WithEnd(cues, end)) == First(cues) && End(WithEnd(cues, end)) == end
  {
    var longer := WithEnd(cues, end);
    forall i | 0 <= i < |longer| ensures LinkedAt(longer, i) && KnownAt(longer, i) {
      assert LinkedAt(cues, i) && KnownAt(cues, i);
    }
  }

  /** No output is let through for an empty window. */
  lemma EmptyWindowFails(sameAudio: bool, duration: real, raw: seq<RawCue>, rate: int, offset: int)
    requires 0 < rate
    ensures !Importable(sameAudio, duration, raw, rate, 0, offset)
  {
    var cues := Imported(raw, rate, offset);
    if Contiguous(cues) {
      StartsOrdered(cues, 0, |cues| - 1);
      assert LinkedAt(cues, 0) && LinkedAt(cues, |cues| - 1);
    }
  }

  method ParseRhubarb(sameAudio: bool, duration: real, raw: seq<RawCue>, rate: int, window: int, offset: int)
    returns (r: Result<seq<Cue>, CueError>)
    ensures r.Success? <==> Importable(sameAudio, duration, raw, rate, window, offset)
    ensures r.Success? ==> r.value == WithEnd(Imported(raw, rate, offset), offset + window)
    ensures r.Success? ==> Contiguous(r.value) && First(r.value) == offset && End(r.value) == offset + window
    ensures r.Success? ==> KeepsCues(raw, rate, offset, r.value)
    ensures r == Failure(DifferentAudio) <==> !sameAudio
    ensures r == Failure(DurationMismatch) <==> sameAudio && !TailFits(window - ToFrames(duration, rate), rate)
    ensures r == Failure(UnknownShape) <==>
      && sameAudio && TailFits(window - ToFrames(duration, rate), rate)
      && exists i :: 0 <= i < |raw| && raw[i].value !in RHUBARB_SHAPES
    ensures r == Failure(StartOmitted) <==>
      && sameAudio && TailFits(window - ToFrames(duration, rate), rate)
      && Contiguous(Imported(raw, rate, offset)) && ToFrames(raw[0].start, rate) != 0
    ensures r == Failure(TailOmitted) <==>
      && sameAudio && TailFits(window - ToFrames(duration, rate), rate)
      && Contiguous(Imported(raw, rate, offset)) && ToFrames(raw[0].start, rate) == 0
      && !TailFits(window - ToFrames(raw[|raw| - 1].end, rate), rate)
  {
    if !sameAudio {
      return Failure(DifferentAudio);
    }
    var durationFrames := ToFrames(duration, rate);
    if !(0 <= window - durationFrames && (window - durationFrames) * 100 < rate) {
      return Failure(DurationMismatch);
    }
    var imported := ImportCues(raw, rate, offset);
    if imported.None? {
      return Failure(UnknownShape);
    }
    r := FitToWindow(imported.value, rate, window, offset);
    if r.Success? {
      WithEndKeeps(raw, rate, offset, offset + window);
    }
  }

  /** Everything after the loop: the timeline must fill the window but for a short tail. */
  method FitToWindow(cues: seq<Cue>, rate: int, window: int, offset: int) returns (r: Result<seq<Cue>, CueError>)
    ensures r.Success? <==> Contiguous(cues) && First(cues) == offset && TailFits(offset + window - End(cues), rate)
    ensures r.Success? ==> r.value == WithEnd(cues, offset + window)
    ensures r.Success? ==> Contiguous(r.value) && First(r.value) == offset && End(r.value) == offset + window
    ensures !Contiguous(cues) ==> Fault(cues).Some? && r == Failure(FaultOf(cues, Fault(cues)))
    ensures Contiguous(cues) && First(cues) != offset ==> r == Failure(StartOmitted)
    ensures Contiguous(cues) && First(cues) == offset && !TailFits(offset + window - End(cues), rate) ==>
      r == Failure(TailOmitted)
  {
    var result := cues;
    var fault := ValidateContiguous(result);
    if fault.Some? {
      return Failure(FaultOf(result, fault));
    }
    if result[0].start != offset {
      return Failure(StartOmitted);
    }
    var tail := offset + window - result[|result| - 1].end;
    if !(0 <= tail && tail * 100 < rate) {
      return Failure(TailOmitted);
    }
    var last := result[|result| - 1];
    WithEndContiguous(result, offset + window);
    result := result[|result| - 1 := Cue(last.start, offset + window, last.shape)];
    fault := ValidateContiguous(result);
    assert fault.None?;  // moving the end outward cannot break the timeline
    return Success(result);
  }

  /** The loop over the recognized cues. */
  method ImportCues(raw: seq<RawCue>, rate: int, offset: int) returns (r: Option<seq<Cue>>)
    ensures r.None? <==> exists i :: 0 <= i < |raw| && raw[i].value !in RHUBARB_SHAPES
    ensures r.None? ==> !Contiguous(Imported(raw, rate, offset))
    ensures r.Some? ==> r.value == Imported(raw, rate, offset)
  {
    ghost var cues := Imported(raw, rate, offset);
    var result: seq<Cue> := [];
    for i := 0 to |raw|
      invariant result == cues[..i]
      invariant forall k :: 0 <= k < i ==> raw[k].value in RHUBARB_SHAPES
    {
      if raw[i].value !in RHUBARB_SHAPES {
        assert !KnownAt(cues, i);
        return None;
      }
      var start, end := offset + ToFrames(raw[i].start, rate), offset + ToFrames(raw[i].end, rate);
      result := result + [Cue(start, end, raw[i].value)];
    }
    assert result == cues;
    return Some(result);
  }

  /** A validation fault is never one of the import's own errors. */
  function FaultOf(cues: seq<Cue>, fault: Option<CueError>): (e: CueError)
    requires fault == Fault(cues) && fault.Some?
    ensures e == fault.value && e in {NoCues, UnknownShape, NotContiguous}
    ensures e == UnknownShape ==> exists i :: 0 <= i < |cues| && cues[i].shape !in RHUBARB_SHAPES
  {
    FaultIsTheFirst(cues);
    fault.value
  }

  // ------------------------------------------------------- centisecond timelines

  /** The raw cues have boundaries `marks`, in hundredths of a second from 0 on. */
  ghost predicate Centiseconds(raw: seq<RawCue>, marks: seq<int>) {
    && raw != [] && |marks| == |raw| + 1 && marks[0] == 0
    && (forall i :: 0 <= i < |raw| ==> marks[i] < marks[i + 1])
    && (forall i :: 0 <= i < |raw| ==>
          && raw[i].value in RHUBARB_SHAPES
          && raw[i].start == marks[i] as real / 100.0 && raw[i].end == marks[i + 1] as real / 100.0)
  }

  /** Half-up rounding of `centis` hundredths of a second, in integers. */
  function CentiFrames(centis: int, rate: int): int {
    (centis * rate + 50) / 100
  }

  lemma CentisecondRounding(centis: int, rate: int)
    requires 0 <= centis && 0 < rate
    ensures ToFrames(centis as real / 100.0, rate) == CentiFrames(centis, rate)
  {
    var product := centis * rate;
    assert 0 <= product;
    assert centis as real / 100.0 * rate as real == product as real / 100.0;
    HalfUpOfHundredths(product);
  }

  lemma HalfUpOfHundredths(n: int)
    requires 0 <= n
    ensures RoundHalfUp(n as real / 100.0) == (n + 50) / 100
  {
    var q := (n + 50) / 100;
    assert 100 * q <= n + 50 < 100 * q + 100;
    assert q as real <= n as real / 100.0 + 0.5 < q as real + 1.0;
  }

  lemma {:induction false} MarksOrdered(raw: seq<RawCue>, marks: seq<int>, i: nat)
    requires Centiseconds(raw, marks) && i < |marks|
    ensures i <= marks[i]
  {
    if i > 0 {
      MarksOrdered(raw, marks, i - 1);
      assert marks[i - 1] < marks[(i - 1) + 1];
    }
  }

  /** One hundredth of a second on, at 100 samples a second or more, is a later frame. */
  lemma CentiFramesIncrease(a: int, b: int, rate: int)
    requires a < b && 100 <= rate
    ensures CentiFrames(a, rate) < CentiFrames(b, rate)
  {
    assert a * rate + rate == (a + 1) * rate;
    assert (a + 1) * rate <= b * rate;
  }

  /** At 100 samples a second or more every centisecond timeline keeps all its
      cues: the frames are contiguous and no cue is empty. */
  lemma CentisecondsImport(raw: seq<RawCue>, marks: seq<int>, rate: int, offset: int)
    requires Centiseconds(raw, marks) && 100 <= rate
    ensures var cues := Imported(raw, rate, offset);
      && Contiguous(cues) && First(cues) == offset
      && End(cues) == offset + CentiFrames(marks[|raw|], rate)
      && forall i :: 0 <= i < |raw| ==>
           cues[i] == Cue(offset + CentiFrames(marks[i], rate), offset + CentiFrames(marks[i + 1], rate), raw[i].value)
  {
    var cues := Imported(raw, rate, offset);
    forall i | 0 <= i < |raw|
      ensures cues[i] ==
        Cue(offset + CentiFrames(marks[i], rate), offset + CentiFrames(marks[i + 1], rate), raw[i].value)
      ensures cues[i].start < cues[i].end
    {
      MarksOrdered(raw, marks, i);
      CentisecondRounding(marks[i], rate);
      CentisecondRounding(marks[i + 1], rate);
      CentiFramesIncrease(marks[i], marks[i + 1], rate);
    }
    forall i | 0 <= i < |cues| ensures LinkedAt(cues, i) && KnownAt(cues, i) {
    }
  }

  /** Below 100 samples a second some pair of neighbouring centiseconds falls on
      one frame, so the bound of 100 is exact. */
  lemma SlowRatesCollapse(rate: int) returns (centis: int)
    requires 0 < rate < 100
    ensures 0 <= centis < 100 && CentiFrames(centis, rate) == CentiFrames(centis + 1, rate)
  {
    centis := FindCollapse(rate, 100);
  }

  lemma {:induction false} FindCollapse(rate: int, n: nat) returns (centis: int)
    requires 0 < rate < 100 && CentiFrames(n, rate) < n
    ensures 0 <= centis < n && CentiFrames(centis, rate) == CentiFrames(centis + 1, rate)
  {
    assert n * rate == (n - 1) * rate + rate;
    if CentiFrames(n - 1, rate) == CentiFrames(n, rate) {
      centis := n - 1;
    } else {
      centis := FindCollapse(rate, n - 1);
    }
  }

  // ---------------------------------------------------------------- the PCM tail

  /** The whole hundredths of a second in `window` frames. */
  function WholeCentis(window: int, rate: int): int
    requires 0 < rate
  {
    window * 100 / rate
  }

  /** The frames that truncating the duration to centiseconds leaves over. */
  function CutTail(window: int, rate: int): int
    requires 0 < rate
  {
    window - CentiFrames(WholeCentis(window, rate), rate)
  }

  /** A rate for which no truncated duration can round down far enough to leave
      a whole hundredth of a second over. */
  predicate TailSafe(rate: int) {
    forall k :: 0 <= k < 100 ==> !(100 - rate % 100 < PartCentis(k, rate) < 50)
  }

  /** The hundredths of a frame that `k` centiseconds end on. */
  function PartCentis(k: int, rate: int): int {
    k * rate % 100
  }

  /** Every rate at most 50 past a hundred is safe: 8000, 11025, 16000, 22050, 44100, 48000 are. */
  lemma UsualRatesAreSafe(rate: int)
    requires rate % 100 <= 50
    ensures TailSafe(rate)
  {
  }

  lemma PartCentisPeriodic(k: int, rate: int)
    requires 0 <= k
    ensures PartCentis(k, rate) == PartCentis(k % 100, rate)
  {
    var q := k / 100;
    assert k == 100 * q + k % 100;
    assert k * rate == 100 * (q * rate) + k % 100 * rate;
    ModShift(k % 100 * rate, q * rate);
  }

  lemma ModShift(a: int, q: int)
    ensures (100 * q + a) % 100 == a % 100
  {
  }

  /** For one window: the tail fits unless the truncated duration ends in the bad stretch
      and the window reaches just far enough past it. */
  lemma TailFitsUnless(window: int, rate: int)
    requires 0 <= window && 0 < rate
    ensures 0 <= CutTail(window, rate)
    ensures !TailFits(CutTail(window, rate), rate) ==>
            100 - rate % 100 < PartCentis(WholeCentis(window, rate), rate) < 50
  {
    var k := WholeCentis(window, rate);
    var m := k * rate;
    assert m <= window * 100 < m + rate;
    if rate % 100 == 0 {
      WholeRate(k, rate);
    }
    TailArithmetic(window, rate, m, m / 100, m % 100, rate / 100, rate % 100);
    assert CentiFrames(k, rate) == (m + 50) / 100;
  }

  lemma WholeRate(k: int, rate: int)
    requires rate % 100 == 0
    ensures k * rate % 100 == 0
  {
    assert k * rate == 100 * (k * (rate / 100));
    ModShift(0, k * (rate / 100));
  }

  lemma TailArithmetic(window: int, rate: int, m: int, whole: int, part: int, q: int, s: int)
    requires m <= window * 100 < m + rate && 0 < rate
    requires m == 100 * whole + part && 0 <= part < 100 && rate == 100 * q + s && 0 <= s < 100
    requires s == 0 ==> part == 0
    ensures var tail := window - (m + 50) / 100;
      0 <= tail && (rate <= tail * 100 ==> 100 - s < part < 50)
  {
    assert (m + 50) / 100 == if part < 50 then whole else whole + 1;
  }

  lemma SafeRateFits(window: int, rate: int)
    requires 0 <= window && 0 < rate && TailSafe(rate)
    ensures TailFits(CutTail(window, rate), rate)
  {
    TailFitsUnless(window, rate);
    WholeCentisNonNegative(window, rate);
    SafeAnywhere(WholeCentis(window, rate), rate);
  }

  lemma WholeCentisNonNegative(window: int, rate: int)
    requires 0 <= window && 0 < rate
    ensures 0 <= WholeCentis(window, rate)
  {
  }

  lemma SafeAnywhere(k: int, rate: int)
    requires 0 <= k && TailSafe(rate)
    ensures !(100 - rate % 100 < PartCentis(k, rate) < 50)
  {
    PartCentisPeriodic(k, rate);
    assert !(100 - rate % 100 < PartCentis(k % 100, rate) < 50);
  }

  ghost predicate EveryTailFits(rate: int)
    requires 0 < rate
  {
    forall window :: 0 <= window ==> TailFits(CutTail(window, rate), rate)
  }

  /** The tail check passes for every window exactly at the safe rates. */
  lemma TailFitsExactly(rate: int)
    requires 0 < rate
    ensures TailSafe(rate) <==> EveryTailFits(rate)
  {
    if TailSafe(rate) {
      forall window | 0 <= window ensures TailFits(CutTail(window, rate), rate) {
        SafeRateFits(window, rate);
      }
    } else {
      var k :| 0 <= k < 100 && 100 - rate % 100 < PartCentis(k, rate) < 50;
      var window := BadWindow(k, rate);
    }
  }

  lemma BadWindow(k: int, rate: int) returns (window: int)
    requires 0 < rate && 0 <= k && 100 - rate % 100 < PartCentis(k, rate) < 50
    ensures 0 <= window && WholeCentis(window, rate) == k && !TailFits(CutTail(window, rate), rate)
  {
    var m := k * rate;
    assert 0 <= m;
    window := m / 100 + rate / 100 + 1;
    JustPastCentis(m, rate, window);
    DivUnique(window * 100, rate, k);
    assert CutTail(window, rate) == window - (m + 50) / 100;
  }

  /** `window` ends less than a centisecond past `m` hundredths of a frame, and leaves more than one over. */
  lemma JustPastCentis(m: int, rate: int, window: int)
    requires 0 <= m && 0 < rate && 100 - rate % 100 < m % 100 < 50 && window == m / 100 + rate / 100 + 1
    ensures 0 <= window && m <= window * 100 < m + rate && rate <= (window - (m + 50) / 100) * 100
  {
    assert (m + 50) / 100 == m / 100;
  }

  lemma DivUnique(n: int, d: int, q: int)
    requires 0 < d && q * d <= n < q * d + d
    ensures n / d == q
  {
    var r := n - q * d;
    assert n == q * d + r && 0 <= r < d;
    var q', r' := n / d, n % d;
    assert n == q' * d + r' && 0 <= r' < d;
    assert (q - q') * d == r' - r;
    assert q - q' >= 1 ==> (q - q') * d >= d;
    assert q - q' <= -1 ==> (q - q') * d <= -d;
  }

  /** At 153 samples a second a window of 26 frames leaves two frames, more than a hundredth of a
      second: whatever was recognized in it, its truncated duration of 0.16 s is refused. */
  lemma UnsafeRateExample(raw: seq<RawCue>, offset: int)
    ensures !TailSafe(153) && WholeCentis(26, 153) == 16
    ensures !Importable(true, 0.16, raw, 153, 26, offset)
  {
    assert PartCentis(16, 153) == 48;
    CentisecondRounding(16, 153);
  }

  /** Import is exact: at a safe rate of at least 100, any timeline that ends at
      the truncated duration is accepted, covers the PCM window to the frame, and
      differs from plain rounding only in its last end. */
  lemma CentisecondImportIsExact(raw: seq<RawCue>, marks: seq<int>, rate: int, window: int, offset: int)
    requires Centiseconds(raw, marks) && 100 <= rate && TailSafe(rate) && 0 <= window
    requires marks[|raw|] == WholeCentis(window, rate)
    ensures Importable(true, marks[|raw|] as real / 100.0, raw, rate, window, offset)
  {
    CentisecondsImport(raw, marks, rate, offset);
    MarksOrdered(raw, marks, |raw|);
    CentisecondRounding(marks[|raw|], rate);
    SafeRateFits(window, rate);
  }

  // -------------------------------------------------- the rates that always import

  /** A centisecond timeline that ends where the duration of `window` frames is truncated to. */
  ghost predicate TruncatedTo(raw: seq<RawCue>, marks: seq<int>, rate: int, window: int)
    requires 0 < rate
  {
    Centiseconds(raw, marks) && 0 <= window && marks[|raw|] == WholeCentis(window, rate)
  }

  ghost predicate ImportsAt(raw: seq<RawCue>, marks: seq<int>, rate: int, window: int, offset: int)
    requires 0 < rate
  {
    TruncatedTo(raw, marks, rate, window) ==>
      Importable(true, marks[|raw|] as real / 100.0, raw, rate, window, offset)
  }

  ghost predicate EveryTimelineImports(rate: int)
    requires 0 < rate
  {
    forall raw, marks, window, offset :: ImportsAt(raw, marks, rate, window, offset)
  }

  /** Two neighbouring boundaries fall on one frame. */
  ghost predicate Collapses(marks: seq<int>, rate: int, i: nat) {
    i + 1 < |marks| && CentiFrames(marks[i], rate) == CentiFrames(marks[i + 1], rate)
  }

  /** One cue between any two neighbouring marks. */
  function CuesBetween(marks: seq<int>): (raw: seq<RawCue>)
    requires |marks| > 1
    ensures |raw| == |marks| - 1
  {
    seq(|marks| - 1, i requires 0 <= i < |marks| - 1 =>
      RawCue(marks[i] as real / 100.0, marks[i + 1] as real / 100.0, 'X'))
  }

  lemma CuesBetweenMarks(marks: seq<int>)
    requires |marks| > 1 && marks[0] == 0 && forall i :: 0 <= i < |marks| - 1 ==> marks[i] < marks[i + 1]
    ensures Centiseconds(CuesBetween(marks), marks)
  {
  }

  lemma CollapsedMarks(rate: int) returns (marks: seq<int>, i: nat)
    requires 0 < rate < 100
    ensures |marks| > 1 && marks[0] == 0 && marks[|marks| - 1] == 200 && Collapses(marks, rate, i)
    ensures Centiseconds(CuesBetween(marks), marks)
  {
    var centis := SlowRatesCollapse(rate);
    if centis == 0 {
      marks, i := [0, 1, 200], 0;
    } else {
      marks, i := [0, centis, centis + 1, 200], 1;
    }
    CuesBetweenMarks(marks);
  }

  /** At every other rate some timeline has an empty cue or leaves too long a tail. */
  lemma FlawedTimeline(rate: int) returns (raw: seq<RawCue>, marks: seq<int>, window: int, i: nat)
    requires 0 < rate && !(100 <= rate && TailSafe(rate))
    ensures TruncatedTo(raw, marks, rate, window)
    ensures Collapses(marks, rate, i) || !TailFits(CutTail(window, rate), rate)
  {
    if rate < 100 {
      marks, i := CollapsedMarks(rate);
      window := 2 * rate;
      DivUnique(window * 100, rate, 200);
    } else {
      var k :| 0 <= k < 100 && 100 - rate % 100 < PartCentis(k, rate) < 50;
      window := BadWindow(k, rate);
      marks, i := [0, k], 0;
      CuesBetweenMarks(marks);
    }
    raw := CuesBetween(marks);
  }

  lemma FlawedIsRefused(raw: seq<RawCue>, marks: seq<int>, rate: int, window: int, offset: int, i: nat)
    requires 0 < rate && TruncatedTo(raw, marks, rate, window)
    requires Collapses(marks, rate, i) || !TailFits(CutTail(window, rate), rate)
    ensures !Importable(true, marks[|raw|] as real / 100.0, raw, rate, window, offset)
  {
    MarksOrdered(raw, marks, |raw|);
    CentisecondRounding(marks[|raw|], rate);
    if Collapses(marks, rate, i) {
      MarksOrdered(raw, marks, i);
      CentisecondRounding(marks[i], rate);
      CentisecondRounding(marks[i + 1], rate);
      assert !LinkedAt(Imported(raw, rate, offset), i);
    }
  }

  /** Every centisecond timeline that ends at the truncated duration of its window is imported
      exactly at the safe rates from 100 samples a second on. */
  lemma ImportsExactly(rate: int)
    requires 0 < rate
    ensures 100 <= rate && TailSafe(rate) <==> EveryTimelineImports(rate)
  {
    if 100 <= rate && TailSafe(rate) {
      forall raw, marks, window, offset ensures ImportsAt(raw, marks, rate, window, offset) {
        if TruncatedTo(raw, marks, rate, window) {
          CentisecondImportIsExact(raw, marks, rate, window, offset);
        }
      }
    } else {
      var raw, marks, window, i := FlawedTimeline(rate);
      FlawedIsRefused(raw, marks, rate, window, 0, i);
      assert !ImportsAt(raw, marks, rate, window, 0);
    }
  }
}
