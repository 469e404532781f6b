/** The append-only cue ledger of one cancellation generation: its state
    machine, the class that implements it in place, and what every run keeps. */
module CueLedger {
  import opened Numeric
  import opened CueTimeline

  datatype LedgerState = LedgerState(generation: int, cancelled: bool, committed: int, cues: seq<Cue>)

  /** The ledger holds the run-length form of exactly `committed` frames. */
  predicate ValidState(s: LedgerState) {
    0 <= s.committed && RunLength(s.cues, s.committed) && Known(s.cues)
  }

  /** The recognized timeline reaches back to the commit cursor and on to the watermark. */
  predicate Covers(recognized: seq<Cue>, committed: int, watermark: int) {
    Contiguous(recognized) && First(recognized) <= committed && watermark <= End(recognized)
  }

  /** The recognized shapes of frames `from` up to `to`. */
  function Span(recognized: seq<Cue>, from: int, to: int): (span: seq<Shape>)
    requires Contiguous(recognized) && First(recognized) <= from <= to <= End(recognized)
    ensures |span| == to - from
  {
    FramesLength(recognized);
    Frames(recognized)[from - First(recognized)..to - First(recognized)]
  }

  /** What `accept` returns or raises. */
  function AcceptOutcome(s: LedgerState, generation: int, recognized: seq<Cue>, watermark: int)
    : Result<bool, CueError>
  {
    if generation != s.generation || s.cancelled then Success(false)
    else if watermark < s.committed then Failure(WatermarkMovedBackwards)
    else if watermark == s.committed then Success(true)
    else if Fault(recognized).Some? then Failure(Fault(recognized).value)
    else
      FaultExact(recognized);
      if Covers(recognized, s.committed, watermark) then Success(true)
      else if s.committed < First(recognized) < watermark then Failure(CursorNotCovered)
      else Failure(WatermarkNotCovered)
  }

  /** The ledger after `accept`, said through frames alone: the new ones are
      appended and the whole is run-length encoded afresh. */
  function AcceptState(s: LedgerState, generation: int, recognized: seq<Cue>, watermark: int): LedgerState {
    if && generation == s.generation && !s.cancelled
       && s.committed < watermark && Covers(recognized, s.committed, watermark)
    then s.(committed := watermark, cues := Encode(Frames(s.cues) + Span(recognized, s.committed, watermark)))
    else s
  }

  class ImmutableCueLedger {
    const generation: int
    var cancelled: bool
    var committed: int
    var cues: seq<Cue>

    ghost function State(): LedgerState
      reads this
    {
      LedgerState(generation, cancelled, committed, cues)
    }

    ghost predicate Valid()
      reads this
    {
      ValidState(State())
    }

    constructor (generation: int)
      requires generation >= 1
      ensures Valid() && State() == LedgerState(generation, false, 0, [])
    {
      this.generation := generation;
      cancelled, committed, cues := false, 0, [];
    }

    static method Open(generation: int) returns (r: Result<ImmutableCueLedger, CueError>)
      ensures generation < 1 ==> r == Failure(GenerationNotPositive)
      ensures generation >= 1 ==>
        r.Success? && fresh(r.value) && r.value.Valid() && r.value.State() == LedgerState(generation, false, 0, [])
    {
      if generation < 1 {
        return Failure(GenerationNotPositive);
      }
      var ledger := new ImmutableCueLedger(generation);
      return Success(ledger);
    }

    method Cancel(generation: int)
      modifies this
      ensures State() == Step(old(State()), Event.Cancel(generation))
      ensures cancelled == (old(cancelled) || generation == this.generation)
      ensures committed == old(committed) && cues == old(cues)
    {
      if generation == this.generation {
        cancelled := true;
      }
    }

    method Accept(generation: int, recognized: seq<Cue>, watermark: int) returns (r: Result<bool, CueError>)
      requires Valid()
      modifies this
      ensures Valid()
      ensures r == AcceptOutcome(old(State()), generation, recognized, watermark)
      ensures State() == Step(old(State()), Event.Accept(generation, recognized, watermark))
      ensures r == Success(false) <==> generation != this.generation || old(cancelled)
      ensures r == Success(true) <==>
        && generation == this.generation && !old(cancelled)
        && (watermark == old(committed)
            || (old(committed) < watermark && Contiguous(recognized)
                && First(recognized) <= old(committed) && watermark <= End(recognized)))
      ensures r == Success(true) ==> committed == watermark
      ensures r != Success(true) ==> State() == old(State())
    {
      AnswersExactly(State(), generation, recognized, watermark);
      if generation != this.generation || cancelled {
        return Success(false);
      }
      if watermark < committed {
        return Failure(WatermarkMovedBackwards);
      }
      if watermark == committed {
        return Success(true);
      }
      var fault := ValidateContiguous(recognized);
      if fault.Some? {
        return Failure(fault.value);
      }
      var projected :- Project(recognized, committed, watermark);
      CommitProjected(recognized, projected, watermark);
      return Success(true);
    }

    /** The second loop of `accept`: append the projected cues, merging repeats. */
    method CommitProjected(ghost recognized: seq<Cue>, projected: seq<Cue>, watermark: int)
      requires Valid() && committed < watermark && Covers(recognized, committed, watermark)
      requires IsProjection(recognized, projected, committed, watermark)
      modifies this
      ensures Valid() && cancelled == old(cancelled) && committed == watermark
      ensures cues == Encode(old(Frames(cues)) + Span(recognized, old(committed), watermark))
    {
      ghost var before := cues;
      for i := 0 to |projected|
        invariant cancelled == old(cancelled) && committed == old(committed)
        invariant cues == MergeAll(before, projected[..i])
      {
        var cue := projected[i];
        MergeAllStep(before, projected, i);
        if cues != [] && cues[|cues| - 1].shape == cue.shape {
          var previous := cues[|cues| - 1];
          cues := cues[|cues| - 1 := Cue(previous.start, cue.end, cue.shape)];
        } else {
          cues := cues + [cue];
        }
      }
      assert projected[..|projected|] == projected;
      MergedIsEncoded(before, recognized, projected, committed, watermark);
      committed := watermark;
    }
  }

  datatype Projection = Projected(cues: seq<Cue>) | Uncovered(error: CueError) {
    predicate IsFailure() { Uncovered? }
    function PropagateFailure(): Result<bool, CueError>
      requires Uncovered?
    {
      Failure(error)
    }
    function Extract(): seq<Cue>
      requires Projected?
    {
      cues
    }
  }

  /** `projected` tiles [from, watermark) and shows there what was recognized. */
  ghost predicate IsProjection(recognized: seq<Cue>, projected: seq<Cue>, from: int, watermark: int) {
    && from < watermark && Covers(recognized, from, watermark)
    && Contiguous(projected) && First(projected) == from && End(projected) == watermark
    && Frames(projected) == Span(recognized, from, watermark)
  }

  /** Merging in the projected cues gives the encoding of all frames. */
  lemma {:induction false} MergedIsEncoded(
    cues: seq<Cue>, recognized: seq<Cue>, projected: seq<Cue>, from: int, watermark: int)
    requires 0 <= from && RunLength(cues, from) && Known(cues) && IsProjection(recognized, projected, from, watermark)
    ensures var merged := MergeAll(cues, projected);
      && RunLength(merged, watermark) && Known(merged)
      && merged == Encode(Frames(cues) + Span(recognized, from, watermark))
  {
    MergeAllKeepsRunLength(cues, projected, from);
    EncodeCanonical(MergeAll(cues, projected), watermark);
  }

  /** The first loop of `accept`: clip the recognized cues to [from, watermark). */
  method Project(recognized: seq<Cue>, from: int, watermark: int) returns (r: Projection)
    requires Contiguous(recognized) && from < watermark
    ensures r.Projected? <==> Covers(recognized, from, watermark)
    ensures r.Projected? ==> IsProjection(recognized, r.cues, from, watermark)
    ensures !r.Projected? ==>
      r.error == if from < First(recognized) < watermark then CursorNotCovered else WatermarkNotCovered
  {
    var cursor, projected := from, [];
    var i := 0;
    while i < |recognized| && cursor != watermark
      invariant 0 <= i <= |recognized|
      invariant cursor == Reached(recognized, from, watermark, i)
      invariant from < First(recognized) && i > 0 ==> watermark <= First(recognized)
      invariant First(recognized) <= from ==> Clipped(recognized, projected, from, cursor)
    {
      var cue := recognized[i];
      ClipStep(recognized, from, watermark, i);
      var start, end := Max(cue.start, cursor), Min(cue.end, watermark);
      if end > start {
        if start != cursor {
          return Uncovered(CursorNotCovered);
        }
        ClipAppend(recognized, projected, from, i, cursor, end);
        projected := projected + [Cue(start, end, cue.shape)];
        cursor := end;
      }
      i := i + 1;
    }
    if i > 0 { StartsOrdered(recognized, i - 1, |recognized| - 1); }
    if cursor != watermark {
      return Uncovered(WatermarkNotCovered);
    }
    return Projected(projected);
  }

  /** The cursor once the first `i` recognized cues have been clipped. */
  ghost function Reached(recognized: seq<Cue>, from: int, watermark: int, i: nat): int
    requires recognized != [] && i <= |recognized|
  {
    if i == 0 || from < First(recognized) then from
    else Max(from, Min(recognized[i - 1].end, watermark))
  }

  /** `projected` tiles [from, cursor) and shows there what was recognized. */
  ghost predicate Clipped(recognized: seq<Cue>, projected: seq<Cue>, from: int, cursor: int)
    requires Contiguous(recognized)
  {
    && First(recognized) <= from <= cursor && (from < cursor ==> cursor <= End(recognized))
    && Linked(projected) && Known(projected)
    && (projected == [] <==> from == cursor)
    && (projected != [] ==> First(projected) == from && End(projected) == cursor
                            && Frames(projected) == Span(recognized, from, cursor))
  }

  lemma ClipStep(recognized: seq<Cue>, from: int, watermark: int, i: nat)
    requires Contiguous(recognized) && from < watermark && i < |recognized|
    ensures LinkedAt(recognized, i)
    ensures First(recognized) <= recognized[i].start < recognized[i].end <= End(recognized)
    ensures i > 0 ==> recognized[i].start == recognized[i - 1].end
  {
    assert LinkedAt(recognized, i);
    StartsOrdered(recognized, 0, i);
    StartsOrdered(recognized, i, |recognized| - 1);
  }

  lemma ClipAppend(recognized: seq<Cue>, projected: seq<Cue>, from: int, i: nat, cursor: int, end: int)
    requires Contiguous(recognized) && i < |recognized|
    requires First(recognized) <= recognized[i].start <= cursor < end <= recognized[i].end <= End(recognized)
    requires Clipped(recognized, projected, from, cursor)
    ensures Clipped(recognized, projected + [Cue(cursor, end, recognized[i].shape)], from, end)
  {
    var cue := Cue(cursor, end, recognized[i].shape);
    var longer := projected + [cue];
    assert KnownAt(recognized, i);
    forall k | 0 <= k < |longer| ensures LinkedAt(longer, k) && KnownAt(longer, k) {
      if k < |projected| { assert LinkedAt(projected, k) && KnownAt(projected, k); }
    }
    FramesAppend(projected, cue);
    FramesInCue(recognized, i, cursor, end);
    FramesLength(recognized);
    SpanSplits(recognized, from, cursor, end);
  }

  // --------------------------------------------------------------- whole runs

  datatype Event =
    | Accept(generation: int, recognized: seq<Cue>, watermark: int)
    | Cancel(generation: int)

  function Step(s: LedgerState, e: Event): LedgerState {
    match e
    case Accept(generation, recognized, watermark) => AcceptState(s, generation, recognized, watermark)
    case Cancel(generation) => if generation == s.generation then s.(cancelled := true) else s
  }

  function Run(s: LedgerState, events: seq<Event>): LedgerState
    decreases |events|
  {
    if events == [] then s else Run(Step(s, events[0]), events[1..])
  }

  lemma {:induction false} RunConcat(s: LedgerState, a: seq<Event>, b: seq<Event>)
    ensures Run(s, a + b) == Run(Run(s, a), b)
    decreases |a|
  {
    if a == [] {
      assert a + b == b;
    } else {
      assert (a + b)[1..] == a[1..] + b;
      RunConcat(Step(s, a[0]), a[1..], b);
    }
  }

  lemma SpanKnown(recognized: seq<Cue>, from: int, to: int)
    requires Contiguous(recognized) && First(recognized) <= from <= to <= End(recognized)
    ensures forall f :: 0 <= f < to - from ==> Span(recognized, from, to)[f] in RHUBARB_SHAPES
  {
    KnownFrames(recognized);
    FramesLength(recognized);
  }

  lemma StepKeeps(s: LedgerState, e: Event)
    requires ValidState(s)
    ensures ValidState(Step(s, e))
    ensures Step(s, e).generation == s.generation
    ensures s.committed <= Step(s, e).committed
    ensures Frames(s.cues) <= Frames(Step(s, e).cues)
    ensures |Frames(s.cues)| == s.committed
  {
    FramesLength(s.cues);
    var t := Step(s, e);
    if t.committed != s.committed {
      var frames := Frames(s.cues) + Span(e.recognized, s.committed, e.watermark);
      EncodeRoundTrip(frames);
      KnownFrames(s.cues);
      SpanKnown(e.recognized, s.committed, e.watermark);
      EncodeKnown(frames);
    }
  }

  lemma {:induction false} EncodeKnown(frames: seq<Shape>)
    requires forall f :: 0 <= f < |frames| ==> frames[f] in RHUBARB_SHAPES
    ensures Known(Encode(frames))
  {
    if frames != [] {
      var n := |frames| - 1;
      EncodeKnown(frames[..n]);
      MergeKeepsKnown(Encode(frames[..n]), Cue(n, n + 1, frames[n]));
    }
  }

  /** Over every run: cues tile [0, committed) in run-length form, the watermark
      never moves back, no committed frame ever changes its shape, a cancelled
      ledger is frozen, and every committed cue but the last stays as it is. */
  lemma {:induction false} RunKeeps(s: LedgerState, events: seq<Event>)
    requires ValidState(s)
    ensures ValidState(Run(s, events))
    ensures Run(s, events).generation == s.generation
    ensures s.committed <= Run(s, events).committed == |Frames(Run(s, events).cues)|
    ensures Frames(s.cues) <= Frames(Run(s, events).cues)
    ensures s.cancelled ==> Run(s, events) == s
    ensures CuesKept(s.cues, Run(s, events).cues)
    ensures s.cues <= Run(s, events).cues <==> !Lengthens(s, Run(s, events))
    decreases |events|
  {
    FramesLength(s.cues);
    if events != [] {
      StepKeeps(s, events[0]);
      RunKeeps(Step(s, events[0]), events[1..]);
    }
    CommittedCues(s, Run(s, events));
  }

  /** Past the commit of `s`, `t` goes on with the shape of the last cue of `s`. */
  ghost predicate Lengthens(s: LedgerState, t: LedgerState)
    requires ValidState(s) && ValidState(t)
  {
    && 0 < s.committed < t.committed && |Frames(t.cues)| == t.committed && s.cues != []
    && Frames(t.cues)[s.committed] == s.cues[|s.cues| - 1].shape
  }

  /** Committed cues: once the frames are kept, every cue but the last is kept as it
      is, and the last one is too exactly when the next frame shows another shape. */
  lemma CommittedCues(s: LedgerState, t: LedgerState)
    requires ValidState(s) && ValidState(t) && Frames(s.cues) <= Frames(t.cues)
    ensures CuesKept(s.cues, t.cues)
    ensures s.cues <= t.cues <==> !Lengthens(s, t)
  {
    if s.cues != [] {
      GrownTimeline(s.cues, s.committed, t.cues, t.committed);
    }
  }

  /** One accepted commit: all cues but the last stay, the last keeps its start and
      shape, and it stays as it is exactly when the recognized shape changes at the commit. */
  lemma AcceptKeepsCues(s: LedgerState, recognized: seq<Cue>, watermark: int)
    requires ValidState(s) && !s.cancelled && 0 < s.committed < watermark
    requires Covers(recognized, s.committed, watermark)
    ensures s.cues != [] && CuesKept(s.cues, AcceptState(s, s.generation, recognized, watermark).cues)
    ensures s.cues <= AcceptState(s, s.generation, recognized, watermark).cues <==>
            Span(recognized, s.committed, watermark)[0] != s.cues[|s.cues| - 1].shape
  {
    FramesLength(s.cues);
    EncodeCanonical(s.cues, s.committed);
    LastShape(Frames(s.cues));
    EncodeGrows(Frames(s.cues), Span(recognized, s.committed, watermark));
  }

  /** A committed cue that is lengthened: ten frames of A, then ten more. */
  lemma LengthenedCueExample()
    ensures var s := LedgerState(1, false, 10, [Cue(0, 10, 'A')]);
      var recognized := [Cue(0, 20, 'A')];
      && ValidState(s) && AcceptOutcome(s, 1, recognized, 20) == Success(true)
      && AcceptState(s, 1, recognized, 20).cues != []
      && AcceptState(s, 1, recognized, 20).cues[0].end > s.cues[0].end
  {
    var s, recognized := LedgerState(1, false, 10, [Cue(0, 10, 'A')]), [Cue(0, 20, 'A')];
    assert LinkedAt(s.cues, 0) && KnownAt(s.cues, 0);
    assert LinkedAt(recognized, 0) && KnownAt(recognized, 0);
    FaultExact(recognized);
    FrameAt(recognized, 0, 10);
    AcceptKeepsCues(s, recognized, 20);
    var t := AcceptState(s, 1, recognized, 20);
    assert !(s.cues <= t.cues);
    assert t.cues[..1] == [t.cues[0]];
  }

  /** Whatever follows a cancel of the ledger's own generation, the committed
      timeline stays the one that stood at the cancel. */
  lemma {:induction false} CancelFreezes(s: LedgerState, before: seq<Event>, after: seq<Event>)
    requires ValidState(s)
    ensures Run(s, before + [Event.Cancel(s.generation)] + after) == Run(s, before).(cancelled := true)
  {
    RunKeeps(s, before);
    var stop := [Event.Cancel(s.generation)];
    RunConcat(s, before + stop, after);
    RunConcat(s, before, stop);
    var frozen := Run(Run(s, before), stop);
    assert stop[1..] == [];
    assert frozen == Step(Run(s, before), stop[0]);
    StepKeeps(Run(s, before), stop[0]);
    RunKeeps(frozen, after);
  }

  /** The events that carry the ledger's own generation. */
  function Current(generation: int, events: seq<Event>): seq<Event> {
    if events == [] then [] else
      (if events[0].generation == generation then [events[0]] else []) + Current(generation, events[1..])
  }

  /** Stale-generation events leave no trace: dropping them all changes nothing. */
  lemma {:induction false} StaleEventsVanish(s: LedgerState, events: seq<Event>)
    ensures Run(s, events) == Run(s, Current(s.generation, events))
    decreases |events|
  {
    if events != [] {
      var rest := Current(s.generation, events[1..]);
      var t := Step(s, events[0]);
      StaleEventsVanish(t, events[1..]);
      if events[0].generation == s.generation {
        assert Current(s.generation, events) == [events[0]] + rest;
        assert ([events[0]] + rest)[1..] == rest;
      } else {
        assert Current(s.generation, events) == rest;
      }
    }
  }

  // ------------------------------------------------------------ commit chunking

  /** Accept one recognized timeline at each watermark in turn. */
  function Chunked(generation: int, recognized: seq<Cue>, watermarks: seq<int>): seq<Event> {
    seq(|watermarks|, i requires 0 <= i < |watermarks| => Event.Accept(generation, recognized, watermarks[i]))
  }

  predicate Increasing(watermarks: seq<int>) {
    forall i, j :: 0 <= i < j < |watermarks| ==> watermarks[i] < watermarks[j]
  }

  /** Committing through any increasing watermarks holds the same cues as one
      commit at the last of them. */
  lemma {:induction false} ChunkingDoesNotMatter(s: LedgerState, recognized: seq<Cue>, watermarks: seq<int>)
    requires ValidState(s) && !s.cancelled && watermarks != [] && Increasing(watermarks)
    requires s.committed < watermarks[0]
    requires Covers(recognized, s.committed, watermarks[|watermarks| - 1])
    ensures Run(s, Chunked(s.generation, recognized, watermarks))
         == AcceptState(s, s.generation, recognized, watermarks[|watermarks| - 1])
    decreases |watermarks|
  {
    FirstChunk(s, recognized, watermarks);
    if |watermarks| > 1 {
      var last, rest := watermarks[|watermarks| - 1], watermarks[1..];
      var t := AcceptState(s, s.generation, recognized, watermarks[0]);
      RestIncreases(watermarks);
      CommitMoves(s, recognized, watermarks[0]);
      assert Run(t, Chunked(s.generation, recognized, rest)) == AcceptState(t, s.generation, recognized, last) by {
        ChunkingDoesNotMatter(t, recognized, rest);
      }
      TwoCommits(s, recognized, watermarks[0], last);
    }
  }

  lemma RestIncreases(watermarks: seq<int>)
    requires Increasing(watermarks) && |watermarks| > 1
    ensures var rest, last := watermarks[1..], watermarks[|watermarks| - 1];
      Increasing(rest) && rest[|rest| - 1] == last && watermarks[0] < rest[0] <= last
  {
  }

  lemma {:induction false} FirstChunk(s: LedgerState, recognized: seq<Cue>, watermarks: seq<int>)
    requires watermarks != []
    ensures Run(s, Chunked(s.generation, recognized, watermarks))
         == Run(AcceptState(s, s.generation, recognized, watermarks[0]),
                Chunked(s.generation, recognized, watermarks[1..]))
  {
    var events := Chunked(s.generation, recognized, watermarks);
    assert events[1..] == Chunked(s.generation, recognized, watermarks[1..]);
  }

  lemma CommitMoves(s: LedgerState, recognized: seq<Cue>, watermark: int)
    requires ValidState(s) && !s.cancelled && s.committed < watermark && Covers(recognized, s.committed, watermark)
    ensures var t := AcceptState(s, s.generation, recognized, watermark);
      ValidState(t) && !t.cancelled && t.generation == s.generation && t.committed == watermark
  {
    StepKeeps(s, Event.Accept(s.generation, recognized, watermark));
  }

  lemma TwoCommits(s: LedgerState, recognized: seq<Cue>, middle: int, last: int)
    requires ValidState(s) && !s.cancelled && s.committed < middle < last
    requires Covers(recognized, s.committed, last)
    ensures var t := AcceptState(s, s.generation, recognized, middle);
      AcceptState(t, s.generation, recognized, last) == AcceptState(s, s.generation, recognized, last)
  {
    var frames := Frames(s.cues);
    EncodeRoundTrip(frames + Span(recognized, s.committed, middle));
    SpanSplits(recognized, s.committed, middle, last);
    assert frames + Span(recognized, s.committed, middle) + Span(recognized, middle, last)
        == frames + (Span(recognized, s.committed, middle) + Span(recognized, middle, last));
  }

  lemma SpanSplits(recognized: seq<Cue>, from: int, middle: int, to: int)
    requires Contiguous(recognized) && First(recognized) <= from <= middle <= to <= End(recognized)
    ensures Span(recognized, from, to) == Span(recognized, from, middle) + Span(recognized, middle, to)
  {
    FramesLength(recognized);
  }

  /** From an empty ledger, the chunks add up to the run-length form of the
      recognized frames themselves. */
  lemma ChunksEncodeTheTimeline(generation: int, recognized: seq<Cue>, watermarks: seq<int>)
    requires watermarks != [] && Increasing(watermarks) && 0 < watermarks[0]
    requires Covers(recognized, 0, watermarks[|watermarks| - 1])
    ensures Run(LedgerState(generation, false, 0, []), Chunked(generation, recognized, watermarks)).cues
         == Encode(Span(recognized, 0, watermarks[|watermarks| - 1]))
  {
    var s := LedgerState(generation, false, 0, []);
    ChunkingDoesNotMatter(s, recognized, watermarks);
    var span := Span(recognized, 0, watermarks[|watermarks| - 1]);
    assert Frames([]) + span == span;
  }

  /** What an accepted call makes of the frames. */
  lemma AcceptedFrames(s: LedgerState, recognized: seq<Cue>, watermark: int)
    requires ValidState(s) && !s.cancelled && AcceptOutcome(s, s.generation, recognized, watermark).Success?
    ensures var t := AcceptState(s, s.generation, recognized, watermark);
      && s.committed == |Frames(s.cues)| <= t.committed == watermark == |Frames(t.cues)|
      && (s.committed == watermark ==> t == s)
      && (s.committed < watermark ==>
            && Covers(recognized, s.committed, watermark)
            && Frames(t.cues) == Frames(s.cues) + Span(recognized, s.committed, watermark))
  {
    FramesLength(s.cues);
    if s.committed < watermark {
      AcceptsExactly(s, recognized, watermark);
      FramesLength(recognized);
    }
  }

  /** The answer in every state: False for another or a cancelled generation; otherwise True when there
      is nothing to commit or the recognized cues reach from the commit to the watermark; and otherwise
      the first error, in the order watermark, timeline, cursor, watermark reached. */
  lemma AnswersExactly(s: LedgerState, generation: int, recognized: seq<Cue>, watermark: int)
    ensures var answer := AcceptOutcome(s, generation, recognized, watermark);
      var live := generation == s.generation && !s.cancelled;
      && (answer == Success(false) <==> !live)
      && (answer == Success(true) <==>
            && live
            && (watermark == s.committed
                || (s.committed < watermark && Contiguous(recognized)
                    && First(recognized) <= s.committed && watermark <= End(recognized))))
      && (answer == Failure(WatermarkMovedBackwards) <==> live && watermark < s.committed)
      && (live && s.committed < watermark && !Contiguous(recognized) ==>
            Fault(recognized).Some? && answer == Failure(Fault(recognized).value))
      && (answer == Failure(CursorNotCovered) <==>
            live && Contiguous(recognized) && s.committed < First(recognized) < watermark)
      && (answer == Failure(WatermarkNotCovered) <==>
            && live && s.committed < watermark && Contiguous(recognized)
            && (watermark <= First(recognized) || (First(recognized) <= s.committed && End(recognized) < watermark)))
      && (answer == Success(true) ==> AcceptState(s, generation, recognized, watermark).committed == watermark)
      && (answer != Success(true) ==> AcceptState(s, generation, recognized, watermark) == s)
  {
    FaultExact(recognized);
    FaultIsTheFirst(recognized);
    if Contiguous(recognized) {
      FramesLength(recognized);
    }
  }

  /** Exact acceptance, for a live generation and a watermark ahead of the commit. */
  lemma AcceptsExactly(s: LedgerState, recognized: seq<Cue>, watermark: int)
    requires ValidState(s) && !s.cancelled && s.committed < watermark
    ensures AcceptOutcome(s, s.generation, recognized, watermark).Success? <==>
            Contiguous(recognized) && First(recognized) <= s.committed && watermark <= End(recognized)
    ensures AcceptOutcome(s, s.generation, recognized, watermark).Success? ==>
            var t := AcceptState(s, s.generation, recognized, watermark);
            t.committed == watermark && Frames(t.cues) == Frames(s.cues) + Span(recognized, s.committed, watermark)
    ensures AcceptOutcome(s, s.generation, recognized, watermark).Failure? ==>
            AcceptState(s, s.generation, recognized, watermark) == s
  {
    FaultExact(recognized);
    if Covers(recognized, s.committed, watermark) {
      EncodeRoundTrip(Frames(s.cues) + Span(recognized, s.committed, watermark));
    }
  }
}
