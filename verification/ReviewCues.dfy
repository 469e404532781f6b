/** The review cue rows made from recognizer output, and their lookup by sample. */
module ReviewCues {
  import opened Numeric
  import opened CueTimeline
  import opened RhubarbImport

  datatype Row = Row(first: int, last: int, category: int)

  datatype RowError =
    | DurationMismatch
    | DifferentAudio
    | InvalidInterval
    | UnmappedShape
    | IncompleteUtterance

  /** Native viseme category of each recognizer shape. */
  const CATEGORIES: map<Shape, int> :=
    map['X' := 0, 'A' := 1, 'B' := 4, 'C' := 10, 'D' := 9, 'E' := 8, 'F' := 8, 'G' := 2, 'H' := 4]

  /** Every recognizer shape has a category, silence 0. Only B and H, and E and F, share one. */
  lemma CategoriesAre(a: Shape, b: Shape)
    requires a in CATEGORIES && b in CATEGORIES
    ensures CATEGORIES.Keys == RHUBARB_SHAPES && CATEGORIES['X'] == 0 && CATEGORIES['A'] == 1 && CATEGORIES['G'] == 2
    ensures CATEGORIES['B'] == 4 && CATEGORIES['E'] == 8 && CATEGORIES['D'] == 9 && CATEGORIES['C'] == 10
    ensures CATEGORIES[a] == CATEGORIES[b] <==> a == b || {a, b} == {'B', 'H'} || {a, b} == {'E', 'F'}
  {
    assert 'H' in {'B', 'H'} && 'F' in {'E', 'F'};
  }

  predicate RowFits(rows: seq<Row>, i: nat, count: int)
    requires i < |rows|
  {
    && rows[i].first == (if i == 0 then 0 else rows[i - 1].last)
    && rows[i].first < rows[i].last <= count
  }

  /** The rows follow on from frame 0, are not empty, and stay inside the audio. */
  predicate Follow(rows: seq<Row>, count: int) {
    forall i :: 0 <= i < |rows| ==> RowFits(rows, i, count)
  }

  /** The rows partition [0, count). */
  predicate Tiling(rows: seq<Row>, count: int) {
    rows != [] && Follow(rows, count) && rows[|rows| - 1].last == count
  }

  function RowOf(raw: RawCue, rate: int): Row
    requires raw.value in CATEGORIES
  {
    Row(ToFrames(raw.start, rate), ToFrames(raw.end, rate), CATEGORIES[raw.value])
  }

  /** The plainly rounded rows, before the tail is given to the last of them. */
  function RowsOf(raw: seq<RawCue>, rate: int): seq<Row>
    requires forall i :: 0 <= i < |raw| ==> raw[i].value in CATEGORIES
  {
    seq(|raw|, i requires 0 <= i < |raw| => RowOf(raw[i], rate))
  }

  function StretchLast(rows: seq<Row>, count: int): seq<Row>
    requires rows != []
  {
    rows[|rows| - 1 := rows[|rows| - 1].(last := count)]
  }

  predicate DurationFits(duration: real, rate: int, count: int)
    requires 0 < rate
  {
    0.0 <= count as real / rate as real - duration < 0.01
  }

  /** Recognizer output the script turns into rows. */
  predicate Preparable(sameAudio: bool, duration: real, raw: seq<RawCue>, rate: int, count: int)
    requires 0 < rate
  {
    && sameAudio && DurationFits(duration, rate, count)
    && raw != [] && (forall i :: 0 <= i < |raw| ==> raw[i].value in CATEGORIES)
    && Follow(RowsOf(raw, rate), count)
    && TailFits(count - RowsOf(raw, rate)[|raw| - 1].last, rate)
  }

  method PrepareRows(sameAudio: bool, duration: real, raw: seq<RawCue>, rate: int, count: int)
    returns (r: Result<seq<Row>, RowError>)
    requires 0 < rate
    ensures r.Success? <==> Preparable(sameAudio, duration, raw, rate, count)
    ensures r.Success? ==> r.value == StretchLast(RowsOf(raw, rate), count) && Tiling(r.value, count)
    ensures r.Success? ==> |r.value| == |raw| && forall i :: 0 <= i < |raw| ==>
      && raw[i].value in CATEGORIES && r.value[i].category == CATEGORIES[raw[i].value]
      && r.value[i].first == ToFrames(raw[i].start, rate)
      && (i < |raw| - 1 ==> r.value[i].last == ToFrames(raw[i].end, rate))
    ensures r == Failure(RowError.DurationMismatch) <==> !(0.0 <= count as real / rate as real - duration < 0.01)
    ensures r == Failure(RowError.DifferentAudio) <==> DurationFits(duration, rate, count) && !sameAudio
  {
    if !(0.0 <= count as real / rate as real - duration < 0.01) {
      return Failure(RowError.DurationMismatch);
    }
    if !sameAudio {
      return Failure(RowError.DifferentAudio);
    }
    var rows: seq<Row> := [];
    for i := 0 to |raw|
      invariant forall k :: 0 <= k < i ==> raw[k].value in CATEGORIES
      invariant rows == RowsOf(raw[..i], rate)
      invariant Follow(rows, count)
    {
      var first, last := ToFrames(raw[i].start, rate), ToFrames(raw[i].end, rate);
      if first != (if rows == [] then 0 else rows[|rows| - 1].last) || last <= first || last > count {
        BadRow(raw, rate, count, i);
        return Failure(InvalidInterval);
      }
      if raw[i].value !in CATEGORIES {
        return Failure(UnmappedShape);
      }
      OneMoreRow(rows, Row(first, last, CATEGORIES[raw[i].value]), count);
      rows := rows + [Row(first, last, CATEGORIES[raw[i].value])];
    }
    assert raw[..|raw|] == raw;
    if rows == [] || (count - rows[|rows| - 1].last) * 100 >= rate {
      return Failure(IncompleteUtterance);
    }
    StretchedTiles(rows, count);
    rows := rows[|rows| - 1 := rows[|rows| - 1].(last := count)];
    return Success(rows);
  }

  lemma OneMoreRow(rows: seq<Row>, row: Row, count: int)
    requires Follow(rows, count) && row.first < row.last <= count
    requires row.first == if rows == [] then 0 else rows[|rows| - 1].last
    ensures Follow(rows + [row], count)
  {
    forall k | 0 <= k <= |rows| ensures RowFits(rows + [row], k, count) {
      if k < |rows| { assert RowFits(rows, k, count); }
    }
  }

  lemma StretchedTiles(rows: seq<Row>, count: int)
    requires rows != [] && Follow(rows, count)
    ensures rows[|rows| - 1].last <= count && Tiling(StretchLast(rows, count), count)
  {
    var stretched := StretchLast(rows, count);
    assert RowFits(rows, |rows| - 1, count);
    forall k | 0 <= k < |stretched| ensures RowFits(stretched, k, count) {
      assert RowFits(rows, k, count);
    }
  }

  lemma BadRow(raw: seq<RawCue>, rate: int, count: int, i: nat)
    requires 0 < rate && i < |raw|
    requires forall k :: 0 <= k < i ==> raw[k].value in CATEGORIES
    requires var first, last := ToFrames(raw[i].start, rate), ToFrames(raw[i].end, rate);
      first != (if i == 0 then 0 else ToFrames(raw[i - 1].end, rate)) || last <= first || last > count
    ensures (forall k :: 0 <= k < |raw| ==> raw[k].value in CATEGORIES) ==> !Follow(RowsOf(raw, rate), count)
  {
    if forall k :: 0 <= k < |raw| ==> raw[k].value in CATEGORIES {
      assert !RowFits(RowsOf(raw, rate), i, count);
    }
  }

  /** A centisecond timeline that ends at the truncated duration becomes rows that
      partition the audio, at the same rates at which the cue parser accepts it. */
  lemma CentisecondRowsAreExact(raw: seq<RawCue>, marks: seq<int>, rate: int, count: int)
    requires Centiseconds(raw, marks) && 100 <= rate && TailSafe(rate) && 0 <= count
    requires marks[|raw|] == WholeCentis(count, rate)
    ensures Preparable(true, marks[|raw|] as real / 100.0, raw, rate, count)
  {
    CentisecondsImport(raw, marks, rate, 0);
    SafeRateFits(count, rate);
    MarksOrdered(raw, marks, |raw|);
    TruncatedDuration(count, rate);
    var rows, cues := RowsOf(raw, rate), Imported(raw, rate, 0);
    forall i | 0 <= i < |rows| ensures RowFits(rows, i, count) {
      assert LinkedAt(cues, i);
      StartsOrdered(cues, i, |cues| - 1);
    }
  }

  ghost predicate PreparesAt(raw: seq<RawCue>, marks: seq<int>, rate: int, count: int)
    requires 0 < rate
  {
    TruncatedTo(raw, marks, rate, count) ==> Preparable(true, marks[|raw|] as real / 100.0, raw, rate, count)
  }

  ghost predicate EveryTimelinePrepares(rate: int)
    requires 0 < rate
  {
    forall raw, marks, count :: PreparesAt(raw, marks, rate, count)
  }

  lemma FlawedIsNotPrepared(raw: seq<RawCue>, marks: seq<int>, rate: int, count: int, i: nat)
    requires 0 < rate && TruncatedTo(raw, marks, rate, count)
    requires Collapses(marks, rate, i) || !TailFits(CutTail(count, rate), rate)
    ensures !Preparable(true, marks[|raw|] as real / 100.0, raw, rate, count)
  {
    MarksOrdered(raw, marks, |raw|);
    CentisecondRounding(marks[|raw|], rate);
    if Collapses(marks, rate, i) {
      MarksOrdered(raw, marks, i);
      CentisecondRounding(marks[i], rate);
      CentisecondRounding(marks[i + 1], rate);
      BadRow(raw, rate, count, i);
    }
  }

  /** The rows are prepared for every such timeline at exactly the rates at which it is imported. */
  lemma PreparesExactly(rate: int)
    requires 0 < rate
    ensures 100 <= rate && TailSafe(rate) <==> EveryTimelinePrepares(rate)
  {
    if 100 <= rate && TailSafe(rate) {
      forall raw, marks, count ensures PreparesAt(raw, marks, rate, count) {
        if TruncatedTo(raw, marks, rate, count) {
          CentisecondRowsAreExact(raw, marks, rate, count);
        }
      }
    } else {
      var raw, marks, count, i := FlawedTimeline(rate);
      FlawedIsNotPrepared(raw, marks, rate, count, i);
      assert !PreparesAt(raw, marks, rate, count);
    }
  }

  lemma TruncatedDuration(count: int, rate: int)
    requires 0 <= count && 0 < rate
    ensures DurationFits(WholeCentis(count, rate) as real / 100.0, rate, count)
  {
    var k := WholeCentis(count, rate);
    assert k * rate <= count * 100 < k * rate + rate;
    var c, q, x := count as real, rate as real, k as real / 100.0;
    assert x * q == (k * rate) as real / 100.0;
    assert x * q <= c < x * q + 0.01 * q;
    QuotientBounds(c, q, x);
  }

  lemma QuotientBounds(c: real, q: real, x: real)
    requires 0.0 < q && x * q <= c < x * q + 0.01 * q
    ensures 0.0 <= c / q - x < 0.01
  {
    var d := c / q - x;
    assert c / q * q == c;
    assert d * q == c - x * q;
    assert d < 0.0 ==> d * q < 0.0;
    assert d >= 0.01 ==> d * q >= 0.01 * q;
  }

  /** Where both importers accept, the rows are the cues with shapes mapped to categories. */
  lemma ImportersAgree(duration: real, raw: seq<RawCue>, rate: int, count: int, i: nat)
    requires 0 < rate && Importable(true, duration, raw, rate, count, 0) && Preparable(true, duration, raw, rate, count)
    requires i < |raw|
    ensures var rows, cues := StretchLast(RowsOf(raw, rate), count), WithEnd(Imported(raw, rate, 0), count);
      |rows| == |cues| && rows[i] == Row(cues[i].start, cues[i].end, CATEGORIES[cues[i].shape])
  {
  }

  // -------------------------------------------------------------------- lookup

  /** `next((c for start, end, c in cues if start <= sample < end), 0)`. */
  function Lookup(rows: seq<Row>, sample: int): int {
    if rows == [] then 0
    else if rows[0].first <= sample < rows[0].last then rows[0].category
    else Lookup(rows[1..], sample)
  }

  predicate Holds(row: Row, sample: int) {
    row.first <= sample < row.last
  }

  lemma {:induction false} RowsOrdered(rows: seq<Row>, count: int, i: nat, j: nat)
    requires Follow(rows, count) && i < j < |rows|
    ensures rows[i].last <= rows[j].first
    decreases j
  {
    assert RowFits(rows, j, count);
    if i + 1 < j {
      RowsOrdered(rows, count, i, j - 1);
      assert RowFits(rows, j - 1, count);
    }
  }

  lemma {:induction false} SomeRowHolds(rows: seq<Row>, count: int, sample: int, n: nat) returns (i: nat)
    requires Follow(rows, count) && 0 < n <= |rows| && 0 <= sample < rows[n - 1].last
    ensures i < n && Holds(rows[i], sample)
  {
    assert RowFits(rows, n - 1, count);
    if rows[n - 1].first <= sample {
      i := n - 1;
    } else {
      i := SomeRowHolds(rows, count, sample, n - 1);
    }
  }

  lemma {:induction false} LookupFinds(rows: seq<Row>, sample: int, i: nat)
    requires i < |rows| && Holds(rows[i], sample)
    requires forall k :: 0 <= k < |rows| && Holds(rows[k], sample) ==> k == i
    ensures Lookup(rows, sample) == rows[i].category
  {
    if i > 0 {
      assert !Holds(rows[0], sample);
      forall k | 0 <= k < |rows[1..]| && Holds(rows[1..][k], sample) ensures k == i - 1 {
        assert Holds(rows[k + 1], sample);
      }
      LookupFinds(rows[1..], sample, i - 1);
    }
  }

  /** Every sample of the audio falls in exactly one row, and the lookup returns its category. */
  lemma LookupIsExact(rows: seq<Row>, count: int, sample: int) returns (i: nat)
    requires Tiling(rows, count) && 0 <= sample < count
    ensures i < |rows| && Holds(rows[i], sample)
    ensures forall k :: 0 <= k < |rows| && Holds(rows[k], sample) ==> k == i
    ensures Lookup(rows, sample) == rows[i].category
  {
    i := SomeRowHolds(rows, count, sample, |rows|);
    forall k | 0 <= k < |rows| && Holds(rows[k], sample) ensures k == i {
      if k < i { RowsOrdered(rows, count, k, i); }
      if i < k { RowsOrdered(rows, count, i, k); }
    }
    LookupFinds(rows, sample, i);
  }
}
