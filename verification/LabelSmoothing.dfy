/** Removal of one-frame spikes from a label sequence in one in-place pass. */
module LabelSmoothing {

  /** Position `i` differs from two equal neighbours. */
  predicate Spike(labels: seq<int>, i: int) {
    0 < i < |labels| - 1 && labels[i - 1] == labels[i + 1] && labels[i] != labels[i - 1]
  }

  ghost predicate SpikeFree(labels: seq<int>) {
    forall i :: !Spike(labels, i)
  }

  /** Position `i` lies in a run of two or more equal labels. */
  predicate InRun(labels: seq<int>, i: nat)
    requires i < |labels|
  {
    (i + 1 < |labels| && labels[i + 1] == labels[i]) || (i > 0 && labels[i - 1] == labels[i])
  }

  /** The labels once positions below `n` have been visited, left to right. */
  function SmoothedTo(labels: seq<int>, n: nat): (r: seq<int>)
    ensures |r| == |labels|
  {
    if n <= 1 then labels else
      var before := SmoothedTo(labels, n - 1);
      if Spike(before, n - 1) then before[n - 1 := before[n - 2]] else before
  }

  function Smoothed(labels: seq<int>): seq<int> {
    SmoothedTo(labels, if |labels| < 3 then 0 else |labels| - 1)
  }

  method SmoothLabels(labels: seq<int>) returns (smoothed: seq<int>)
    ensures smoothed == Smoothed(labels)
    ensures SpikeFree(smoothed)
    ensures |smoothed| == |labels|
    ensures forall i :: 0 <= i < |labels| && (i == 0 || i == |labels| - 1 || InRun(labels, i)) ==>
      smoothed[i] == labels[i]
    ensures Smoothed(smoothed) == smoothed
  {
    SmoothedIsSpikeFree(labels);
    SmoothingKeepsRuns(labels);
    SmoothingIsIdempotent(labels);
    var result := new int[|labels|](i requires 0 <= i < |labels| => labels[i]);
    assert result[..] == labels;
    if result.Length < 3 {
      return result[..];
    }
    for index := 1 to result.Length - 1
      invariant result[..] == SmoothedTo(labels, index)
    {
      ghost var before := result[..];
      if result[index - 1] == result[index + 1] && result[index] != result[index - 1] {
        assert Spike(before, index);
        result[index] := result[index - 1];
      } else {
        assert !Spike(before, index);
      }
    }
    return result[..];
  }

  /** Visiting position n - 1 leaves every position from `n` on as it came. */
  lemma {:induction false} UnvisitedUntouched(labels: seq<int>, n: nat, i: nat)
    requires i < |labels| && (n <= i || i == 0 || i == |labels| - 1)
    ensures SmoothedTo(labels, n)[i] == labels[i]
  {
    if n > 1 {
      UnvisitedUntouched(labels, n - 1, i);
    }
  }

  /** A visited position is settled: later visits do not come back to it. */
  lemma {:induction false} VisitedSettled(labels: seq<int>, m: nat, n: nat, i: nat)
    requires i < m <= n && i < |labels|
    ensures SmoothedTo(labels, n)[i] == SmoothedTo(labels, m)[i]
    decreases n
  {
    if m < n {
      VisitedSettled(labels, m, n - 1, i);
    }
  }

  /** What the visit of position `i` decides, seen from the finished result. */
  lemma VisitOutcome(labels: seq<int>, i: nat)
    requires 0 < i < |labels| - 1
    ensures var out := Smoothed(labels);
      out[i] == if out[i - 1] == labels[i + 1] && labels[i] != out[i - 1] then out[i - 1] else labels[i]
  {
    var before, last := SmoothedTo(labels, i), |labels| - 1;
    VisitedSettled(labels, i + 1, last, i);
    VisitedSettled(labels, i, last, i - 1);
    UnvisitedUntouched(labels, i, i);
    UnvisitedUntouched(labels, i, i + 1);
  }

  lemma SmoothedIsSpikeFree(labels: seq<int>)
    ensures SpikeFree(Smoothed(labels))
  {
    var out := Smoothed(labels);
    forall i ensures !Spike(out, i) {
      if 0 < i < |out| - 1 {
        VisitOutcome(labels, i);
        if i + 1 < |labels| - 1 {
          VisitOutcome(labels, i + 1);
        } else {
          UnvisitedUntouched(labels, |labels| - 1, i + 1);
        }
      }
    }
  }

  /** Both ends and every run of two or more equal labels are kept, position for position. */
  lemma SmoothingKeepsRuns(labels: seq<int>)
    ensures forall i :: 0 <= i < |labels| && (i == 0 || i == |labels| - 1 || InRun(labels, i)) ==>
              Smoothed(labels)[i] == labels[i]
  {
    forall i | 0 <= i < |labels| && (i == 0 || i == |labels| - 1 || InRun(labels, i))
      ensures Smoothed(labels)[i] == labels[i]
    {
      if i == 0 || i == |labels| - 1 {
        UnvisitedUntouched(labels, if |labels| < 3 then 0 else |labels| - 1, i);
      } else {
        VisitOutcome(labels, i);
        if i > 1 {
          VisitOutcome(labels, i - 1);
        } else {
          UnvisitedUntouched(labels, |labels| - 1, 0);
        }
      }
    }
  }

  /** On labels without a spike the pass changes nothing. */
  lemma {:induction false} SpikeFreeIsFixed(labels: seq<int>, n: nat)
    requires SpikeFree(labels)
    ensures SmoothedTo(labels, n) == labels
  {
    if n > 1 {
      SpikeFreeIsFixed(labels, n - 1);
      assert !Spike(labels, n - 1);
    }
  }

  lemma SmoothingIsIdempotent(labels: seq<int>)
    ensures Smoothed(Smoothed(labels)) == Smoothed(labels)
  {
    SmoothedIsSpikeFree(labels);
    SpikeFreeIsFixed(Smoothed(labels), if |labels| < 3 then 0 else |labels| - 1);
  }

  /** The pass changes nothing exactly when there is nothing to remove. */
  lemma FixedExactlyWhenSpikeFree(labels: seq<int>)
    ensures Smoothed(labels) == labels <==> SpikeFree(labels)
  {
    SmoothedIsSpikeFree(labels);
    if SpikeFree(labels) {
      SpikeFreeIsFixed(labels, if |labels| < 3 then 0 else |labels| - 1);
    }
  }
}
