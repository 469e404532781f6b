/** The lip-edge trace: a dynamic program over columns and levels, with
    back-pointers, that joins source edges across the mouth. */
module EdgeTrace {
  import opened Numeric

  /** One score per column and level, the levels, and the reference curve. */
  datatype Field = Field(score: seq<seq<real>>, levels: seq<real>, reference: seq<real>) {
    predicate Valid() {
      && 0 < |score| == |reference| && 0 < |levels|
      && forall c :: 0 <= c < |score| ==> |score[c]| == |levels|
    }

    /** The cost of going from level `a` in the column before to level `b` in `column`. */
    function Transition(column: nat, a: nat, b: nat): real
      requires 0 < column < |reference| && a < |levels| && b < |levels|
    {
      var jitter := levels[b] - levels[a] - (reference[column] - reference[column - 1]);
      0.003 * (jitter * jitter)
    }
  }

  /** A level for each of the first `n` columns. */
  predicate IsPath(f: Field, path: seq<nat>, n: nat) {
    |path| == n && forall c :: 0 <= c < n ==> path[c] < |f.levels|
  }

  /** Scores plus transitions along a path over the first columns. */
  function PathCost(f: Field, path: seq<nat>): real
    requires f.Valid() && 0 < |path| <= |f.score| && IsPath(f, path, |path|)
  {
    var c := |path| - 1;
    if c == 0 then f.score[0][path[0]]
    else PathCost(f, path[..c]) + f.Transition(c, path[c - 1], path[c]) + f.score[c][path[c]]
  }

  /** Back-pointers: for each column after the first, the best level before each level. */
  predicate IsBack(f: Field, back: seq<seq<nat>>) {
    forall c :: 0 <= c < |back| ==>
      |back[c]| == |f.levels| && forall b :: 0 <= b < |f.levels| ==> back[c][b] < |f.levels|
  }

  /** The path the back-pointers give from `level` in `column`. */
  function Walk(f: Field, back: seq<seq<nat>>, column: nat, level: nat): (path: seq<nat>)
    requires IsBack(f, back) && column <= |back| && level < |f.levels|
    ensures IsPath(f, path, column + 1) && path[column] == level
  {
    if column == 0 then [level] else Walk(f, back, column - 1, back[column - 1][level]) + [level]
  }

  /** `cost[b]` is what the back-pointers' path to `b` in `column` costs. */
  ghost predicate Achieved(f: Field, back: seq<seq<nat>>, cost: seq<real>, column: nat)
    requires f.Valid() && column < |f.score|
  {
    && IsBack(f, back) && |back| == column && |cost| == |f.levels|
    && forall b :: 0 <= b < |f.levels| ==> PathCost(f, Walk(f, back, column, b)) == cost[b]
  }

  /** No path to level `b` in `column` costs less than `bound`. */
  ghost predicate Below(f: Field, column: nat, b: nat, bound: real)
    requires f.Valid() && column < |f.score|
  {
    forall path :: IsPath(f, path, column + 1) && path[column] == b ==> bound <= PathCost(f, path)
  }

  ghost predicate Lowest(f: Field, cost: seq<real>, column: nat)
    requires f.Valid() && column < |f.score|
  {
    |cost| == |f.levels| && forall b :: 0 <= b < |f.levels| ==> Below(f, column, b, cost[b])
  }

  // ------------------------------------------------------------ what a path costs

  /** The scores a path picks up in the first `n` columns. */
  function Scores(f: Field, path: seq<nat>, n: nat): real
    requires f.Valid() && n <= |path| <= |f.score| && IsPath(f, path, |path|)
  {
    if n == 0 then 0.0 else Scores(f, path, n - 1) + f.score[n - 1][path[n - 1]]
  }

  /** By how much the step into `column` departs from that of the reference. */
  function Departure(f: Field, path: seq<nat>, column: nat): real
    requires f.Valid() && 0 < column < |path| <= |f.score| && IsPath(f, path, |path|)
  {
    (f.levels[path[column]] - f.levels[path[column - 1]]) - (f.reference[column] - f.reference[column - 1])
  }

  /** The squared departures within the first `n` columns. */
  function Jitter(f: Field, path: seq<nat>, n: nat): real
    requires f.Valid() && n <= |path| <= |f.score| && IsPath(f, path, |path|)
  {
    if n <= 1 then 0.0 else Jitter(f, path, n - 1) + Squared(Departure(f, path, n - 1))
  }

  /** Sums over a path depend on no later column. */
  lemma {:induction false} SumsOfPrefix(f: Field, path: seq<nat>, m: nat, n: nat)
    requires f.Valid() && n <= m <= |path| <= |f.score| && IsPath(f, path, |path|)
    ensures Scores(f, path[..m], n) == Scores(f, path, n) && Jitter(f, path[..m], n) == Jitter(f, path, n)
  {
    if n > 0 {
      SumsOfPrefix(f, path, m, n - 1);
      if n > 1 {
        assert Departure(f, path[..m], n - 1) == Departure(f, path, n - 1);
      }
    }
  }

  /** A path costs its scores plus 0.003 times its squared departures from the reference. */
  lemma {:induction false} PathCostIs(f: Field, path: seq<nat>)
    requires f.Valid() && 0 < |path| <= |f.score| && IsPath(f, path, |path|)
    ensures PathCost(f, path) == Scores(f, path, |path|) + 0.003 * Jitter(f, path, |path|)
    decreases |path|
  {
    var c := |path| - 1;
    if c > 0 {
      PathCostIs(f, path[..c]);
      SumsOfPrefix(f, path, c, c);
      TransitionIs(f, path, c);
    } else {
      assert Scores(f, path, 1) == Scores(f, path, 0) + f.score[0][path[0]];
    }
  }

  lemma TransitionIs(f: Field, path: seq<nat>, c: nat)
    requires f.Valid() && 0 < c < |path| <= |f.score| && IsPath(f, path, |path|)
    ensures f.Transition(c, path[c - 1], path[c]) == 0.003 * Squared(Departure(f, path, c))
  {
  }

  /** The path moves with the reference at every column. */
  ghost predicate FollowsReference(f: Field, path: seq<nat>, n: nat)
    requires f.Valid() && n <= |path| <= |f.score| && IsPath(f, path, |path|)
  {
    forall c :: 0 < c < n ==>
      f.levels[path[c]] - f.levels[path[c - 1]] == f.reference[c] - f.reference[c - 1]
  }

  lemma {:induction false} NoJitterExactly(f: Field, path: seq<nat>, n: nat)
    requires f.Valid() && n <= |path| <= |f.score| && IsPath(f, path, |path|)
    ensures 0.0 <= Jitter(f, path, n) && (Jitter(f, path, n) == 0.0 <==> FollowsReference(f, path, n))
  {
    if n > 1 {
      NoJitterExactly(f, path, n - 1);
    }
  }

  /** A path costs at least its scores, and exactly its scores if and only if it moves with the reference. */
  lemma {:induction false} ReferenceIsFree(f: Field, path: seq<nat>)
    requires f.Valid() && 0 < |path| <= |f.score| && IsPath(f, path, |path|)
    ensures Scores(f, path, |path|) <= PathCost(f, path)
    ensures PathCost(f, path) == Scores(f, path, |path|) <==> FollowsReference(f, path, |path|)
  {
    PathCostIs(f, path);
    NoJitterExactly(f, path, |path|);
  }

  /** No level is preferred to another in any column. */
  ghost predicate Flat(f: Field)
    requires f.Valid()
  {
    forall c, a, b :: 0 <= c < |f.score| && 0 <= a < |f.levels| && 0 <= b < |f.levels| ==>
      f.score[c][a] == f.score[c][b]
  }

  lemma {:induction false} FlatScores(f: Field, p: seq<nat>, q: seq<nat>, n: nat)
    requires f.Valid() && Flat(f) && IsPath(f, p, |f.score|) && IsPath(f, q, |f.score|) && n <= |f.score|
    ensures Scores(f, p, n) == Scores(f, q, n)
  {
    if n > 0 {
      FlatScores(f, p, q, n - 1);
    }
  }

  /** Where the image says nothing, a best path moves with the reference if any path can. */
  lemma {:induction false} FlatFieldFollowsReference(f: Field, best: seq<nat>, path: seq<nat>)
    requires f.Valid() && Flat(f) && IsPath(f, best, |f.score|) && IsPath(f, path, |f.score|)
    requires FollowsReference(f, path, |path|) && PathCost(f, best) <= PathCost(f, path)
    ensures FollowsReference(f, best, |best|)
  {
    ReferenceIsFree(f, best);
    ReferenceIsFree(f, path);
    FlatScores(f, best, path, |f.score|);
  }

  // ----------------------------------------------------------------- the program

  /** The back-pointer walk returns a path that costs `best`, and no assignment of
      levels to columns costs less. */
  method Trace(f: Field) returns (selection: seq<nat>, best: real)
    requires f.Valid()
    ensures IsPath(f, selection, |f.score|) && PathCost(f, selection) == best
    ensures forall path :: IsPath(f, path, |f.score|) ==> best <= PathCost(f, path)
    ensures best == Scores(f, selection, |f.score|) + 0.003 * Jitter(f, selection, |f.score|)
  {
    var cost, back := f.score[0], [];
    FirstColumn(f);
    for column := 1 to |f.score|
      invariant Achieved(f, back, cost, column - 1) && Lowest(f, cost, column - 1)
    {
      var parent, next := Relax(f, column, cost);
      NextColumn(f, back, cost, column, parent, next);
      cost, back := next, back + [parent];
    }
    var last := ArgMin(cost);
    best := cost[last];
    selection := BackWalk(f, back, last);
    LastColumn(f, back, cost, last);
    PathCostIs(f, selection);
  }

  /** In the last column the cheapest level ends a path no other path undercuts. */
  lemma {:induction false} LastColumn(f: Field, back: seq<seq<nat>>, cost: seq<real>, last: nat)
    requires f.Valid() && Achieved(f, back, cost, |f.score| - 1) && Lowest(f, cost, |f.score| - 1)
    requires last < |cost| && forall b :: 0 <= b < |cost| ==> cost[last] <= cost[b]
    ensures var path := Walk(f, back, |back|, last); IsPath(f, path, |f.score|) && PathCost(f, path) == cost[last]
    ensures forall path :: IsPath(f, path, |f.score|) ==> cost[last] <= PathCost(f, path)
  {
    var n := |f.score| - 1;
    forall path | IsPath(f, path, |f.score|) ensures cost[last] <= PathCost(f, path) {
      BelowPath(f, n, cost[path[n]], path);
    }
  }

  lemma {:induction false} BelowPath(f: Field, column: nat, bound: real, path: seq<nat>)
    requires f.Valid() && column < |f.score| && IsPath(f, path, column + 1) && Below(f, column, path[column], bound)
    ensures bound <= PathCost(f, path)
  {
  }

  /** Follow the back-pointers from the last column to the first. */
  method BackWalk(f: Field, back: seq<seq<nat>>, last: nat) returns (selection: seq<nat>)
    requires IsBack(f, back) && last < |f.levels|
    ensures selection == Walk(f, back, |back|, last)
  {
    selection := [last];
    for k := |back| downto 0
      invariant selection != [] && selection[0] < |f.levels|
      invariant Walk(f, back, |back|, last) == Walk(f, back, k, selection[0]) + selection[1..]
    {
      ghost var front, rest := Walk(f, back, k, back[k][selection[0]]), selection;
      selection := [back[k][selection[0]]] + selection;
      assert selection[1..] == rest == [rest[0]] + rest[1..];
      assert front + [rest[0]] + rest[1..] == front + rest;
    }
    assert Walk(f, back, 0, selection[0]) == [selection[0]];
    assert [selection[0]] + selection[1..] == selection;
  }

  /** One column of the dynamic program. */
  method Relax(f: Field, column: nat, cost: seq<real>) returns (parent: seq<nat>, next: seq<real>)
    requires f.Valid() && 0 < column < |f.score| && |cost| == |f.levels|
    ensures |parent| == |next| == |f.levels|
    ensures forall b :: 0 <= b < |f.levels| ==> Relaxed(f, column, cost, b, parent[b], next[b])
  {
    parent, next := [], [];
    for b := 0 to |f.levels|
      invariant |parent| == |next| == b
      invariant forall i :: 0 <= i < b ==> Relaxed(f, column, cost, i, parent[i], next[i])
    {
      var candidates := seq(|cost|, a requires 0 <= a < |cost| => cost[a] + f.Transition(column, a, b));
      var a := ArgMin(candidates);
      assert forall i :: 0 <= i < |cost| ==> candidates[i] == cost[i] + f.Transition(column, i, b);
      parent, next := parent + [a], next + [f.score[column][b] + candidates[a]];
    }
  }

  /** `a` is a cheapest level to reach level `b` of `column` from, at cost `total`. */
  ghost predicate Relaxed(f: Field, column: nat, cost: seq<real>, b: nat, a: nat, total: real)
    requires f.Valid() && 0 < column < |f.score| && |cost| == |f.levels| && b < |f.levels|
  {
    && a < |f.levels|
    && total == f.score[column][b] + cost[a] + f.Transition(column, a, b)
    && forall i :: 0 <= i < |f.levels| ==> cost[a] + f.Transition(column, a, b) <= cost[i] + f.Transition(column, i, b)
  }

  lemma FirstColumn(f: Field)
    requires f.Valid()
    ensures Achieved(f, [], f.score[0], 0) && Lowest(f, f.score[0], 0)
  {
  }

  lemma NextColumn(f: Field, back: seq<seq<nat>>, cost: seq<real>, column: nat, parent: seq<nat>, next: seq<real>)
    requires f.Valid() && 0 < column < |f.score|
    requires Achieved(f, back, cost, column - 1) && Lowest(f, cost, column - 1)
    requires |parent| == |next| == |f.levels|
    requires forall b :: 0 <= b < |f.levels| ==> Relaxed(f, column, cost, b, parent[b], next[b])
    ensures Achieved(f, back + [parent], next, column) && Lowest(f, next, column)
  {
    var longer := back + [parent];
    forall b | 0 <= b < |f.levels|
      ensures parent[b] < |f.levels|
    {
      assert Relaxed(f, column, cost, b, parent[b], next[b]);
    }
    forall b | 0 <= b < |f.levels|
      ensures PathCost(f, Walk(f, longer, column, b)) == next[b] && Below(f, column, b, next[b])
    {
      assert Relaxed(f, column, cost, b, parent[b], next[b]);
      WalkStable(f, back, parent, column - 1, parent[b]);
      var front := Walk(f, back, column - 1, parent[b]);
      assert (front + [b])[..column] == front;
      CheapestInto(f, column, cost, b, parent[b], next[b]);
    }
  }

  lemma {:induction false} WalkStable(f: Field, back: seq<seq<nat>>, parent: seq<nat>, column: nat, level: nat)
    requires IsBack(f, back) && IsBack(f, back + [parent]) && column <= |back| && level < |f.levels|
    ensures Walk(f, back + [parent], column, level) == Walk(f, back, column, level)
  {
    if column > 0 {
      WalkStable(f, back, parent, column - 1, back[column - 1][level]);
    }
  }

  lemma CheapestInto(f: Field, column: nat, cost: seq<real>, b: nat, a: nat, total: real)
    requires f.Valid() && 0 < column < |f.score| && Lowest(f, cost, column - 1) && b < |f.levels|
    requires Relaxed(f, column, cost, b, a, total)
    ensures Below(f, column, b, total)
  {
    forall path | IsPath(f, path, column + 1) && path[column] == b ensures total <= PathCost(f, path) {
      var front, i := path[..column], path[column - 1];
      assert IsPath(f, front, column);
      assert Below(f, column - 1, i, cost[i]);
      assert cost[i] <= PathCost(f, front);
    }
  }

  // ---------------------------------------------------------------- the band mask

  /** Scores outside the allowed band are at least `mask`, and none is below `-floor`. */
  ghost predicate Masked(f: Field, allowed: seq<seq<bool>>, mask: real, floor: real)
    requires f.Valid()
  {
    && |allowed| == |f.score| && 0.0 <= floor
    && (forall c :: 0 <= c < |f.score| ==> |allowed[c]| == |f.levels|)
    && forall c, b :: 0 <= c < |f.score| && 0 <= b < |f.levels| ==>
         -floor <= f.score[c][b] && (!allowed[c][b] ==> mask <= f.score[c][b])
  }

  ghost predicate InBand(f: Field, allowed: seq<seq<bool>>, path: seq<nat>)
    requires f.Valid() && IsPath(f, path, |f.score|) && |allowed| == |f.score|
    requires forall c :: 0 <= c < |f.score| ==> |allowed[c]| == |f.levels|
  {
    forall c :: 0 <= c < |path| ==> allowed[c][path[c]]
  }

  /** `n` times `floor`. */
  function Floors(n: nat, floor: real): real {
    if n == 0 then 0.0 else Floors(n - 1, floor) + floor
  }

  lemma {:induction false} FloorsIsProduct(n: nat, floor: real)
    ensures Floors(n, floor) == n as real * floor
  {
    if n > 0 {
      FloorsIsProduct(n - 1, floor);
      assert n as real * floor == (n - 1) as real * floor + floor;
    }
  }

  lemma {:induction false} LowestCost(f: Field, allowed: seq<seq<bool>>, mask: real, floor: real, path: seq<nat>)
    requires f.Valid() && Masked(f, allowed, mask, floor) && 0 < |path| <= |f.score| && IsPath(f, path, |path|)
    ensures -Floors(|path|, floor) <= PathCost(f, path)
    decreases |path|
  {
    var c := |path| - 1;
    assert -floor <= f.score[c][path[c]];
    if c > 0 {
      LowestCost(f, allowed, mask, floor, path[..c]);
      TransitionIsACost(f, c, path[c - 1], path[c]);
    }
  }

  lemma {:induction false} OutOfBandCosts(
    f: Field, allowed: seq<seq<bool>>, mask: real, floor: real, path: seq<nat>, k: nat)
    requires f.Valid() && Masked(f, allowed, mask, floor) && 0 < |path| <= |f.score| && IsPath(f, path, |path|)
    requires k < |path| && !allowed[k][path[k]]
    ensures mask - Floors(|path| - 1, floor) <= PathCost(f, path)
    decreases |path|
  {
    var c := |path| - 1;
    assert -floor <= f.score[c][path[c]];
    if c > 0 {
      TransitionIsACost(f, c, path[c - 1], path[c]);
      if k < c {
        OutOfBandCosts(f, allowed, mask, floor, path[..c], k);
      } else {
        LowestCost(f, allowed, mask, floor, path[..c]);
      }
    }
  }

  lemma TransitionIsACost(f: Field, column: nat, a: nat, b: nat)
    requires 0 < column < |f.reference| && a < |f.levels| && b < |f.levels|
    ensures 0.0 <= f.Transition(column, a, b)
  {
    var jitter := f.levels[b] - f.levels[a] - (f.reference[column] - f.reference[column - 1]);
    assert 0.0 <= jitter * jitter;
  }

  lemma {:induction false} CheapStaysInBand(
    f: Field, allowed: seq<seq<bool>>, mask: real, floor: real, selection: seq<nat>)
    requires f.Valid() && Masked(f, allowed, mask, floor) && IsPath(f, selection, |f.score|)
    requires PathCost(f, selection) < mask - Floors(|f.score| - 1, floor)
    ensures InBand(f, allowed, selection)
  {
    forall k | 0 <= k < |selection| ensures allowed[k][selection[k]] {
      if !allowed[k][selection[k]] {
        OutOfBandCosts(f, allowed, mask, floor, selection, k);
      }
    }
  }

  lemma {:induction false} BelowMask(cost: real, bound: real, mask: real, n: nat, floor: real)
    requires cost <= bound < mask - n as real * floor
    ensures cost < mask - Floors(n, floor)
  {
    FloorsIsProduct(n, floor);
  }

  /** A best path leaves the band only if no path inside it is cheap enough:
      an inside path below the mask, allowing for the lowest scores, keeps it in. */
  lemma {:induction false} BandIsKept(
    f: Field, allowed: seq<seq<bool>>, mask: real, floor: real, selection: seq<nat>, inside: seq<nat>)
    requires f.Valid() && Masked(f, allowed, mask, floor)
    requires IsPath(f, selection, |f.score|) && IsPath(f, inside, |f.score|)
    requires PathCost(f, selection) <= PathCost(f, inside) < mask - (|f.score| - 1) as real * floor
    ensures InBand(f, allowed, selection)
  {
    BelowMask(PathCost(f, selection), PathCost(f, inside), mask, |f.score| - 1, floor);
    CheapStaysInBand(f, allowed, mask, floor, selection);
  }
}
