/** Outcome types and the two rounding rules the scripts use. Floating-point
    numbers are modelled by reals, so rounding is exact. */
module Numeric {

  datatype Result<+T, +E> = Success(value: T) | Failure(error: E)

  datatype Option<+T> = None | Some(value: T)

  function Max(a: int, b: int): int { if a < b then b else a }

  function Min(a: int, b: int): int { if a < b then a else b }

  function MaxReal(a: real, b: real): real { if a < b then b else a }

  function MinReal(a: real, b: real): real { if a < b then a else b }

  /** Python's `round(x)`: to the nearest integer, ties to the even one. */
  function RoundHalfEven(x: real): (r: int)
    ensures -0.5 <= r as real - x <= 0.5
    ensures r as real - x == 0.5 || r as real - x == -0.5 ==> r % 2 == 0
  {
    var below := x.Floor;
    var fraction := x - below as real;
    if fraction < 0.5 || (fraction == 0.5 && below % 2 == 0) then below else below + 1
  }

  lemma RoundHalfEvenMonotone(x: real, y: real)
    requires x <= y
    ensures RoundHalfEven(x) <= RoundHalfEven(y)
  {
  }

  /** Python's `round(x, 3)`. */
  function RoundThousandths(x: real): (r: real)
    ensures -0.0005 <= r - x <= 0.0005
  {
    RoundHalfEven(x * 1000.0) as real / 1000.0
  }

  lemma RoundThousandthsMonotone(x: real, y: real)
    requires x <= y
    ensures RoundThousandths(x) <= RoundThousandths(y)
  {
    RoundHalfEvenMonotone(x * 1000.0, y * 1000.0);
  }

  ghost predicate WholeThousandths(x: real) {
    (x * 1000.0).Floor as real == x * 1000.0
  }

  lemma WholeThousandthsStay(x: real)
    requires WholeThousandths(x)
    ensures RoundThousandths(x) == x
  {
  }

  lemma RoundedIsWhole(x: real)
    ensures WholeThousandths(RoundThousandths(x))
  {
    ThousandthsAreWhole(RoundHalfEven(x * 1000.0));
  }

  lemma ThousandthsAreWhole(n: int)
    ensures WholeThousandths(n as real / 1000.0)
  {
    assert n as real / 1000.0 * 1000.0 == n as real;
  }

  lemma WholeDifference(x: real, y: real)
    requires WholeThousandths(x) && WholeThousandths(y)
    ensures WholeThousandths(x - y)
  {
    var a, b := (x * 1000.0).Floor, (y * 1000.0).Floor;
    assert (x - y) * 1000.0 == (a - b) as real;
  }

  /** `x` lies midway between two thousandths. */
  ghost predicate HalfThousandth(x: real) {
    WholeThousandths(x - 0.0005)
  }

  ghost predicate EvenThousandths(x: real) {
    (x * 1000.0).Floor % 2 == 0
  }

  /** Only from midway does rounding move a number by half a thousandth. */
  lemma HalfMoves(x: real)
    requires !HalfThousandth(x)
    ensures -0.0005 < RoundThousandths(x) - x < 0.0005
  {
    RoundedIsWhole(x);
    var r := RoundThousandths(x);
    if r - x == 0.0005 {
      WholeDifference(r, 0.001);
    }
  }

  lemma WholesApart(x: real, y: real)
    requires WholeThousandths(x) && WholeThousandths(y) && -0.001 < x - y < 0.001
    ensures x == y
  {
    var a, b := (x * 1000.0).Floor, (y * 1000.0).Floor;
    assert -1.0 < a as real - b as real < 1.0;
    assert a == b;
  }

  /** What lies within half a thousandth of a whole one is rounded to it, and what lies
      midway to the next only if it is even. */
  lemma RoundsToWhole(x: real, whole: real)
    requires WholeThousandths(whole) && -0.0005 <= x - whole <= 0.0005
    ensures RoundThousandths(x) == whole <==> -0.0005 < x - whole < 0.0005 || EvenThousandths(whole)
  {
    RoundsToInteger(x * 1000.0, (whole * 1000.0).Floor);
  }

  lemma RoundsToInteger(x: real, n: int)
    requires -0.5 <= x - n as real <= 0.5
    ensures RoundHalfEven(x) == n <==> -0.5 < x - n as real < 0.5 || n % 2 == 0
  {
  }

  /** Decimal's ROUND_HALF_UP: to the nearest integer, ties away from zero. */
  function RoundHalfUp(x: real): (r: int)
    ensures -0.5 <= r as real - x <= 0.5
    ensures x >= 0.0 ==> r as real - x > -0.5
  {
    if x >= 0.0 then (x + 0.5).Floor else -((0.5 - x).Floor)
  }

  /** Index of the first smallest entry. */
  function ArgMin(xs: seq<real>): (k: nat)
    requires xs != []
    ensures k < |xs|
    ensures forall i :: 0 <= i < |xs| ==> xs[k] <= xs[i]
    ensures forall i :: 0 <= i < k ==> xs[k] < xs[i]
  {
    if |xs| == 1 then 0 else
      var n := |xs| - 1;
      var k := ArgMin(xs[..n]);
      assert forall i :: 0 <= i < n ==> xs[..n][i] == xs[i];
      if xs[n] < xs[k] then n else k
  }

  /** Index of the first largest entry. */
  function ArgMax(xs: seq<real>): (k: nat)
    requires xs != []
    ensures k < |xs|
    ensures forall i :: 0 <= i < |xs| ==> xs[i] <= xs[k]
    ensures forall i :: 0 <= i < k ==> xs[i] < xs[k]
  {
    if |xs| == 1 then 0 else
      var n := |xs| - 1;
      var k := ArgMax(xs[..n]);
      assert forall i :: 0 <= i < n ==> xs[..n][i] == xs[i];
      if xs[k] < xs[n] then n else k
  }

  function Times(x: real, y: real): (p: real)
    ensures 0.0 < x && 0.0 < y ==> 0.0 < p
    ensures x < 0.0 && y < 0.0 ==> 0.0 < p
    ensures x == 0.0 || y == 0.0 ==> p == 0.0
  {
    x * y
  }

  function Squared(x: real): (q: real)
    ensures 0.0 <= q
    ensures q == 0.0 <==> x == 0.0
  {
    Times(x, x)
  }

  lemma TimesOne(x: real)
    ensures Times(1.0, x) == x
  {
  }

  lemma Scaled(s: real, x: real, y: real)
    requires 0.0 <= s && x <= y
    ensures Times(s, x) <= Times(s, y) && Times(x, s) <= Times(y, s)
  {
    TimesDistributes(s, y, x);
    assert 0.0 <= Times(s, y - x);
  }

  lemma TimesDistributes(s: real, x: real, y: real)
    ensures Times(s, x - y) == Times(s, x) - Times(s, y)
    ensures Times(s, x) == Times(x, s) && Times(s, y) == Times(y, s)
  {
  }

  lemma MulStrict(u: real, v: real, r: real)
    requires r > 0.0 && u < v
    ensures u * r < v * r
  {
  }

  lemma MulWeak(u: real, v: real, r: real)
    requires r > 0.0 && u <= v
    ensures u * r <= v * r
  {
  }
}
