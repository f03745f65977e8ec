/** Rounding of real numbers as Python's `round(x)` on a NumPy float and
    NumPy's `x.round(places)` perform it: to the nearest integer, ties to even. */
module Rounding {

  /** `round(x)`: the nearest integer, and the even one of two equally near. */
  function RoundHalfEven(x: real): (n: int)
    ensures -0.5 <= x - n as real <= 0.5
    ensures (x - n as real == 0.5 || n as real - x == 0.5) ==> n % 2 == 0
  {
    var f := x.Floor;
    var d := x - f as real;
    if d < 0.5 then f
    else if d > 0.5 then f + 1
    else if f % 2 == 0 then f
    else f + 1
  }

  /** The two properties in RoundHalfEven's contract pin the result down:
      any integer that is as close to x and even on a tie is the same one. */
  lemma RoundHalfEvenUnique(x: real, m: int)
    requires -0.5 <= x - m as real <= 0.5
    requires (x - m as real == 0.5 || m as real - x == 0.5) ==> m % 2 == 0
    ensures m == RoundHalfEven(x)
  {
  }

  /** A value rounds to 0 exactly when it lies in [-1/2, 1/2]: both halves
      round to the even neighbour 0. */
  lemma RoundsToZeroIff(x: real)
    ensures RoundHalfEven(x) == 0 <==> -0.5 <= x <= 0.5
  {
    if -0.5 <= x <= 0.5 {
      RoundHalfEvenUnique(x, 0);
    }
  }

  /** 10^n. */
  function TenTo(n: nat): (p: real)
    ensures p >= 1.0
  {
    if n == 0 then 1.0 else 10.0 * TenTo(n - 1)
  }

  /** The number of units 10^-places in 1. A non-recursive name for TenTo:
      the lemmas below relate terms over `Pow10(places)`, and a
      non-recursive function unfolds to the same TenTo term wherever it
      appears, while a recursive one may unfold to different depths in a
      body and in its ensures. */
  function Pow10(places: nat): (p: real)
    ensures p >= 1.0
  {
    TenTo(places)
  }

  /** NumPy's `x.round(places)`: scale by 10^places, round half to even, scale
      back. The result is at most half a unit 10^-places away from x. */
  function RoundTo(x: real, places: nat): (r: real)
    ensures -0.5 <= (x - r) * Pow10(places) <= 0.5
  {
    var p := Pow10(places);
    var n := RoundHalfEven(x * p);
    assert (x - n as real / p) * p == x * p - n as real;
    n as real / p
  }

  /** The rounded value is a whole number of units 10^-places, and on a tie
      an even number of them. */
  lemma RoundToGrid(x: real, places: nat)
    ensures (RoundTo(x, places) * Pow10(places)).Floor as real == RoundTo(x, places) * Pow10(places)
    ensures ((x - RoundTo(x, places)) * Pow10(places) == 0.5 || (RoundTo(x, places) - x) * Pow10(places) == 0.5) ==>
      (RoundTo(x, places) * Pow10(places)).Floor % 2 == 0
  {
    RoundScaled(x * Pow10(places), Pow10(places), RoundTo(x, places));
    Distribute(x, RoundTo(x, places), Pow10(places));
    Distribute(RoundTo(x, places), x, Pow10(places));
  }

  /** Those three properties single out the rounded value. */
  lemma RoundToUnique(x: real, places: nat, s: real)
    requires (s * Pow10(places)).Floor as real == s * Pow10(places)
    requires -0.5 <= (x - s) * Pow10(places) <= 0.5
    requires ((x - s) * Pow10(places) == 0.5 || (s - x) * Pow10(places) == 0.5) ==>
      (s * Pow10(places)).Floor % 2 == 0
    ensures s == RoundTo(x, places)
  {
    var m := (s * Pow10(places)).Floor;
    Distribute(x, s, Pow10(places));
    Distribute(s, x, Pow10(places));
    RoundHalfEvenUnique(x * Pow10(places), m);
    Unscale(s, Pow10(places), m);
    SameQuotient(m, RoundHalfEven(x * Pow10(places)), Pow10(places));
  }

  lemma SameQuotient(m: int, n: int, p: real)
    requires m == n && p >= 1.0
    ensures m as real / p == n as real / p
  {
  }

  /** A value that is m units of 1/p is m / p. */
  lemma Unscale(s: real, p: real, m: int)
    requires p >= 1.0
    requires s * p == m as real
    ensures s == m as real / p
  {
  }

  /** y rounded half to even, in units of 1/p. */
  lemma RoundScaled(y: real, p: real, r: real)
    requires p >= 1.0
    requires r == RoundHalfEven(y) as real / p
    ensures (r * p).Floor as real == r * p
    ensures -0.5 <= y - r * p <= 0.5
    ensures (y - r * p == 0.5 || r * p - y == 0.5) ==> (r * p).Floor % 2 == 0
  {
    ScaleBack(RoundHalfEven(y), r, p);
  }

  /** n units of 1/p, scaled by p, are n. */
  lemma ScaleBack(n: int, r: real, p: real)
    requires p >= 1.0
    requires r == n as real / p
    ensures r * p == n as real
    ensures (r * p).Floor == n
  {
    calc {
      r * p;
      (n as real / p) * p;
      n as real;
    }
  }

  lemma Distribute(x: real, y: real, p: real)
    ensures (x - y) * p == x * p - y * p
  {
  }
}
