/** Python 3's `round`: to the nearest integer, ties to the even one. Floats are exact reals here. */
module Rounding {

  function RoundHalfEven(x: real): int {
    var f := x.Floor;
    var d := x - f as real;
    if d < 0.5 then f
    else if d > 0.5 then f + 1
    else if f % 2 == 0 then f else f + 1
  }

  // Rounding to d decimals, where scale is 10 to the power d.
  function RoundTo(x: real, scale: real): real
    requires scale > 0.0
  {
    RoundHalfEven(x * scale) as real / scale
  }

  // A result k means x is within one half of k, and at a tie k is even.
  lemma RoundIsNearest(x: real)
    ensures -0.5 <= RoundHalfEven(x) as real - x <= 0.5
    ensures RoundHalfEven(x) as real - x in {-0.5, 0.5} ==> RoundHalfEven(x) % 2 == 0
  {
    var f := x.Floor;
    assert f as real <= x < f as real + 1.0;
  }

  // k is the whole number nearest to num / den, the even one of two equally near.
  ghost predicate NearestWhole(k: int, num: int, den: int) {
    -den <= 2 * (k * den - num) <= den && (2 * (k * den - num) in {-den, den} ==> k % 2 == 0)
  }

  // There is only one.
  lemma NearestWholeUnique(a: int, b: int, num: int, den: int)
    requires den > 0 && NearestWhole(a, num, den) && NearestWhole(b, num, den)
    ensures a == b
  {
    var x, y := a * den, b * den;
    assert -den <= x - y <= den;
    if a != b {
      OneApart(a, b, den);
    }
  }

  lemma OneApart(a: int, b: int, den: int)
    requires den > 0 && a != b && -den <= a * den - b * den <= den
    ensures (a == b + 1 && a * den == b * den + den) || (b == a + 1 && b * den == a * den + den)
  {
    var d := a - b;
    assert d * den == a * den - b * den;
    assert (d - 2) * den == d * den - 2 * den && (d + 2) * den == d * den + 2 * den;
  }

  // r is the multiple of 1 / scale nearest to x, the even one of two equally near.
  ghost predicate NearestDecimal(r: real, x: real, scale: real) {
    && r * scale == (r * scale).Floor as real
    && -0.5 <= r * scale - x * scale <= 0.5
    && (r * scale - x * scale in {-0.5, 0.5} ==> (r * scale).Floor % 2 == 0)
  }

  lemma RoundToIsNearest(x: real, scale: real)
    requires scale > 0.0
    ensures NearestDecimal(RoundTo(x, scale), x, scale)
  {
    RoundIsNearest(x * scale);
    assert RoundTo(x, scale) * scale == RoundHalfEven(x * scale) as real;
  }

  // The nearest integer is unique away from ties.
  lemma RoundUnique(x: real, k: int)
    requires -0.5 < k as real - x < 0.5
    ensures RoundHalfEven(x) == k
  {
    RoundIsNearest(x);
    var r := RoundHalfEven(x);
    assert -1.0 < (r - k) as real < 1.0;
  }

  lemma RoundMonotone(x: real, y: real)
    requires x <= y
    ensures RoundHalfEven(x) <= RoundHalfEven(y)
  {
    assert x.Floor <= y.Floor;
    if x.Floor == y.Floor {
    } else {
      assert x.Floor + 1 <= y.Floor;
    }
  }

  // Reflection in an even number commutes with rounding: what ties to even buys.
  lemma RoundReflects(c: int, x: real)
    requires c % 2 == 0
    ensures RoundHalfEven(c as real - x) == c - RoundHalfEven(x)
  {
    RoundIsNearest(x);
    RoundIsNearest(c as real - x);
    var r, q := RoundHalfEven(x), RoundHalfEven(c as real - x);
    assert -1.0 <= (q - (c - r)) as real <= 1.0;
  }

  lemma RoundTenthSign(x: real)
    ensures x >= 0.0 ==> RoundTo(x, 10.0) >= 0.0
    ensures x <= 0.0 ==> RoundTo(x, 10.0) <= 0.0
  {
    RoundUnique(0.0, 0);
    if x >= 0.0 {
      RoundMonotone(0.0, x * 10.0);
    } else {
      RoundMonotone(x * 10.0, 0.0);
    }
  }
}
