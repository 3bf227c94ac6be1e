/** Python's round(x, 2), as University.add_edge applies it to edge costs, on exact reals. */
module Rounding {

  /** Round to the nearest integer, ties to the even neighbour (Python's rounding rule). */
  function RoundHalfEven(y: real): (k: int)
    ensures -0.5 <= k as real - y <= 0.5
    ensures (-0.5 < k as real - y < 0.5) || k % 2 == 0
  {
    var f := y.Floor;
    var frac := y - f as real;
    if frac < 0.5 then f
    else if frac > 0.5 then f + 1
    else if f % 2 == 0 then f
    else f + 1
  }

  /** round(x, 2): the multiple of 0.01 nearest to x, ties to even hundredths. */
  function Round2(x: real): (r: real)
    ensures (r * 100.0).Floor as real == r * 100.0
    ensures -0.005 <= r - x <= 0.005
    ensures -0.005 < r - x < 0.005 || (r * 100.0).Floor % 2 == 0
    ensures x >= 0.0 ==> r >= 0.0
  {
    var k := RoundHalfEven(x * 100.0);
    var r := k as real / 100.0;
    assert r * 100.0 == k as real;
    assert (r * 100.0).Floor == k;
    r
  }

  /** The three properties above single out one value: a whole number of hundredths within 0.005 of x, ties to even, is Round2(x). */
  lemma Round2Unique(x: real, k: int)
    requires -0.005 <= k as real / 100.0 - x <= 0.005
    requires -0.005 < k as real / 100.0 - x < 0.005 || k % 2 == 0
    ensures Round2(x) == k as real / 100.0
  {
    var y := x * 100.0;
    var j := RoundHalfEven(y);
    assert (j as real / 100.0) * 100.0 == j as real;
    assert -0.5 <= k as real - y <= 0.5;
    assert -0.5 < k as real - y < 0.5 || k % 2 == 0;
    assert j <= k + 1 && k <= j + 1;
    NotBothEven(j);
    NotBothEven(k);
  }

  /** Of two neighbouring integers only one is even. */
  lemma NotBothEven(a: int)
    ensures !(a % 2 == 0 && (a + 1) % 2 == 0)
  {
  }

  lemma RoundHalfEvenMonotone(a: real, b: real)
    requires a <= b
    ensures RoundHalfEven(a) <= RoundHalfEven(b)
  {
    var fa, fb := a.Floor, b.Floor;
    if fa < fb {
      assert RoundHalfEven(a) <= fa + 1 <= fb <= RoundHalfEven(b);
    }
  }

  /** Rounding keeps order, so a cost at or under a bound rounds to at most the rounded bound. */
  lemma Round2Monotone(x: real, y: real)
    requires x <= y
    ensures Round2(x) <= Round2(y)
  {
    RoundHalfEvenMonotone(x * 100.0, y * 100.0);
  }

  /** Values with at most two decimals are left unchanged. */
  lemma Round2Fixed(k: int)
    ensures Round2(k as real / 100.0) == k as real / 100.0
  {
    assert (k as real / 100.0) * 100.0 == k as real;
  }

  /** A cost under the bound can round to a value above it when the bound has three decimals. */
  lemma Round2CanExceedBound()
    ensures 5.006 <= 5.007 && Round2(5.006) == 5.01 && Round2(5.006) > 5.007
  {
    assert (5.006 * 100.0).Floor == 500;
  }
}
