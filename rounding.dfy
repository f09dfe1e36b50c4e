/** Python's built-in `round`, taken on the exact rational value of its argument.
    Within the device's ranges (brightness 0-255 and 0-100, 2600-6000 K,
    167-385 mireds) every quotient the light integration rounds is either an
    exact tie that binary floating point represents exactly, or lies far enough
    from a tie that the floating-point error cannot change the result, so exact
    rationals are a faithful model there. Far outside them, for example a
    brightness near 10^17, a double can no longer hold the quotient exactly and
    Python's result may differ from this one. */
module Rounding {

  function Abs(x: int): nat
  {
    if x < 0 then -x else x
  }

  /** r is an integer nearest to n / d, and an even one when n / d lies exactly
      half-way between two integers: the definition of round-half-to-even. */
  predicate IsHalfEvenRounding(n: int, d: int, r: int)
    requires d != 0
  {
    2 * Abs(n - r * d) <= Abs(d) &&
    (2 * Abs(n - r * d) == Abs(d) ==> r % 2 == 0)
  }

  /** round(n / d) for a positive divisor: floor division, then a look at the remainder. */
  function RoundPositive(n: int, d: int): (r: int)
    requires d > 0
    ensures IsHalfEvenRounding(n, d, r)
  {
    var q, m := n / d, n % d;
    assert n - q * d == m;
    assert n - (q + 1) * d == m - d;
    if 2 * m < d then q
    else if 2 * m > d then q + 1
    else if q % 2 == 0 then q
    else q + 1
  }

  /** Python's `round(n / d)`: the nearest integer, ties to the even neighbour. */
  function RoundHalfEven(n: int, d: int): (r: int)
    requires d != 0
    ensures IsHalfEvenRounding(n, d, r)
  {
    if d > 0 then RoundPositive(n, d)
    else
      var r := RoundPositive(-n, -d);
      assert -n - r * -d == -(n - r * d);
      r
  }

  lemma AbsOfProduct(k: int, d: int)
    ensures Abs(k * d) == Abs(k) * Abs(d)
  {
    if k < 0 && d < 0 { assert k * d == (-k) * (-d); }
    else if k < 0 { assert -(k * d) == (-k) * d; }
    else if d < 0 { assert -(k * d) == k * (-d); }
  }

  lemma AtLeastTwice(w: int, e: int)
    requires w >= 2 && e > 0
    ensures w * e >= 2 * e
  {
    assert w * e == 2 * e + (w - 2) * e;
  }

  /** Two integers both within half of |d| of n / d differ by at most one, and
      by exactly one only when both are at exactly half the distance. */
  lemma NeighbourGap(x: int, y: int, k: int, d: int)
    requires d != 0 && x - y == k * d
    requires 2 * Abs(x) <= Abs(d) && 2 * Abs(y) <= Abs(d)
    ensures k == 0 || ((k == 1 || k == -1) && 2 * Abs(x) == Abs(d) && 2 * Abs(y) == Abs(d))
  {
    AbsOfProduct(k, d);
    if Abs(k) >= 2 {
      AtLeastTwice(Abs(k), Abs(d));
    }
  }

  lemma Distribute(s: int, r: int, d: int)
    ensures (s - r) * d == s * d - r * d
  {
  }

  /** The half-even rounding of a quotient is unique: any r that meets the
      definition is the value Python's `round` returns. */
  lemma HalfEvenRoundingUnique(n: int, d: int, r: int)
    requires d != 0 && IsHalfEvenRounding(n, d, r)
    ensures RoundHalfEven(n, d) == r
  {
    var s := RoundHalfEven(n, d);
    var x, y := n - r * d, n - s * d;
    Distribute(s, r, d);
    NeighbourGap(x, y, s - r, d);
  }

  /** When n / d is strictly closer than one half to r, r is the rounding:
      no tie can occur. */
  lemma RoundsTo(n: int, d: int, r: int)
    requires d != 0 && 2 * Abs(n - r * d) < Abs(d)
    ensures RoundHalfEven(n, d) == r
  {
    HalfEvenRoundingUnique(n, d, r);
  }

  lemma MulMonotone(a: int, b: int, d: int)
    requires a <= b && d > 0
    ensures a * d <= b * d
  {
    assert b * d - a * d == (b - a) * d;
  }

  /** A quotient strictly between lo - 1/2 and hi + 1/2 rounds into [lo, hi]. */
  lemma RoundedBetween(n: int, d: int, lo: int, hi: int)
    requires d > 0
    requires (2 * lo - 1) * d < 2 * n && 2 * n < (2 * hi + 1) * d
    ensures lo <= RoundHalfEven(n, d) <= hi
  {
    var r := RoundHalfEven(n, d);
    if r < lo {
      MulMonotone(r, lo - 1, d);
    }
    if r > hi {
      MulMonotone(hi + 1, r, d);
    }
  }
}
