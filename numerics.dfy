/**
 * Python's integer division operators and its `round`, written out over Dafny's
 * unbounded integers and exact reals.  Dafny's `/` and `%` are Euclidean; for the
 * positive divisors used by the core they coincide with Python's `//` and `%`.
 */
module Numerics {

  /** A Python number: an `int`, or a float or Fraction taken at its exact value. */
  datatype Number = Int(i: int) | Float(x: real)

  /** Python `a // b` for a positive divisor: the quotient rounded towards minus infinity. */
  function FloorDiv(a: int, b: int): (q: int)
    requires b > 0
    ensures q * b <= a < q * b + b
  {
    a / b
  }

  /** Python `a % b` for a positive divisor: never negative, and `a` minus it is a multiple of `b`. */
  function FloorMod(a: int, b: int): (r: int)
    requires b > 0
    ensures 0 <= r < b
    ensures a == FloorDiv(a, b) * b + r
  {
    a % b
  }

  /** `int(a / b)` for a positive divisor, with the true division taken exactly: rounds towards zero. */
  function TruncDiv(a: int, b: int): (q: int)
    requires b > 0
    ensures a >= 0 ==> 0 <= q * b <= a < q * b + b
    ensures a < 0 ==> q * b - b < a <= q * b <= 0
  {
    if a >= 0 then
      TruncDivOfNonNegative(a, b, FloorDiv(a, b));
      FloorDiv(a, b)
    else
      TruncDivOfNegative(a, b, FloorDiv(-a, b), -FloorDiv(-a, b));
      -FloorDiv(-a, b)
  }

  lemma TruncDivOfNonNegative(a: int, b: int, q: int)
    requires b > 0 && a >= 0 && q == FloorDiv(a, b)
    ensures 0 <= q * b <= a < q * b + b
  {
  }

  lemma TruncDivOfNegative(a: int, b: int, p: int, q: int)
    requires b > 0 && a < 0 && p == FloorDiv(-a, b) && q == -p
    ensures q * b - b < a <= q * b <= 0
  {
    assert q * b == -(p * b);
  }

  /**
   * `r` is `n / d` rounded half to even: `r * d` is strictly less than half of `d` away
   * from `n`, or exactly half of `d` away with `r` even.
   */
  ghost predicate IsHalfEvenRounding(n: int, d: int, r: int)
    requires d > 0
  {
    var e := n - r * d;
    (-d < 2 * e < d) || ((2 * e == d || 2 * e == -d) && r % 2 == 0)
  }

  /** Python `round(n / d)` with the quotient taken exactly (banker's rounding). */
  function RoundHalfEven(n: int, d: int): (r: int)
    requires d > 0
    ensures IsHalfEvenRounding(n, d, r)
  {
    var q := FloorDiv(n, d);
    var m := n - q * d;
    assert (q + 1) * d == q * d + d;
    if 2 * m < d then q
    else if 2 * m > d then q + 1
    else if q % 2 == 0 then q
    else q + 1
  }

  /** At most one integer is the half-even rounding of `n / d`. */
  lemma HalfEvenRoundingUnique(n: int, d: int, r1: int, r2: int)
    requires d > 0
    requires IsHalfEvenRounding(n, d, r1) && IsHalfEvenRounding(n, d, r2)
    ensures r1 == r2
  {
    if r1 != r2 {
      var lo, hi := if r1 < r2 then r1 else r2, if r1 < r2 then r2 else r1;
      var elo, ehi := n - lo * d, n - hi * d;
      assert (hi - lo) * d == elo - ehi by { SubMul(hi, lo, d); }
      assert hi - lo == 1 ==> (hi - lo) * d == d;
      if hi - lo >= 2 {
        MulAtLeast(hi - lo, 2, d);
      }
    }
  }

  lemma SubMul(a: int, b: int, d: int)
    ensures (a - b) * d == a * d - b * d
  {
  }

  lemma MulAtLeast(k: int, m: int, d: int)
    requires k >= m && d > 0
    ensures k * d >= m * d
  {
  }

  /** Quotient and remainder are unique: `q * m + r` with `0 <= r < m` divides into `q` and `r`. */
  lemma DivModUnique(y: int, q: int, r: int, m: int)
    requires m > 0 && 0 <= r < m && y == q * m + r
    ensures y / m == q && y % m == r
  {
    var q2, r2 := y / m, y % m;
    assert (q - q2) * m == r2 - r by { SubMul(q, q2, m); }
    if q - q2 >= 1 {
      MulAtLeast(q - q2, 1, m);
    } else if q - q2 <= -1 {
      MulAtLeast(-1, q - q2, m);
    }
  }

  /** A multiple of `m` leaves no remainder, and dividing it by `m` gives back the factor. */
  lemma MulMod(c: int, m: int)
    requires m > 0
    ensures (c * m) % m == 0 && (c * m) / m == c
  {
    DivModUnique(c * m, c, 0, m);
  }

  /** Adding a multiple of `m` does not change the remainder. */
  lemma ModOfShift(x: int, k: int, m: int, y: int)
    requires m > 0 && y == x + k * m
    ensures y % m == x % m
  {
    assert y == (x / m + k) * m + x % m by { AddMul(x / m, k, m); }
    DivModUnique(y, x / m + k, x % m, m);
  }

  lemma AddMul(a: int, b: int, d: int)
    ensures (a + b) * d == a * d + b * d
  {
  }

  /** A multiple of `a * m` is a multiple of `m`. */
  lemma ModOfMultiple(x: int, a: int, m: int)
    requires a > 0 && m > 0 && x % (a * m) == 0
    ensures x % m == 0
  {
    var q := x / (a * m);
    assert x == (q * a) * m;
    MulMod(q * a, m);
  }

  /** A quotient strictly less than half of `d` away from `n / d` is its rounding. */
  lemma RoundHalfEvenIs(n: int, d: int, q: int)
    requires d > 0 && -d < 2 * (n - q * d) < d
    ensures RoundHalfEven(n, d) == q
  {
    HalfEvenRoundingUnique(n, d, q, RoundHalfEven(n, d));
  }

  /** Scaling numerator and denominator by the same positive factor does not change the rounding. */
  lemma RoundHalfEvenScale(n: int, d: int, c: int)
    requires d > 0 && c > 0
    ensures d * c > 0 && RoundHalfEven(n * c, d * c) == RoundHalfEven(n, d)
  {
    MulPositive(d, c);
    var q := RoundHalfEven(n, d);
    var e := n - q * d;
    ScaledError(n, q, d, c);
    HalfErrorScale(e, d, c);
    assert IsHalfEvenRounding(n * c, d * c, q);
    HalfEvenRoundingUnique(n * c, d * c, q, RoundHalfEven(n * c, d * c));
  }

  lemma MulPositive(d: int, c: int)
    requires d > 0 && c > 0
    ensures d * c > 0
  {
  }

  lemma ScaledError(n: int, q: int, d: int, c: int)
    ensures n * c - q * (d * c) == (n - q * d) * c
  {
  }

  /** A rounding error below, at or above half of `d` stays so when both are scaled by `c > 0`. */
  lemma HalfErrorScale(e: int, d: int, c: int)
    requires c > 0
    ensures -d < 2 * e ==> -(d * c) < 2 * (e * c)
    ensures 2 * e < d ==> 2 * (e * c) < d * c
    ensures 2 * e == d ==> 2 * (e * c) == d * c
    ensures 2 * e == -d ==> 2 * (e * c) == -(d * c)
  {
    if -d < 2 * e {
      assert 2 * (e * c) + d * c == (2 * e + d) * c;
      MulPositive(2 * e + d, c);
    }
    if 2 * e < d {
      assert d * c - 2 * (e * c) == (d - 2 * e) * c;
      MulPositive(d - 2 * e, c);
    }
  }

  /** Dividing a multiple of `d` by `d` is exact, so no rounding happens. */
  lemma RoundHalfEvenExact(k: int, d: int)
    requires d > 0
    ensures RoundHalfEven(k * d, d) == k
  {
    assert IsHalfEvenRounding(k * d, d, k);
    HalfEvenRoundingUnique(k * d, d, k, RoundHalfEven(k * d, d));
  }

  /** Python `round(x)` on an exact real: the nearest integer, ties to the even one. */
  function RoundReal(x: real): (r: int)
    ensures -1.0 <= 2.0 * (x - r as real) <= 1.0
    ensures 2.0 * (x - r as real) == 1.0 || 2.0 * (x - r as real) == -1.0 ==> r % 2 == 0
  {
    var f := x.Floor;
    var frac := x - f as real;
    if frac < 0.5 then f
    else if frac > 0.5 then f + 1
    else if f % 2 == 0 then f
    else f + 1
  }

  /** Python `round(n)` for an `int` or a real-valued number. */
  function Round(n: Number): (r: int)
    ensures n.Int? ==> r == n.i
    ensures n.Float? ==> -1.0 <= 2.0 * (n.x - r as real) <= 1.0
    ensures n.Float? && (2.0 * (n.x - r as real) == 1.0 || 2.0 * (n.x - r as real) == -1.0) ==> r % 2 == 0
  {
    match n
    case Int(i) => i
    case Float(x) => RoundReal(x)
  }
}
