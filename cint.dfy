/**
 * C's integer division and remainder.
 *
 * C rounds the quotient toward zero, Dafny's `/` and `%` are Euclidean.
 * Every divisor in the modelled code is a positive constant (4, 5, 12, 60, 73),
 * so only positive divisors are modelled.
 */
module CInt {

  /** C's `a / b` for `b > 0`: the quotient truncated toward zero. */
  function CDiv(a: int, b: int): (q: int)
    requires b > 0
    ensures a >= 0 ==> q >= 0 && b * q <= a < b * q + b
    ensures a < 0 ==> q <= 0 && b * q - b < a <= b * q
  {
    if a >= 0 then
      EuclideanBounds(a, b);
      a / b
    else
      EuclideanBounds(-a, b);
      var p := (-a) / b;
      assert b * -p == -(b * p);
      -p
  }

  /** Dafny's quotient of a non-negative number by a positive one. */
  lemma EuclideanBounds(a: int, b: int)
    requires a >= 0 && b > 0
    ensures a / b >= 0 && b * (a / b) <= a < b * (a / b) + b
  {
    var q, r := a / b, a % b;
    assert a == b * q + r && 0 <= r < b;
    if q < 0 {
      ProductNegative(b, q);
    }
  }

  lemma ProductNegative(b: int, q: int)
    requires b > 0 && q < 0
    ensures b * q <= -b
    decreases -q
  {
    assert b * q == -b + b * (q + 1);
    if q + 1 < 0 {
      ProductNegative(b, q + 1);
    }
  }

  /** C's `a % b` for `b > 0`: what is left after `CDiv`; it takes the sign of `a`. */
  function CRem(a: int, b: int): (r: int)
    requires b > 0
    ensures a == b * CDiv(a, b) + r
    ensures a >= 0 ==> 0 <= r < b
    ensures a < 0 ==> -b < r <= 0
  {
    a - b * CDiv(a, b)
  }

  /** On non-negative operands C and Dafny agree. */
  lemma NonNegativeAgrees(a: int, b: int)
    requires a >= 0 && b > 0
    ensures CDiv(a, b) == a / b && CRem(a, b) == a % b
  {
  }

  /** `x % 4 == 0` tests divisibility by four in C as in Dafny, negative `x` included. */
  lemma DivisibleByFourAgrees(a: int)
    ensures CRem(a, 4) == 0 <==> a % 4 == 0
  {
  }
}
