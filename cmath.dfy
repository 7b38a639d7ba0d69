/** The two real-to-integer conversions of C that the bar builder relies on,
    stated over exact reals (floating-point rounding error is not modelled). */
module CMath {

  /** Conversion of a floating value to an integer type: the fractional part is
      discarded, that is, the value is truncated toward zero (ISO C11 section 6.3.1.4). */
  function Trunc(x: real): (r: int)
    ensures 0.0 <= x ==> r as real <= x < r as real + 1.0
    ensures x < 0.0 ==> r as real - 1.0 < x <= r as real
  {
    if 0.0 <= x then x.Floor else -((-x).Floor)
  }

  /** `round`: the nearest integer, halfway cases rounded away from zero
      (ISO C11 section 7.12.9.6). */
  function Round(x: real): (r: int)
    ensures 0.0 <= x ==> x - 0.5 < r as real <= x + 0.5
    ensures x < 0.0 ==> x - 0.5 <= r as real < x + 0.5
  {
    if 0.0 <= x then (x + 0.5).Floor else -((-x + 0.5).Floor)
  }

  lemma TruncMonotone(x: real, y: real)
    requires x <= y
    ensures Trunc(x) <= Trunc(y)
  {
  }

  lemma RoundMonotone(x: real, y: real)
    requires x <= y
    ensures Round(x) <= Round(y)
  {
  }

  /** Exactly the halfway points are where `Round` and truncation of `x + 0.5` may differ:
      a tie rounds away from zero. */
  lemma RoundHalfway(n: int)
    ensures Round(n as real + 0.5) == (if 0 <= n then n + 1 else n)
  {
  }

  /** Rounding gives at most zero exactly below one half, and keeps a value
      inside an integer range inside it. */
  lemma RoundBounds(x: real, n: int)
    ensures Round(x) <= 0 <==> x < 0.5
    ensures n as real <= x ==> n <= Round(x)
    ensures 0.0 <= x <= n as real ==> 0 <= Round(x) <= n
  {
  }

  /** Scaling then dividing is scaling the quotient. */
  lemma MulDiv(l: real, a: real, b: real)
    requires b != 0.0
    ensures l * a / b == l * (a / b)
  {
    var q := a / b;
    assert q * b == a;
    assert l * a == (l * q) * b;
  }

  /** Equal ratios stay equal when scaled by the same factor. */
  lemma ScaledRatio(l: real, a: real, b: real, a': real, b': real)
    requires b != 0.0 && b' != 0.0 && a / b == a' / b'
    ensures l * a / b == l * a' / b'
  {
    MulDiv(l, a, b);
    MulDiv(l, a', b');
  }
}
