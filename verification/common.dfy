/** Small shared vocabulary: optional values, results, clamping, the C#
    integer division that truncates toward zero, and .NET's default
    `Math.Round` (round half to even). */
module Common {

  datatype Option<+T> = None | Some(value: T)

  /** A computation that either returns a value or throws an exception. */
  datatype Result<+R, +E> = Success(value: R) | Failure(error: E)

  function Max(a: int, b: int): int
  {
    if a < b then b else a
  }

  function MaxReal(a: real, b: real): real
  {
    if a < b then b else a
  }

  /** `Math.Clamp` on integers: the bounds are always constants with lo <= hi in the program. */
  function Clamp(v: int, lo: int, hi: int): (r: int)
    requires lo <= hi
    ensures lo <= r <= hi
    ensures lo <= v <= hi ==> r == v
    ensures v < lo ==> r == lo
    ensures v > hi ==> r == hi
  {
    if v < lo then lo else if v > hi then hi else v
  }

  /** `Math.Clamp` on doubles, modelled as reals. */
  function ClampReal(v: real, lo: real, hi: real): (r: real)
    requires lo <= hi
    ensures lo <= r <= hi
    ensures lo <= v <= hi ==> r == v
    ensures v < lo ==> r == lo
    ensures v > hi ==> r == hi
  {
    if v < lo then lo else if v > hi then hi else v
  }

  /** C# `a / b` for b > 0: the quotient truncated toward zero. The remainder
      it leaves is smaller than b in magnitude and carries the sign of a. */
  function TruncDiv(a: int, b: int): (q: int)
    requires b > 0
    ensures -b < a - q * b < b
    ensures a >= 0 ==> a - q * b >= 0
    ensures a <= 0 ==> a - q * b <= 0
  {
    if a >= 0 then a / b else -((-a) / b)
  }

  /** C# `a % b` for b > 0: the remainder of the truncating division. */
  function TruncMod(a: int, b: int): (m: int)
    requires b > 0
    ensures -b < m < b
    ensures a == TruncDiv(a, b) * b + m
  {
    a - TruncDiv(a, b) * b
  }

  /** `Math.Round(x)` with the default mode: the nearest integer, ties to the even one. */
  function RoundHalfEven(x: real): (r: int)
    ensures -0.5 <= r as real - x <= 0.5
    ensures r as real - x == 0.5 || x - r as real == 0.5 ==> r % 2 == 0
  {
    var f := x.Floor;
    var frac := x - f as real;
    if frac < 0.5 then f
    else if frac > 0.5 then f + 1
    else if f % 2 == 0 then f
    else f + 1
  }

  /** Euclidean division is determined by its defining equation. */
  lemma DivUnique(a: int, b: int, q: int, r: int)
    requires b > 0 && a == q * b + r && 0 <= r < b
    ensures a / b == q && a % b == r
  {
    var q0, r0 := a / b, a % b;
    assert a == q0 * b + r0;
    if q0 < q {
      assert (q - q0) * b >= b by { MulAtLeast(q - q0, b); }
      assert false;
    } else if q0 > q {
      assert (q0 - q) * b >= b by { MulAtLeast(q0 - q, b); }
      assert false;
    }
  }

  lemma MulAtLeast(k: int, b: int)
    requires k >= 1 && b > 0
    ensures k * b >= b
  {
  }

  lemma MulMonotone(a: int, b: int, k: int)
    requires a <= b && k >= 0
    ensures a * k <= b * k
  {
  }

  /** Scaling dividend and divisor by the same factor keeps the quotient. */
  lemma DivScale(a: int, b: int, k: int)
    requires a >= 0 && b > 0 && k > 0
    ensures (a * k) / (b * k) == a / b
  {
    var q, r := a / b, a % b;
    assert a * k == q * (b * k) + r * k;
    assert 0 <= r * k < b * k;
    DivUnique(a * k, b * k, q, r * k);
  }

  /** Dividing twice is dividing by the product. */
  lemma DivDiv(a: int, b: int, c: int)
    requires a >= 0 && b > 0 && c > 0
    ensures (a / b) / c == a / (b * c)
  {
    var q, r := a / (b * c), a % (b * c);
    assert a == q * (b * c) + r;
    var r1, r2 := r / b, r % b;
    assert r == r1 * b + r2;
    assert 0 <= r1 < c by {
      if r1 >= c {
        MulMonotone(c, r1, b);
      }
    }
    assert a == (q * c + r1) * b + r2;
    DivUnique(a, b, q * c + r1, r2);
    DivUnique(a / b, c, q, r1);
  }

  /** The remainder modulo a multiple is a remainder modulo the factor as well. */
  lemma ModMod(a: int, b: int, c: int)
    requires a >= 0 && b > 0 && c > 0
    ensures (a / b) % c == (a % (b * c)) / b
  {
    var q, r := a / (b * c), a % (b * c);
    assert a == q * (b * c) + r;
    var r1, r2 := r / b, r % b;
    assert r == r1 * b + r2;
    assert 0 <= r1 < c by {
      if r1 >= c {
        MulMonotone(c, r1, b);
      }
    }
    assert a == (q * c + r1) * b + r2;
    DivUnique(a, b, q * c + r1, r2);
    DivUnique(a / b, c, q, r1);
  }

  /** Rounding leaves integers alone. */
  lemma RoundOfInteger(n: int)
    ensures RoundHalfEven(n as real) == n
  {
    assert (n as real).Floor == n;
  }

  /** Rounding is monotone. */
  lemma RoundMonotone(x: real, y: real)
    requires x <= y
    ensures RoundHalfEven(x) <= RoundHalfEven(y)
  {
    var fx, fy := x.Floor, y.Floor;
    assert fx <= fy;
    if fx < fy {
      assert RoundHalfEven(x) <= fx + 1 <= fy <= RoundHalfEven(y);
    } else {
      assert x - fx as real <= y - fy as real;
    }
  }
}
