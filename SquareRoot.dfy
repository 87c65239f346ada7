/**
 The real square root, as the ranking uses it for column norms and for
 Euclidean distances. Dafny's `real` has no square root, so every operation
 that needs one receives it as a parameter `sqrt` and requires `IsSqrt(sqrt)`:
 on the non-negative reals it returns the non-negative number whose square is
 its argument. `SqrtUnique` shows that this pins `sqrt` down completely there.
 */
module SquareRoot {

  /** `sqrt` is the non-negative square root on the non-negative reals. */
  ghost predicate IsSqrt(sqrt: real -> real) {
    && (forall x: real {:trigger sqrt(x)} :: 0.0 <= x ==> 0.0 <= sqrt(x))
    && (forall x: real {:trigger Square(sqrt(x))} :: 0.0 <= x ==> Square(sqrt(x)) == x)
  }

  function Abs(x: real): (r: real)
    ensures 0.0 <= r && (r == x || r == -x)
  {
    if x < 0.0 then -x else x
  }

  function Square(x: real): (r: real)
    ensures 0.0 <= r
  {
    x * x
  }

  lemma SquareOfProduct(x: real, k: real)
    ensures Square(x * k) == Square(k) * Square(x)
  {
  }

  /** Squaring is strictly increasing on the non-negative reals. */
  lemma SquareStrictlyIncreasing(a: real, b: real)
    requires 0.0 <= a < b
    ensures a * a < b * b
  {
    var d := b - a;
    assert 0.0 <= a * d;
    assert 0.0 < b * d;
    assert b * b - a * a == a * d + b * d;
  }

  /** Two non-negative reals with the same square are equal. */
  lemma SquareInjective(a: real, b: real)
    requires 0.0 <= a && 0.0 <= b && a * a == b * b
    ensures a == b
  {
    if a < b {
      SquareStrictlyIncreasing(a, b);
    } else if b < a {
      SquareStrictlyIncreasing(b, a);
    }
  }

  /** Only zero squares to zero. */
  lemma SquareZero(x: real)
    requires Square(x) == 0.0
    ensures x == 0.0
  {
    if x != 0.0 {
      assert Abs(x) * Abs(x) == x * x;
      SquareStrictlyIncreasing(0.0, Abs(x));
    }
  }

  /** A real whose square is at most 1 lies in [-1, 1]. */
  lemma SquareAtMostOne(x: real)
    requires Square(x) <= 1.0
    ensures -1.0 <= x <= 1.0
  {
  }

  /** The square root squares back to its argument. */
  lemma SqrtSquared(sqrt: real -> real, x: real)
    requires IsSqrt(sqrt) && 0.0 <= x
    ensures 0.0 <= sqrt(x) && sqrt(x) * sqrt(x) == x
  {
    assert Square(sqrt(x)) == x;
  }

  /** Any two functions satisfying `IsSqrt` agree on every non-negative real. */
  lemma SqrtUnique(sqrt1: real -> real, sqrt2: real -> real, x: real)
    requires IsSqrt(sqrt1) && IsSqrt(sqrt2) && 0.0 <= x
    ensures sqrt1(x) == sqrt2(x)
  {
    SqrtSquared(sqrt1, x);
    SqrtSquared(sqrt2, x);
    SquareInjective(sqrt1(x), sqrt2(x));
  }

  /** The square root vanishes exactly at zero. */
  lemma SqrtZeroIff(sqrt: real -> real, x: real)
    requires IsSqrt(sqrt) && 0.0 <= x
    ensures sqrt(x) == 0.0 <==> x == 0.0
  {
    SqrtSquared(sqrt, x);
    if x == 0.0 {
      SquareInjective(sqrt(x), 0.0);
    }
  }

  /** The square root is monotonic. */
  lemma SqrtMonotonic(sqrt: real -> real, x: real, y: real)
    requires IsSqrt(sqrt) && 0.0 <= x <= y
    ensures sqrt(x) <= sqrt(y)
  {
    SqrtSquared(sqrt, x);
    SqrtSquared(sqrt, y);
    if sqrt(y) < sqrt(x) {
      SquareStrictlyIncreasing(sqrt(y), sqrt(x));
    }
  }

  /** A non-negative factor squared comes out of the square root unchanged. */
  lemma SqrtScale(sqrt: real -> real, c: real, x: real)
    requires IsSqrt(sqrt) && 0.0 <= c && 0.0 <= x
    ensures sqrt(Square(c) * x) == c * sqrt(x)
  {
    var s := sqrt(x);
    SqrtSquared(sqrt, x);
    assert (c * s) * (c * s) == c * c * (s * s);
    assert 0.0 <= c * s;
    assert 0.0 <= Square(c) * x;
    SqrtSquared(sqrt, Square(c) * x);
    SquareInjective(sqrt(Square(c) * x), c * s);
  }
}
