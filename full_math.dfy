/**
  Multiply-then-divide with the product kept exact (utils/full_math.go), and
  the smaller root of the quadratic a*x^2 - 2*b*x + c = 0.

  The model assumes the Go integer type does not wrap, so the product is
  taken to be exact and no 512-bit step is modelled. A zero divisor makes
  the Go code panic; here it is a precondition.
*/
module FullMath {
  import opened Arith

  /** `MulDiv`: the Euclidean quotient of the exact product (floor for d > 0). */
  function MulDiv(a: int, b: int, d: int): (r: int)
    requires d != 0
    ensures d > 0 ==> r * d <= a * b < r * d + d
  {
    (a * b) / d
  }

  /** `MulDivRoundingUp`: the quotient, plus one when the division is inexact. */
  function MulDivRoundingUp(a: int, b: int, d: int): (r: int)
    requires d != 0
    ensures d > 0 ==> (r - 1) * d < a * b <= r * d
  {
    var product := a * b;
    var q := product / d;
    RemZeroIff(product, d);
    if Rem(product, d) != 0 then q + 1 else q
  }

  /**
    `MulDivRoundingDown`: the product divided with truncation toward zero:
    the magnitude is the floor of the magnitudes and the sign is that of
    the exact quotient.
  */
  function MulDivRoundingDown(a: int, b: int, d: int): (r: int)
    requires d != 0
    ensures Abs(r) * Abs(d) <= Abs(a * b) < Abs(r) * Abs(d) + Abs(d)
    ensures (a * b >= 0) == (d > 0) ==> r >= 0
    ensures (a * b >= 0) != (d > 0) ==> r <= 0
    ensures a * b >= 0 && d > 0 ==> r == MulDiv(a, b, d)
  {
    QuoBounds(a * b, d);
    Quo(a * b, d)
  }

  lemma QuoBounds(x: int, y: int)
    requires y != 0
    ensures Abs(Quo(x, y)) * Abs(y) <= Abs(x) < Abs(Quo(x, y)) * Abs(y) + Abs(y)
  {
    var m := Abs(x) / Abs(y);
    assert Abs(Quo(x, y)) == m;
  }

  /** Rounding up adds exactly one to the floor when, and only when, d does not divide a*b. */
  lemma RoundingUpIsFloorPlusRemainder(a: int, b: int, d: int)
    requires d != 0
    ensures (a * b) % d != 0 ==> MulDivRoundingUp(a, b, d) == MulDiv(a, b, d) + 1
    ensures (a * b) % d == 0 ==> MulDivRoundingUp(a, b, d) == MulDiv(a, b, d)
  {
    RemZeroIff(a * b, d);
  }

  /** Non-negative factors over a positive divisor give a non-negative quotient. */
  lemma MulDivNonneg(a: int, b: int, d: int)
    requires a >= 0 && b >= 0 && d > 0
    ensures MulDiv(a, b, d) >= 0
  {
    MulNonneg(a, b);
  }

  /** The same holds when rounding up. */
  lemma MulDivRoundingUpNonneg(a: int, b: int, d: int)
    requires a >= 0 && b >= 0 && d > 0
    ensures MulDivRoundingUp(a, b, d) >= 0
  {
    MulNonneg(a, b);
    var r := MulDivRoundingUp(a, b, d);
    if r < 0 {
      MulMonotone(d, r, -1);
    }
  }

  /** For a positive divisor the two roundings bracket the exact product. */
  lemma RoundingsBracketProduct(a: int, b: int, d: int)
    requires d > 0
    ensures MulDiv(a, b, d) * d <= a * b <= MulDivRoundingUp(a, b, d) * d
    ensures MulDivRoundingUp(a, b, d) - MulDiv(a, b, d) <= 1
  {
    RemZeroIff(a * b, d);
  }

  /** For a positive divisor, rounding up is the ceiling of the exact quotient. */
  lemma RoundingUpIsCeil(a: int, b: int, d: int)
    requires d > 0
    ensures MulDivRoundingUp(a, b, d) == CeilDiv(a * b, d)
  {
    RemZeroIff(a * b, d);
  }

  /**
    `GetSmallerRootOfQuadEqn`: (b - Sqrt(b*b - a*c)) / a. The Go code panics
    when a == 0 or the discriminant is negative.
  */
  function GetSmallerRootOfQuadEqn(a: int, b: int, c: int): (r: int)
    requires a != 0 && b * b - a * c >= 0
    ensures a > 0 ==> r * a <= b - Isqrt(b * b - a * c) < r * a + a
  {
    (b - Isqrt(b * b - a * c)) / a
  }

  /**
    With a > 0, b > 0 and c >= 0 the root lies between 0 and b / a: the
    square root of the discriminant never exceeds b.
  */
  lemma SmallerRootBounds(a: int, b: int, c: int)
    requires a > 0 && b > 0 && c >= 0 && b * b >= a * c
    ensures 0 <= GetSmallerRootOfQuadEqn(a, b, c) <= b / a
  {
    var disc := b * b - a * c;
    var s := Isqrt(disc);
    MulNonneg(a, c);
    assert s <= b by {
      if s > b {
        SquareMonotone(b + 1, s);
      }
    }
    DivMonotone(b - s, b, a);
    DivUnique(0, a, 0, 0);
    DivMonotone(0, b - s, a);
  }

  /** Without a constant term the smaller root is 0. */
  lemma SmallerRootOfZeroConstant(a: int, b: int)
    requires a > 0 && b >= 0
    ensures GetSmallerRootOfQuadEqn(a, b, 0) == 0
  {
    IsqrtUnique(b * b, b);
    DivUnique(0, a, 0, 0);
  }
}
