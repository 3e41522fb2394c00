/**
  Integer arithmetic of the `int256` library the Go code uses, stated over
  Dafny's unbounded `int`. That library is not part of this model; the
  model assumes its integers do not wrap.

  - `Div` of the library is Euclidean, which is Dafny's own `/` and `%`.
  - `Quo` and `Rem` truncate toward zero; they are `Quo` and `Rem` below.
  - `Rsh` is an arithmetic shift, i.e. floor division by a power of two.
  - `Lsh` multiplies by a power of two.
  - `And` with 2^256 - 1 keeps the low 256 bits of the two's-complement
    representation, which is `% Pow256` for every integer.
  - `Or` is the two's-complement bitwise or, `Or` below.
  - `Sqrt` is the floor square root of a non-negative integer, `Isqrt` below.
*/
module Arith {

  const Q32: nat := 0x1_0000_0000
  const Q64: nat := 0x1_0000_0000_0000_0000
  const Q96: nat := 0x1_0000_0000_0000_0000_0000_0000
  const Q127: nat := 0x8000_0000_0000_0000_0000_0000_0000_0000
  const Q128: nat := 0x1_0000_0000_0000_0000_0000_0000_0000_0000
  const Q192: nat := 0x1_0000_0000_0000_0000_0000_0000_0000_0000_0000_0000_0000_0000
  const Pow256: nat := 0x1_0000_0000_0000_0000_0000_0000_0000_0000_0000_0000_0000_0000_0000_0000_0000_0000
  const MaxUint256: nat := Pow256 - 1

  function Pow2(n: nat): (r: nat)
    ensures r >= 1
  {
    if n == 0 then 1 else 2 * Pow2(n - 1)
  }

  lemma {:induction false} Pow2Add(a: nat, b: nat)
    ensures Pow2(a + b) == Pow2(a) * Pow2(b)
  {
    if a > 0 {
      Pow2Add(a - 1, b);
      calc {
        Pow2(a + b);
        2 * Pow2(a - 1 + b);
        2 * (Pow2(a - 1) * Pow2(b));
        (2 * Pow2(a - 1)) * Pow2(b);
      }
    }
  }

  lemma Pow2Monotone(a: nat, b: nat)
    requires a <= b
    ensures Pow2(a) <= Pow2(b)
  {
    Pow2Add(a, b - a);
    assert Pow2(b) == Pow2(a) * Pow2(b - a);
  }

  /** The fixed-point scales are the powers of two their names say. */
  lemma Pow2Scales()
    ensures Pow2(32) == Q32 && Pow2(64) == Q64 && Pow2(96) == Q96
    ensures Pow2(127) == Q127 && Pow2(128) == Q128 && Pow2(192) == Q192
    ensures Pow2(256) == Pow256
  {
    Pow2Of32();
    Pow2Of64();
    Pow2Of96();
    Pow2Of128();
    Pow2Of192();
    Pow2Of256();
  }

  lemma Pow2Of32()
    ensures Pow2(32) == Q32
  {
    assert Pow2(8) == 0x100;
    assert Pow2(16) == 0x1_0000 by { Pow2Add(8, 8); }
    Pow2Add(16, 16);
  }

  lemma Pow2Of64()
    ensures Pow2(64) == Q64
  {
    Pow2Of32();
    Pow2Add(32, 32);
  }

  lemma Pow2Of96()
    ensures Pow2(96) == Q96
  {
    Pow2Of32();
    Pow2Of64();
    Pow2Add(64, 32);
  }

  lemma Pow2Of128()
    ensures Pow2(128) == Q128 && Pow2(127) == Q127
  {
    Pow2Of64();
    Pow2Add(64, 64);
    assert Pow2(128) == 2 * Pow2(127);
  }

  lemma Pow2Of192()
    ensures Pow2(192) == Q192
  {
    Pow2Of64();
    Pow2Of128();
    Pow2Add(128, 64);
  }

  lemma Pow2Of256()
    ensures Pow2(256) == Pow256
  {
    Pow2Of128();
    Pow2Add(128, 128);
  }

  lemma MulNonneg(a: int, b: int)
    requires a >= 0 && b >= 0
    ensures a * b >= 0
  {
  }

  /** Multiplying by a non-negative factor keeps the order. */
  lemma MulMonotone(a: int, b: int, c: int)
    requires a >= 0 && b <= c
    ensures a * b <= a * c
  {
    MulNonneg(a, c - b);
    assert a * (c - b) == a * c - a * b;
  }

  /** Nested floor divisions by positive divisors collapse into one. */
  lemma DivDiv(x: int, a: int, b: int)
    requires a > 0 && b > 0
    ensures (x / a) / b == x / (a * b)
  {
    var q := x / a;
    var s := q / b;
    var t := q % b;
    assert x == a * q + x % a;
    assert q == b * s + t;
    assert a * q == (a * b) * s + a * t by {
      assert a * (b * s + t) == a * (b * s) + a * t;
    }
    assert 0 <= a * t <= a * (b - 1) by {
      MulNonneg(a, t);
      MulMonotone(a, t, b - 1);
    }
    assert a * (b - 1) == a * b - a;
    DivUnique(x, a * b, s, a * t + x % a);
  }

  /** The quotient is determined by the division identity and the remainder bound. */
  lemma DivUnique(x: int, d: int, q: int, r: int)
    requires d > 0 && x == d * q + r && 0 <= r < d
    ensures x / d == q && x % d == r
  {
    var q' := x / d;
    var r' := x % d;
    assert x == d * q' + r';
    if q' < q {
      assert d * (q' + 1) == d * q' + d;
      MulMonotone(d, q' + 1, q);
    } else if q' > q {
      assert d * (q + 1) == d * q + d;
      MulMonotone(d, q + 1, q');
    }
  }

  /** Floor division by a positive divisor keeps the order. */
  lemma DivMonotone(x: int, y: int, d: int)
    requires d > 0 && x <= y
    ensures x / d <= y / d
  {
    if x / d > y / d {
      MulMonotone(d, y / d + 1, x / d);
    }
  }

  /** The floor of x / d characterised by bounds. */
  lemma FloorDivBounds(x: int, d: int)
    requires d > 0
    ensures (x / d) * d <= x < (x / d) * d + d
  {
  }

  /** Ceiling division by a positive divisor. */
  function CeilDiv(x: int, d: int): (q: int)
    requires d > 0
    ensures (q - 1) * d < x <= q * d
  {
    if x % d != 0 then x / d + 1 else x / d
  }

  lemma CeilIsNegatedFloor(x: int, d: int)
    requires d > 0
    ensures CeilDiv(x, d) == -((-x) / d)
  {
    var q := CeilDiv(x, d);
    DivUnique(-x, d, -q, q * d - x);
  }

  /** Nested ceiling divisions by positive divisors collapse into one. */
  lemma CeilDivCeilDiv(x: int, a: int, b: int)
    requires a > 0 && b > 0
    ensures CeilDiv(CeilDiv(x, a), b) == CeilDiv(x, a * b)
  {
    CeilIsNegatedFloor(x, a);
    CeilIsNegatedFloor(CeilDiv(x, a), b);
    CeilIsNegatedFloor(x, a * b);
    DivDiv(-x, a, b);
  }

  /** Truncated (toward zero) quotient: the library's `Quo`. */
  function Quo(x: int, y: int): (q: int)
    requires y != 0
    ensures x >= 0 && y > 0 ==> q == x / y
    ensures (x >= 0) == (y > 0) ==> q >= 0
    ensures (x >= 0) != (y > 0) ==> q <= 0
  {
    var m := Abs(x) / Abs(y);
    assert m >= 0 by {
      DivMonotone(0, Abs(x), Abs(y));
    }
    if (x >= 0) == (y > 0) then m else -m
  }

  /** Truncated remainder: the library's `Rem`; it has the sign of `x`. */
  function Rem(x: int, y: int): (r: int)
    requires y != 0
    ensures x == Quo(x, y) * y + r
    ensures Abs(r) < Abs(y)
    ensures x >= 0 ==> r >= 0
    ensures x < 0 ==> r <= 0
  {
    var m := Abs(x) % Abs(y);
    if x >= 0 then m else -m
  }

  function Abs(x: int): (r: nat)
    ensures r == x || r == -x
  {
    if x >= 0 then x else -x
  }

  /** The truncated and the Euclidean remainder vanish together. */
  lemma RemZeroIff(x: int, y: int)
    requires y != 0
    ensures Rem(x, y) == 0 <==> x % y == 0
  {
    var d := Abs(y);
    ModAbsDivisor(x, y);
    ModZeroNegate(x, d);
  }

  /** The Euclidean remainder depends only on the divisor's magnitude. */
  lemma ModAbsDivisor(x: int, y: int)
    requires y != 0
    ensures x % y == x % Abs(y)
  {
    if y < 0 {
      assert x == y * (x / y) + x % y;
      assert y * (x / y) == (-y) * (-(x / y));
      DivUnique(x, -y, -(x / y), x % y);
    }
  }

  /** A divisor of x divides -x. */
  lemma ModZeroNegate(x: int, d: int)
    requires d > 0
    ensures x % d == 0 <==> (-x) % d == 0
  {
    if x % d == 0 {
      assert x == d * (x / d);
      assert -x == d * (-(x / d));
      DivUnique(-x, d, -(x / d), 0);
    }
    if (-x) % d == 0 {
      assert -x == d * ((-x) / d);
      assert x == d * (-((-x) / d));
      DivUnique(x, d, -((-x) / d), 0);
    }
  }

  /** Two's-complement bitwise or of two unbounded integers. */
  function Or(x: int, y: int): int
    decreases Abs(x) + Abs(y)
  {
    if x == -1 || y == -1 then -1
    else if x == 0 then y
    else if y == 0 then x
    else 2 * Or(x / 2, y / 2) + (if x % 2 == 1 || y % 2 == 1 then 1 else 0)
  }

  /** Bit `k` of the two's-complement representation of `x`. */
  predicate BitSet(x: int, k: nat)
  {
    (x / Pow2(k)) % 2 == 1
  }

  /** Or-ing a single bit that is clear adds its value. */
  lemma {:induction false} OrClearBit(x: int, k: nat)
    requires !BitSet(x, k)
    ensures Or(x, Pow2(k)) == x + Pow2(k)
    decreases k
  {
    if k == 0 {
      assert x % 2 == 0;
    } else if x == 0 {
    } else {
      assert x != -1 by {
        if x == -1 {
          assert -1 / Pow2(k) == -1 by { DivUnique(-1, Pow2(k), -1, Pow2(k) - 1); }
        }
      }
      assert Pow2(k) / 2 == Pow2(k - 1) && Pow2(k) % 2 == 0;
      assert !BitSet(x / 2, k - 1) by {
        DivDiv(x, 2, Pow2(k - 1));
      }
      OrClearBit(x / 2, k - 1);
      assert x == 2 * (x / 2) + x % 2;
    }
  }

  /** Floor square root: the library's `Sqrt` on a non-negative integer. */
  function Isqrt(n: nat): (r: nat)
    ensures r * r <= n < (r + 1) * (r + 1)
  {
    if n < 2 then n
    else
      var s := 2 * Isqrt(n / 4);
      IsqrtStep(n, Isqrt(n / 4));
      if (s + 1) * (s + 1) <= n then s + 1 else s
  }

  /** Doubling the root of n / 4 gives the root of n or one less. */
  lemma IsqrtStep(n: nat, h: nat)
    requires h * h <= n / 4 < (h + 1) * (h + 1)
    ensures (2 * h) * (2 * h) <= n < (2 * h + 2) * (2 * h + 2)
  {
    var m := n / 4;
    assert 4 * m <= n < 4 * m + 4;
    assert (2 * h) * (2 * h) == 4 * (h * h);
    assert (2 * h + 2) * (2 * h + 2) == 4 * ((h + 1) * (h + 1));
    assert (h + 1) * (h + 1) >= m + 1;
  }

  /** The floor square root is the only value between the two squares. */
  lemma IsqrtUnique(n: nat, r: nat)
    requires r * r <= n < (r + 1) * (r + 1)
    ensures Isqrt(n) == r
  {
    var s := Isqrt(n);
    if s < r {
      SquareMonotone(s + 1, r);
    } else if s > r {
      SquareMonotone(r + 1, s);
    }
  }

  lemma SquareMonotone(a: nat, b: nat)
    requires a <= b
    ensures a * a <= b * b
  {
    MulMonotone(a, a, b);
    MulMonotone(b, a, b);
  }

  /** The floor square root is monotone. */
  lemma IsqrtMonotone(n: nat, m: nat)
    requires n <= m
    ensures Isqrt(n) <= Isqrt(m)
  {
    var a, b := Isqrt(n), Isqrt(m);
    if a > b {
      SquareMonotone(b + 1, a);
    }
  }
}
