/**
  Index of the highest set bit (utils/most_significant_bit.go): a binary
  search over the thresholds 128, 64, ..., 1 that shifts the value right
  whenever it reaches 2^threshold.
*/
module BitScan {
  import opened Arith
  import opened Errors

  /** The thresholds, coarse to fine (the Go `powers` table). */
  const Powers: seq<nat> := [128, 64, 32, 16, 8, 4, 2, 1]

  /** Each threshold is half the previous one, starting from 128. */
  lemma PowersHalve()
    ensures |Powers| == 8
    ensures forall i :: 0 <= i < |Powers| ==> Powers[i] == Pow2(7 - i)
  {
    assert Pow2(7) == 128;
  }

  /** Index of the highest set bit of a positive integer: the reference the scan is checked against. */
  function Msb(x: nat): (m: nat)
    requires x >= 1
    ensures Pow2(m) <= x < Pow2(m + 1)
  {
    if x < 2 then 0 else 1 + Msb(x / 2)
  }

  /** The exponent with 2^m <= x < 2^(m+1) is unique. */
  lemma MsbUnique(x: nat, m: nat)
    requires Pow2(m) <= x < Pow2(m + 1)
    ensures Msb(x) == m
  {
    var k := Msb(x);
    if k < m {
      Pow2Monotone(k + 1, m);
    } else if k > m {
      Pow2Monotone(m + 1, k);
    }
  }

  /**
    `MostSignificantBit`: fails with InvalidInput outside (0, 2^256 - 1];
    otherwise returns the m with 2^m <= x < 2^(m+1).
  */
  method MostSignificantBit(x: int) returns (r: Result<nat>)
    ensures r.Err? <==> x <= 0 || x > MaxUint256
    ensures r.Err? ==> r.error == InvalidInput
    ensures r.Ok? ==> r.value <= 255 && Pow2(r.value) <= x < Pow2(r.value + 1)
    ensures r.Ok? ==> r.value == Msb(x)
  {
    if x <= 0 {
      return Err(InvalidInput);
    }
    if x > MaxUint256 {
      return Err(InvalidInput);
    }
    PowersHalve();
    Pow2Scales();
    assert Pow2(8) == 256;
    var msb: nat := 0;
    var y := x;
    var i := 0;
    while i < |Powers|
      invariant 0 <= i <= |Powers|
      invariant y == x / Pow2(msb)
      invariant 1 <= y < Pow2(Pow2(8 - i))
      invariant msb + Pow2(8 - i) <= 256
    {
      var power := Powers[i];
      var min := Pow2(power);
      ScanStep(x, msb, y, i);
      if y >= min {
        y := y / Pow2(power);
        msb := msb + power;
      }
      i := i + 1;
    }
    assert y == 1;
    ShiftIsOne(x, Pow2(msb));
    MsbUnique(x, msb);
    return Ok(msb);
  }

  /** One step of the scan keeps the loop invariant. */
  lemma ScanStep(x: nat, msb: nat, y: nat, i: nat)
    requires i < |Powers| && y == x / Pow2(msb) && 1 <= y < Pow2(Pow2(8 - i))
    requires msb + Pow2(8 - i) <= 256
    ensures var p := Powers[i];
      if y >= Pow2(p) then
        && y / Pow2(p) == x / Pow2(msb + p)
        && 1 <= y / Pow2(p) < Pow2(Pow2(7 - i))
        && msb + p + Pow2(7 - i) <= 256
      else
        && y < Pow2(Pow2(7 - i))
        && msb + Pow2(7 - i) <= 256
  {
    PowersHalve();
    var p := Powers[i];
    assert Pow2(8 - i) == 2 * p;
    Pow2Add(p, p);
    if y >= Pow2(p) {
      DivDiv(x, Pow2(msb), Pow2(p));
      Pow2Add(msb, p);
      DivUnique(Pow2(p), Pow2(p), 1, 0);
      DivMonotone(Pow2(p), y, Pow2(p));
      DivBelow(y, Pow2(p), Pow2(p));
    }
  }

  /** y < a*b implies y / b < a. */
  lemma DivBelow(y: nat, a: nat, b: nat)
    requires b > 0 && y < a * b
    ensures y / b < a
  {
    if y / b >= a {
      MulMonotone(b, a, y / b);
    }
  }

  /** x / d == 1 places x between d and 2d. */
  lemma ShiftIsOne(x: nat, d: nat)
    requires d > 0 && x / d == 1
    ensures d <= x < 2 * d
  {
  }
}
