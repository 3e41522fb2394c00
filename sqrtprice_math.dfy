/**
  Token amounts between two square-root prices and the price reached by
  adding or removing an amount (utils/sqrtprice_math.go).

  Prices are Q64.96 numbers and liquidity is plain. The token0 formulas
  divide by prices, the token1 formulas by liquidity; a zero divisor makes
  the Go code panic, so each divisor is a precondition here. The two
  helpers `multiplyIn256` and `addIn256` mask to 256 bits, and that
  masking is what the overflow checks of the next-price functions test.
*/
module SqrtPriceMath {
  import opened Arith
  import opened Errors
  import opened FullMath

  /** 2^160 - 1: `MaxUint160`. */
  const MaxUint160: nat := 0xFFFF_FFFF_FFFF_FFFF_FFFF_FFFF_FFFF_FFFF_FFFF_FFFF

  /** `multiplyIn256`: the product masked to its low 256 bits. */
  function MultiplyIn256(x: int, y: int): (r: nat)
    ensures r < Pow256 && (x * y - r) % Pow256 == 0
    ensures 0 <= x * y < Pow256 ==> r == x * y
  {
    ModInRange(x * y);
    (x * y) % Pow256
  }

  /** `addIn256`: the sum masked to its low 256 bits. */
  function AddIn256(x: int, y: int): (r: nat)
    ensures r < Pow256 && (x + y - r) % Pow256 == 0
    ensures 0 <= x + y < Pow256 ==> r == x + y
  {
    ModInRange(x + y);
    (x + y) % Pow256
  }

  lemma ModInRange(v: int)
    ensures (v - v % Pow256) % Pow256 == 0
    ensures 0 <= v < Pow256 ==> v % Pow256 == v
  {
    DivUnique(v - v % Pow256, Pow256, v / Pow256, 0);
    if 0 <= v < Pow256 {
      DivUnique(v, Pow256, 0, v);
    }
  }

  /**
    The overflow check `product / amount == p` of the token0 formula
    passes exactly when the amount is positive and amount * p fits in 256
    bits: a wrapped product, or a negative amount, always fails it.
  */
  lemma MultiplyCheckIff(amount: int, p: int)
    requires p > 0 && amount != 0
    ensures MultiplyIn256(amount, p) / amount == p <==> 0 < amount && amount * p < Pow256
  {
    var product := MultiplyIn256(amount, p);
    if amount > 0 {
      if amount * p < Pow256 {
        MulNonneg(amount, p);
        DivUnique(amount * p, amount, p, 0);
      } else if product / amount >= p {
        FloorDivBounds(product, amount);
        MulMonotone(amount, p, product / amount);
      }
    }
  }

  /**
    The wrap check `denominator >= numerator1` passes exactly when the
    unmasked sum of a non-negative numerator and a masked product fits in
    256 bits.
  */
  lemma AddCheckIff(numerator1: int, product: int)
    requires 0 <= numerator1 && 0 <= product < Pow256
    ensures AddIn256(numerator1, product) >= numerator1 <==> numerator1 + product < Pow256
  {
    var s := numerator1 + product;
    if s >= Pow256 && numerator1 < Pow256 {
      DivUnique(s, Pow256, 1, s - Pow256);
    }
  }

  /** The two prices in ascending order, as the `Cmp` swap leaves them. */
  function Ordered(sqrtRatioAX96: int, sqrtRatioBX96: int): (r: (int, int))
    ensures r.0 <= r.1
    ensures r == (sqrtRatioAX96, sqrtRatioBX96) || r == (sqrtRatioBX96, sqrtRatioAX96)
  {
    if sqrtRatioAX96 >= sqrtRatioBX96 then (sqrtRatioBX96, sqrtRatioAX96) else (sqrtRatioAX96, sqrtRatioBX96)
  }

  /**
    `GetAmount0Delta`: L * 2^96 * (hi - lo) / hi / lo with the rounding
    the caller asks for. Both prices are divisors. For positive prices and
    non-negative liquidity the amount is never negative.
  */
  function GetAmount0Delta(sqrtRatioAX96: int, sqrtRatioBX96: int, liquidity: int, roundUp: bool): (amount0: int)
    requires sqrtRatioAX96 != 0 && sqrtRatioBX96 != 0
    ensures sqrtRatioAX96 > 0 && sqrtRatioBX96 > 0 && liquidity >= 0 ==> amount0 >= 0
  {
    var (lo, hi) := Ordered(sqrtRatioAX96, sqrtRatioBX96);
    var numerator1 := liquidity * Q96;
    var numerator2 := hi - lo;
    var nonneg := sqrtRatioAX96 > 0 && sqrtRatioBX96 > 0 && liquidity >= 0;
    if roundUp then
      var amount := MulDivRoundingUp(MulDivRoundingUp(numerator1, numerator2, hi), 1, lo);
      assert nonneg ==> amount >= 0 by {
        if nonneg {
          MulNonneg(liquidity, Q96);
          MulDivRoundingUpNonneg(numerator1, numerator2, hi);
          MulDivRoundingUpNonneg(MulDivRoundingUp(numerator1, numerator2, hi), 1, lo);
        }
      }
      amount
    else
      var amount := ((numerator1 * numerator2) / hi) / lo;
      assert nonneg ==> amount >= 0 by {
        if nonneg {
          MulNonneg(liquidity, Q96);
          MulDivNonneg(numerator1, numerator2, hi);
          MulDivNonneg((numerator1 * numerator2) / hi, 1, lo);
        }
      }
      amount
  }

  /**
    `GetAmount1Delta`: L * (hi - lo) / 2^96 with the rounding the caller
    asks for; never negative for non-negative liquidity.
  */
  function GetAmount1Delta(sqrtRatioAX96: int, sqrtRatioBX96: int, liquidity: int, roundUp: bool): (amount1: int)
    ensures liquidity >= 0 ==> amount1 >= 0
  {
    var (lo, hi) := Ordered(sqrtRatioAX96, sqrtRatioBX96);
    assert liquidity >= 0 ==> liquidity * (hi - lo) >= 0 by {
      if liquidity >= 0 {
        MulNonneg(liquidity, hi - lo);
      }
    }
    if roundUp then
      MulDivRoundingUp(liquidity, hi - lo, Q96)
    else
      (liquidity * (hi - lo)) / Q96
  }

  /** The order of the two prices does not matter. */
  lemma AmountDeltasSymmetric(sqrtRatioAX96: int, sqrtRatioBX96: int, liquidity: int, roundUp: bool)
    requires sqrtRatioAX96 != 0 && sqrtRatioBX96 != 0
    ensures GetAmount0Delta(sqrtRatioAX96, sqrtRatioBX96, liquidity, roundUp)
         == GetAmount0Delta(sqrtRatioBX96, sqrtRatioAX96, liquidity, roundUp)
    ensures GetAmount1Delta(sqrtRatioAX96, sqrtRatioBX96, liquidity, roundUp)
         == GetAmount1Delta(sqrtRatioBX96, sqrtRatioAX96, liquidity, roundUp)
  {
    if sqrtRatioAX96 == sqrtRatioBX96 {
    } else if sqrtRatioAX96 > sqrtRatioBX96 {
      assert Ordered(sqrtRatioBX96, sqrtRatioAX96) == (sqrtRatioBX96, sqrtRatioAX96);
    } else {
      assert Ordered(sqrtRatioAX96, sqrtRatioBX96) == (sqrtRatioAX96, sqrtRatioBX96);
    }
  }

  /**
    For positive prices the token0 amount is L * 2^96 * (hi - lo) / (hi * lo),
    rounded up or down as asked: the two chained roundings equal one.
  */
  lemma Amount0DeltaIsOneDivision(sqrtRatioAX96: int, sqrtRatioBX96: int, liquidity: int)
    requires sqrtRatioAX96 > 0 && sqrtRatioBX96 > 0
    ensures var (lo, hi) := Ordered(sqrtRatioAX96, sqrtRatioBX96);
      && GetAmount0Delta(sqrtRatioAX96, sqrtRatioBX96, liquidity, true) == CeilDiv(liquidity * Q96 * (hi - lo), hi * lo)
      && GetAmount0Delta(sqrtRatioAX96, sqrtRatioBX96, liquidity, false) == (liquidity * Q96 * (hi - lo)) / (hi * lo)
  {
    var (lo, hi) := Ordered(sqrtRatioAX96, sqrtRatioBX96);
    var x := liquidity * Q96 * (hi - lo);
    RoundingUpIsCeil(liquidity * Q96, hi - lo, hi);
    RoundingUpIsCeil(CeilDiv(x, hi), 1, lo);
    CeilDivCeilDiv(x, hi, lo);
    DivDiv(x, hi, lo);
  }

  /** Floor and ceiling of the same quotient differ by at most one, ceiling on top. */
  lemma FloorCeilGap(x: int, d: int)
    requires d > 0
    ensures x / d <= CeilDiv(x, d) <= x / d + 1
  {
  }

  /** Rounding up never gives less token0 than rounding down, and at most one more. */
  lemma Amount0DeltaRoundings(sqrtRatioAX96: int, sqrtRatioBX96: int, liquidity: int)
    requires sqrtRatioAX96 > 0 && sqrtRatioBX96 > 0
    ensures GetAmount0Delta(sqrtRatioAX96, sqrtRatioBX96, liquidity, false)
         <= GetAmount0Delta(sqrtRatioAX96, sqrtRatioBX96, liquidity, true)
         <= GetAmount0Delta(sqrtRatioAX96, sqrtRatioBX96, liquidity, false) + 1
  {
    Amount0DeltaIsOneDivision(sqrtRatioAX96, sqrtRatioBX96, liquidity);
    var (lo, hi) := Ordered(sqrtRatioAX96, sqrtRatioBX96);
    FloorCeilGap(liquidity * Q96 * (hi - lo), hi * lo);
  }

  /**
    The token1 amount is the ceiling of L * (hi - lo) / 2^96 when rounding
    up and its floor otherwise, so the two differ by at most one.
  */
  lemma Amount1DeltaRoundings(sqrtRatioAX96: int, sqrtRatioBX96: int, liquidity: int)
    ensures var (lo, hi) := Ordered(sqrtRatioAX96, sqrtRatioBX96);
      && GetAmount1Delta(sqrtRatioAX96, sqrtRatioBX96, liquidity, true) == CeilDiv(liquidity * (hi - lo), Q96)
      && GetAmount1Delta(sqrtRatioAX96, sqrtRatioBX96, liquidity, false) * Q96 <= liquidity * (hi - lo)
      && liquidity * (hi - lo) < GetAmount1Delta(sqrtRatioAX96, sqrtRatioBX96, liquidity, false) * Q96 + Q96
      && GetAmount1Delta(sqrtRatioAX96, sqrtRatioBX96, liquidity, false)
         <= GetAmount1Delta(sqrtRatioAX96, sqrtRatioBX96, liquidity, true)
         <= GetAmount1Delta(sqrtRatioAX96, sqrtRatioBX96, liquidity, false) + 1
  {
    var (lo, hi) := Ordered(sqrtRatioAX96, sqrtRatioBX96);
    RoundingUpIsCeil(liquidity, hi - lo, Q96);
    FloorDivBounds(liquidity * (hi - lo), Q96);
    FloorCeilGap(liquidity * (hi - lo), Q96);
  }

  /** Equal prices move no token. */
  lemma AmountDeltasOfEqualPrices(sqrtRatioX96: int, liquidity: int, roundUp: bool)
    requires sqrtRatioX96 > 0
    ensures GetAmount0Delta(sqrtRatioX96, sqrtRatioX96, liquidity, roundUp) == 0
    ensures GetAmount1Delta(sqrtRatioX96, sqrtRatioX96, liquidity, roundUp) == 0
  {
    assert Ordered(sqrtRatioX96, sqrtRatioX96) == (sqrtRatioX96, sqrtRatioX96);
    var numerator1 := liquidity * Q96;
    assert numerator1 * 0 == 0 && liquidity * 0 == 0;
    DivUnique(0, sqrtRatioX96, 0, 0);
    DivUnique(0, Q96, 0, 0);
  }

  /**
    Whether the add path of the token0 formula takes its precise branch:
    amount * p did not wrap and L * 2^96 + amount * p did not wrap either.
  */
  predicate Amount0PreciseBranch(sqrtPX96: int, liquidity: int, amount: int)
    requires amount != 0
  {
    var product := MultiplyIn256(amount, sqrtPX96);
    product / amount == sqrtPX96 && AddIn256(liquidity * Q96, product) >= liquidity * Q96
  }

  /**
    The add path of the token0 formula divides by nothing that is zero:
    the masked denominator on the precise branch, p and L * 2^96 / p + amount
    on the fallback.
  */
  predicate Amount0AddDefined(sqrtPX96: int, liquidity: int, amount: int)
  {
    amount == 0 ||
    if Amount0PreciseBranch(sqrtPX96, liquidity, amount) then
      AddIn256(liquidity * Q96, MultiplyIn256(amount, sqrtPX96)) != 0
    else
      sqrtPX96 != 0 && (liquidity * Q96) / sqrtPX96 + amount != 0
  }

  /**
    `getNextSqrtPriceFromAmount0RoundingUp`: the price after adding
    (`add`) or removing `amount` of token0, rounded up. Adding computes
    L*2^96*p / (L*2^96 + amount*p), or L*2^96 / (L*2^96/p + amount) when
    that would overflow; removing computes L*2^96*p / (L*2^96 - amount*p)
    and fails with InvariantViolation when the product overflows or
    reaches L*2^96.
  */
  function NextSqrtPriceFromAmount0RoundingUp(sqrtPX96: int, liquidity: int, amount: int, add: bool): (r: Result<int>)
    requires add ==> Amount0AddDefined(sqrtPX96, liquidity, amount)
    ensures amount == 0 ==> r == Ok(sqrtPX96)
    ensures r.Err? ==> !add && r.error == InvariantViolation
  {
    if amount == 0 then
      Ok(sqrtPX96)
    else
      var numerator1 := liquidity * Q96;
      var product := MultiplyIn256(amount, sqrtPX96);
      if add then
        if Amount0PreciseBranch(sqrtPX96, liquidity, amount) then
          Ok(MulDivRoundingUp(numerator1, sqrtPX96, AddIn256(numerator1, product)))
        else
          Ok(MulDivRoundingUp(numerator1, 1, numerator1 / sqrtPX96 + amount))
      else if product / amount != sqrtPX96 then
        Err(InvariantViolation)
      else if numerator1 <= product then
        Err(InvariantViolation)
      else
        Ok(MulDivRoundingUp(numerator1, sqrtPX96, numerator1 - product))
  }

  /**
    `getNextSqrtPriceFromAmount1RoundingDown`: adding moves the price up by
    floor(amount * 2^96 / L); removing moves it down by the ceiling of the
    same quotient and fails with InvariantViolation unless the price stays
    positive.
  */
  function NextSqrtPriceFromAmount1RoundingDown(sqrtPX96: int, liquidity: int, amount: int, add: bool): (r: Result<int>)
    requires liquidity != 0
    ensures r.Err? ==> !add && r.error == InvariantViolation
  {
    if add then
      var quotient := if amount <= MaxUint160 then (amount * Pow2(96)) / liquidity else (amount * Q96) / liquidity;
      Ok(sqrtPX96 + quotient)
    else
      var quotient := MulDivRoundingUp(amount, Q96, liquidity);
      if sqrtPX96 <= quotient then Err(InvariantViolation) else Ok(sqrtPX96 - quotient)
  }

  /** `GetNextSqrtPriceFromInput`: checks the price, then the liquidity, then adds the input. */
  function GetNextSqrtPriceFromInput(sqrtPX96: int, liquidity: int, amountIn: int, zeroForOne: bool): (r: Result<int>)
    requires sqrtPX96 > 0 && liquidity > 0 && zeroForOne ==> Amount0AddDefined(sqrtPX96, liquidity, amountIn)
    ensures r.Err? <==> sqrtPX96 <= 0 || liquidity <= 0
    ensures sqrtPX96 <= 0 ==> r == Err(SqrtPriceLessThanZero)
    ensures sqrtPX96 > 0 && liquidity <= 0 ==> r == Err(LiquidityLessThanZero)
  {
    if sqrtPX96 <= 0 then
      Err(SqrtPriceLessThanZero)
    else if liquidity <= 0 then
      Err(LiquidityLessThanZero)
    else if zeroForOne then
      NextSqrtPriceFromAmount0RoundingUp(sqrtPX96, liquidity, amountIn, true)
    else
      NextSqrtPriceFromAmount1RoundingDown(sqrtPX96, liquidity, amountIn, true)
  }

  /** `GetNextSqrtPriceFromOutput`: checks the price, then the liquidity, then removes the output. */
  function GetNextSqrtPriceFromOutput(sqrtPX96: int, liquidity: int, amountOut: int, zeroForOne: bool): (r: Result<int>)
    ensures sqrtPX96 <= 0 ==> r == Err(SqrtPriceLessThanZero)
    ensures sqrtPX96 > 0 && liquidity <= 0 ==> r == Err(LiquidityLessThanZero)
    ensures r.Err? && sqrtPX96 > 0 && liquidity > 0 ==> r.error == InvariantViolation
  {
    if sqrtPX96 <= 0 then
      Err(SqrtPriceLessThanZero)
    else if liquidity <= 0 then
      Err(LiquidityLessThanZero)
    else if zeroForOne then
      NextSqrtPriceFromAmount1RoundingDown(sqrtPX96, liquidity, amountOut, false)
    else
      NextSqrtPriceFromAmount0RoundingUp(sqrtPX96, liquidity, amountOut, false)
  }

  /** A positive amount of token0 can always be added: neither branch divides by zero. */
  lemma Amount0AddDefinedForPositive(sqrtPX96: int, liquidity: int, amount: int)
    requires sqrtPX96 > 0 && liquidity > 0 && amount > 0
    ensures Amount0AddDefined(sqrtPX96, liquidity, amount)
  {
    MulNonneg(liquidity, Q96);
    if Amount0PreciseBranch(sqrtPX96, liquidity, amount) {
    } else {
      assert (liquidity * Q96) / sqrtPX96 >= 0;
    }
  }

  /**
    Adding a positive amount of token0 gives the rounded-up
    L*2^96*p / (L*2^96 + amount*p) when that fits in 256 bits and
    L*2^96 / (L*2^96/p + amount) otherwise, and never raises the price.
  */
  lemma Amount0AddLowersPrice(sqrtPX96: int, liquidity: int, amount: int)
    requires sqrtPX96 > 0 && liquidity > 0 && amount > 0
    ensures Amount0AddDefined(sqrtPX96, liquidity, amount)
    ensures liquidity * Q96 + amount * sqrtPX96 > 0 && (liquidity * Q96) / sqrtPX96 + amount > 0
    ensures var r := NextSqrtPriceFromAmount0RoundingUp(sqrtPX96, liquidity, amount, true);
      var numerator1 := liquidity * Q96;
      && r.Ok?
      && (numerator1 + amount * sqrtPX96 < Pow256 ==> r.value == CeilDiv(numerator1 * sqrtPX96, numerator1 + amount * sqrtPX96))
      && (numerator1 + amount * sqrtPX96 >= Pow256 ==> r.value == CeilDiv(numerator1, numerator1 / sqrtPX96 + amount))
      && 0 < r.value <= sqrtPX96
  {
    Amount0AddDefinedForPositive(sqrtPX96, liquidity, amount);
    var numerator1 := liquidity * Q96;
    MulMonotone(Q96, 1, liquidity);
    MulMonotone(sqrtPX96, 1, amount);
    assert numerator1 / sqrtPX96 >= 0 by {
      DivMonotone(0, numerator1, sqrtPX96);
    }
    var r := NextSqrtPriceFromAmount0RoundingUp(sqrtPX96, liquidity, amount, true);
    if numerator1 + amount * sqrtPX96 < Pow256 {
      Amount0AddPrecise(sqrtPX96, liquidity, amount, numerator1);
      var p := CeilDiv(numerator1 * sqrtPX96, numerator1 + amount * sqrtPX96);
      assert r == Ok(p) && 0 < p <= sqrtPX96;
    } else {
      Amount0AddFallback(sqrtPX96, liquidity, amount, numerator1);
      var p := CeilDiv(numerator1, numerator1 / sqrtPX96 + amount);
      assert r == Ok(p) && 0 < p <= sqrtPX96;
    }
  }

  lemma Amount0AddPrecise(sqrtPX96: int, liquidity: int, amount: int, numerator1: int)
    requires sqrtPX96 > 0 && amount > 0 && numerator1 == liquidity * Q96 && numerator1 > 0
    requires numerator1 + amount * sqrtPX96 < Pow256
    ensures Amount0PreciseBranch(sqrtPX96, liquidity, amount)
    ensures var d := numerator1 + amount * sqrtPX96;
      && d > 0
      && AddIn256(numerator1, MultiplyIn256(amount, sqrtPX96)) == d
      && NextSqrtPriceFromAmount0RoundingUp(sqrtPX96, liquidity, amount, true) == Ok(CeilDiv(numerator1 * sqrtPX96, d))
      && 0 < CeilDiv(numerator1 * sqrtPX96, d) <= sqrtPX96
  {
    var amountTimesP := amount * sqrtPX96;
    assert amountTimesP > 0 by { MulMonotone(sqrtPX96, 1, amount); }
    MultiplyCheckIff(amount, sqrtPX96);
    AddCheckIff(numerator1, amountTimesP);
    var d := numerator1 + amountTimesP;
    RoundingUpIsCeil(numerator1, sqrtPX96, d);
    PreciseBranchBounds(numerator1, sqrtPX96, d);
  }

  lemma Amount0AddFallback(sqrtPX96: int, liquidity: int, amount: int, numerator1: int)
    requires sqrtPX96 > 0 && amount > 0 && numerator1 == liquidity * Q96 && numerator1 > 0
    requires numerator1 + amount * sqrtPX96 >= Pow256
    ensures !Amount0PreciseBranch(sqrtPX96, liquidity, amount)
    ensures var d := numerator1 / sqrtPX96 + amount;
      && d > 0
      && NextSqrtPriceFromAmount0RoundingUp(sqrtPX96, liquidity, amount, true) == Ok(CeilDiv(numerator1, d))
      && 0 < CeilDiv(numerator1, d) <= sqrtPX96
  {
    var amountTimesP := amount * sqrtPX96;
    MultiplyCheckIff(amount, sqrtPX96);
    if amountTimesP < Pow256 {
      AddCheckIff(numerator1, amountTimesP);
    }
    FallbackBounds(numerator1, sqrtPX96, amount);
    RoundingUpIsCeil(numerator1, 1, numerator1 / sqrtPX96 + amount);
  }

  /** n*p / d rounded up lies in (0, p] when 0 < n <= d. */
  lemma PreciseBranchBounds(n: int, p: int, d: int)
    requires 0 < n <= d && p > 0
    ensures 0 < CeilDiv(n * p, d) <= p
  {
    var c := CeilDiv(n * p, d);
    MulMonotone(p, n, d);
    MulMonotone(p, 1, n);
    if c > p {
      MulMonotone(d, p + 1, c);
    }
    if c <= 0 {
      MulMonotone(d, c, 0);
    }
  }

  /** n / (n/p + amount) rounded up lies in (0, p] for positive n, p and amount. */
  lemma FallbackBounds(n: int, p: int, amount: int)
    requires n > 0 && p > 0 && amount > 0
    ensures n / p + amount > 0
    ensures 0 < CeilDiv(n, n / p + amount) <= p
  {
    var d := n / p + amount;
    var c := CeilDiv(n, d);
    FloorDivBounds(n, p);
    assert n < (n / p + 1) * p;
    MulMonotone(p, n / p + 1, d);
    if c > p {
      MulMonotone(d, p + 1, c);
    }
    if c <= 0 {
      MulMonotone(d, c, 0);
    }
  }

  /**
    Removing a non-zero amount of token0 fails exactly when the amount is
    negative, amount*p
    overflows 256 bits, or amount*p reaches L*2^96; otherwise it gives the
    rounded-up L*2^96*p / (L*2^96 - amount*p), above the starting price.
  */
  lemma Amount0RemoveRaisesPrice(sqrtPX96: int, liquidity: int, amount: int)
    requires sqrtPX96 > 0 && amount != 0
    ensures var r := NextSqrtPriceFromAmount0RoundingUp(sqrtPX96, liquidity, amount, false);
      var numerator1 := liquidity * Q96;
      && (r.Err? <==> !(0 < amount && amount * sqrtPX96 < Pow256 && amount * sqrtPX96 < numerator1))
      && (r.Ok? ==> r.value == CeilDiv(numerator1 * sqrtPX96, numerator1 - amount * sqrtPX96))
      && (r.Ok? ==> r.value > sqrtPX96)
  {
    MultiplyCheckIff(amount, sqrtPX96);
    var numerator1 := liquidity * Q96;
    var r := NextSqrtPriceFromAmount0RoundingUp(sqrtPX96, liquidity, amount, false);
    if r.Ok? {
      var amountTimesP := amount * sqrtPX96;
      var d := numerator1 - amountTimesP;
      assert amountTimesP > 0 by { MulMonotone(sqrtPX96, 1, amount); }
      RoundingUpIsCeil(numerator1, sqrtPX96, d);
      RemoveBounds(numerator1, sqrtPX96, d);
    }
  }

  /** n*p / d rounded up exceeds p when 0 < d < n. */
  lemma RemoveBounds(n: int, p: int, d: int)
    requires 0 < d < n && p > 0
    ensures CeilDiv(n * p, d) > p
  {
    var c := CeilDiv(n * p, d);
    MulMonotone(p, d + 1, n);
    if c <= p {
      MulMonotone(d, c, p);
    }
  }

  /**
    Adding token1 raises the price by floor(amount * 2^96 / L), whichever
    of the two `MaxUint160` branches computes it.
  */
  lemma Amount1AddRaisesPrice(sqrtPX96: int, liquidity: int, amount: int)
    requires liquidity > 0
    ensures var r := NextSqrtPriceFromAmount1RoundingDown(sqrtPX96, liquidity, amount, true);
      && r == Ok(sqrtPX96 + (amount * Q96) / liquidity)
      && (amount >= 0 ==> r.value >= sqrtPX96)
  {
    Pow2Of96();
    if amount >= 0 {
      MulNonneg(amount, Q96);
      DivMonotone(0, amount * Q96, liquidity);
    }
  }

  /**
    Removing token1 fails exactly when the price does not exceed
    ceil(amount * 2^96 / L); otherwise it lowers the price by that ceiling
    and stays positive, strictly below p when the amount is positive.
  */
  lemma Amount1RemoveLowersPrice(sqrtPX96: int, liquidity: int, amount: int)
    requires liquidity > 0
    ensures var r := NextSqrtPriceFromAmount1RoundingDown(sqrtPX96, liquidity, amount, false);
      var quotient := CeilDiv(amount * Q96, liquidity);
      && (r.Err? <==> sqrtPX96 <= quotient)
      && (r.Ok? ==> r.value == sqrtPX96 - quotient && r.value > 0)
      && (r.Ok? && amount > 0 ==> r.value < sqrtPX96)
  {
    RoundingUpIsCeil(amount, Q96, liquidity);
    if amount > 0 {
      var quotient := CeilDiv(amount * Q96, liquidity);
      MulMonotone(Q96, 1, amount);
      if quotient <= 0 {
        MulMonotone(liquidity, quotient, 0);
      }
    }
  }

  /**
    An input amount moves the price in the swap direction: token0 in
    (zeroForOne) never raises it and keeps it positive, token1 in never
    lowers it. Neither can fail once price and liquidity are positive.
  */
  lemma InputMovesPriceTowardsDirection(sqrtPX96: int, liquidity: int, amountIn: int, zeroForOne: bool)
    requires sqrtPX96 > 0 && liquidity > 0 && amountIn >= 0
    ensures zeroForOne ==> Amount0AddDefined(sqrtPX96, liquidity, amountIn)
    ensures var r := GetNextSqrtPriceFromInput(sqrtPX96, liquidity, amountIn, zeroForOne);
      && r.Ok?
      && (zeroForOne ==> 0 < r.value <= sqrtPX96)
      && (!zeroForOne ==> r.value >= sqrtPX96)
  {
    if amountIn > 0 {
      Amount0AddLowersPrice(sqrtPX96, liquidity, amountIn);
    }
    Amount1AddRaisesPrice(sqrtPX96, liquidity, amountIn);
  }

  /**
    An output amount moves the price in the swap direction or fails with
    InvariantViolation: token1 out (zeroForOne) lowers the price and keeps
    it positive, token0 out raises it.
  */
  lemma OutputMovesPriceTowardsDirection(sqrtPX96: int, liquidity: int, amountOut: int, zeroForOne: bool)
    requires sqrtPX96 > 0 && liquidity > 0 && amountOut >= 0
    ensures var r := GetNextSqrtPriceFromOutput(sqrtPX96, liquidity, amountOut, zeroForOne);
      && (r.Err? ==> r.error == InvariantViolation)
      && (r.Ok? && zeroForOne ==> 0 < r.value <= sqrtPX96)
      && (r.Ok? && !zeroForOne ==> r.value >= sqrtPX96)
  {
    Amount1RemoveLowersPrice(sqrtPX96, liquidity, amountOut);
    if amountOut > 0 {
      Amount0RemoveRaisesPrice(sqrtPX96, liquidity, amountOut);
    }
  }
}
