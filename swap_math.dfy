/**
  One swap step with the fee collected as incremental liquidity
  (utils/swap_math.go).

  A step moves the price from the current square-root price towards a
  target. It first computes the signed amount that reaches the target
  exactly. When the remaining amount does not cover it the step is
  amount-limited: the fee liquidity is estimated from the amount and the
  final price follows from it. Otherwise the step is target-limited: the
  price lands on the target and the fee liquidity is whatever the target
  price implies. Exact-input amounts are positive, exact-output amounts
  negative.

  Every division in the Go code panics on a zero divisor; the `...Defined`
  predicates collect exactly those divisors and are the preconditions.
*/
module SwapMath {
  import opened Arith
  import opened FullMath

  /** Fees are counted in units of 1/100000. */
  const FeeUnits: int := 100000
  const TwoFeeUnits: int := 200000

  /** What `ComputeSwapStep` returns; its error result is always nil. */
  datatype SwapStepResult = SwapStepResult(sqrtRatioNextX96: int, amountIn: int, amountOut: int, deltaL: int)

  function Min(a: int, b: int): int { if a <= b then a else b }
  function Max(a: int, b: int): int { if a >= b then a else b }

  /**
    The denominator of the reach amount: 2F*target - fee*current when the
    specified token and the exact side agree (exact-in token0, exact-out
    token1), 2F*current - fee*target otherwise.
  */
  function ReachDenominator(sqrtRatioCurrentX96: int, sqrtRatioTargetX96: int, fee: nat, exactIn: bool, isToken0: bool): int
  {
    if exactIn == isToken0 then
      TwoFeeUnits * sqrtRatioTargetX96 - fee * sqrtRatioCurrentX96
    else
      TwoFeeUnits * sqrtRatioCurrentX96 - fee * sqrtRatioTargetX96
  }

  /** The fee-adjusted numerator factor of the exact-output reach amount. */
  function ReachOutNumerator(sqrtRatioCurrentX96: int, sqrtRatioTargetX96: int, fee: nat, isToken0: bool): int
  {
    ReachDenominator(sqrtRatioCurrentX96, sqrtRatioTargetX96, fee, false, isToken0)
      - fee * (if isToken0 then sqrtRatioCurrentX96 else sqrtRatioTargetX96)
  }

  /** No divisor of `calcReachAmount` is zero. */
  predicate ReachDefined(sqrtRatioCurrentX96: int, sqrtRatioTargetX96: int, fee: nat, exactIn: bool, isToken0: bool)
  {
    && ReachDenominator(sqrtRatioCurrentX96, sqrtRatioTargetX96, fee, exactIn, isToken0) != 0
    && (isToken0 ==> sqrtRatioCurrentX96 != 0)
    && (isToken0 && !exactIn ==> sqrtRatioTargetX96 != 0)
  }

  /**
    `calcReachAmount`: the signed amount that moves the price exactly to the
    target, rounded down in magnitude; exact-output amounts are negated as
    the last step. With positive prices, non-negative liquidity and a
    well-conditioned fee term the amount is non-negative for exact input
    and non-positive for exact output.
  */
  function CalcReachAmount(sqrtRatioCurrentX96: int, sqrtRatioTargetX96: int, liquidity: int, fee: nat, exactIn: bool, isToken0: bool): (reachAmount: int)
    requires ReachDefined(sqrtRatioCurrentX96, sqrtRatioTargetX96, fee, exactIn, isToken0)
    ensures sqrtRatioCurrentX96 > 0 && sqrtRatioTargetX96 > 0 && liquidity >= 0
            && ReachWellConditioned(sqrtRatioCurrentX96, sqrtRatioTargetX96, fee, exactIn, isToken0) ==>
      && (exactIn ==> reachAmount >= 0)
      && (!exactIn ==> reachAmount <= 0)
  {
    var absPriceDiff := Abs(sqrtRatioCurrentX96 - sqrtRatioTargetX96);
    var denominator := ReachDenominator(sqrtRatioCurrentX96, sqrtRatioTargetX96, fee, exactIn, isToken0);
    if exactIn then
      var numerator := MulDiv(liquidity, TwoFeeUnits * absPriceDiff, denominator);
      var amount :=
        if isToken0 then MulDiv(numerator, Q96, sqrtRatioCurrentX96)
        else MulDiv(numerator, sqrtRatioCurrentX96, Q96);
      assert sqrtRatioCurrentX96 > 0 && liquidity >= 0 && denominator > 0 ==> amount >= 0 by {
        if sqrtRatioCurrentX96 > 0 && liquidity >= 0 && denominator > 0 {
          MulDivNonneg(liquidity, TwoFeeUnits * absPriceDiff, denominator);
          if isToken0 {
            MulDivNonneg(numerator, Q96, sqrtRatioCurrentX96);
          } else {
            MulDivNonneg(numerator, sqrtRatioCurrentX96, Q96);
          }
        }
      }
      amount
    else
      var numerator := ReachOutNumerator(sqrtRatioCurrentX96, sqrtRatioTargetX96, fee, isToken0);
      var magnitude :=
        if isToken0 then
          var n := MulDiv(liquidity * Q96, numerator, denominator);
          MulDiv(n, absPriceDiff, sqrtRatioCurrentX96) / sqrtRatioTargetX96
        else
          var n := MulDiv(liquidity, numerator, denominator);
          MulDiv(n, absPriceDiff, Q96);
      var signed := sqrtRatioCurrentX96 > 0 && sqrtRatioTargetX96 > 0 && liquidity >= 0 && denominator > 0 && numerator >= 0;
      assert signed ==> magnitude >= 0 by {
        if signed {
          if isToken0 {
            MulNonneg(liquidity, Q96);
            MulDivNonneg(liquidity * Q96, numerator, denominator);
            MulDivNonneg(MulDiv(liquidity * Q96, numerator, denominator), absPriceDiff, sqrtRatioCurrentX96);
          } else {
            MulDivNonneg(liquidity, numerator, denominator);
            MulDivNonneg(MulDiv(liquidity, numerator, denominator), absPriceDiff, Q96);
          }
        }
      }
      -magnitude
  }

  /** Exact-input results of exactly 1 are rounding noise and become 0. */
  function DropRoundingNoise(amount: int, exactIn: bool): (r: int)
    ensures exactIn ==> r != 1
    ensures r != amount ==> exactIn && amount == 1 && r == 0
  {
    if exactIn && amount == 1 then 0 else amount
  }

  /** No divisor of `calcReturnedAmount` is zero. */
  predicate ReturnedDefined(sqrtRatioCurrentX96: int, sqrtRatioTargetX96: int, isToken0: bool)
  {
    !isToken0 ==> sqrtRatioCurrentX96 != 0 && sqrtRatioTargetX96 != 0
  }

  /**
    `calcReturnedAmount`: the amount of the other token for a move from the
    current to the next price with liquidity L + deltaL, rounded against
    the trader.
  */
  function CalcReturnedAmount(sqrtRatioCurrentX96: int, sqrtRatioTargetX96: int, liquidity: int, deltaL: int, exactIn: bool, isToken0: bool): (r: int)
    requires ReturnedDefined(sqrtRatioCurrentX96, sqrtRatioTargetX96, isToken0)
    ensures exactIn ==> r != 1
  {
    var returned :=
      if isToken0 then
        if exactIn then
          MulDivRoundingUp(deltaL, sqrtRatioTargetX96, Q96)
            + -MulDiv(liquidity, sqrtRatioCurrentX96 - sqrtRatioTargetX96, Q96)
        else
          MulDivRoundingUp(deltaL, sqrtRatioTargetX96, Q96)
            + MulDivRoundingUp(liquidity, sqrtRatioTargetX96 - sqrtRatioCurrentX96, Q96)
      else
        MulDivRoundingUp(liquidity + deltaL, Q96, sqrtRatioTargetX96)
          + -MulDivRoundingUp(liquidity, Q96, sqrtRatioCurrentX96);
    DropRoundingNoise(returned, exactIn)
  }

  /** No divisor of `calcIncrementalLiquidity` is zero. */
  predicate IncrementalDefined(sqrtRatioCurrentX96: int, sqrtRatioTargetX96: int, isToken0: bool)
  {
    if isToken0 then sqrtRatioCurrentX96 != 0 else sqrtRatioTargetX96 != 0
  }

  /**
    The liquidity the target price implies once the amount is added
    (exact input) or taken away (exact output).
  */
  function LiquidityAtTarget(sqrtRatioCurrentX96: int, sqrtRatioTargetX96: int, liquidity: int, absAmount: int, exactIn: bool, isToken0: bool): int
    requires IncrementalDefined(sqrtRatioCurrentX96, sqrtRatioTargetX96, isToken0)
  {
    if isToken0 then
      var virtualAmount := MulDiv(liquidity, Q96, sqrtRatioCurrentX96);
      MulDiv(sqrtRatioTargetX96, if exactIn then virtualAmount + absAmount else virtualAmount - absAmount, Q96)
    else
      var virtualAmount := MulDiv(liquidity, sqrtRatioCurrentX96, Q96);
      MulDiv(if exactIn then virtualAmount + absAmount else virtualAmount - absAmount, Q96, sqrtRatioTargetX96)
  }

  /**
    `calcIncrementalLiquidity`: the fee liquidity of a target-limited step,
    the excess of the implied liquidity over L, clamped at 0 where rounding
    leaves no excess.
  */
  function CalcIncrementalLiquidity(sqrtRatioCurrentX96: int, sqrtRatioTargetX96: int, liquidity: int, absAmount: int, exactIn: bool, isToken0: bool): (deltaL: int)
    requires IncrementalDefined(sqrtRatioCurrentX96, sqrtRatioTargetX96, isToken0)
    ensures var implied := LiquidityAtTarget(sqrtRatioCurrentX96, sqrtRatioTargetX96, liquidity, absAmount, exactIn, isToken0);
      && deltaL >= 0
      && deltaL >= implied - liquidity
      && (deltaL == 0 || deltaL == implied - liquidity)
  {
    var implied := LiquidityAtTarget(sqrtRatioCurrentX96, sqrtRatioTargetX96, liquidity, absAmount, exactIn, isToken0);
    if implied > liquidity then implied - liquidity else 0
  }

  /** The linear coefficient b of the exact-output fee quadratic. */
  function QuadB(absAmount: int, liquidity: int, sqrtRatioCurrentX96: int, fee: nat, isToken0: bool): int
    requires !isToken0 ==> sqrtRatioCurrentX96 != 0
  {
    (FeeUnits - fee) * liquidity
      - (if isToken0 then MulDiv(FeeUnits * absAmount, sqrtRatioCurrentX96, Q96)
         else MulDiv(FeeUnits * absAmount, Q96, sqrtRatioCurrentX96))
  }

  /** The constant term c of the exact-output fee quadratic. */
  function QuadC(absAmount: int, liquidity: int, sqrtRatioCurrentX96: int, fee: nat, isToken0: bool): int
    requires !isToken0 ==> sqrtRatioCurrentX96 != 0
  {
    var c := fee * liquidity * absAmount;
    if isToken0 then MulDiv(c, sqrtRatioCurrentX96, Q96) else MulDiv(c, Q96, sqrtRatioCurrentX96)
  }

  /**
    No divisor of `estimateIncrementalLiquidity` is zero and, for exact
    output, the quadratic has a non-negative discriminant.
  */
  predicate EstimateDefined(absAmount: int, liquidity: int, sqrtRatioCurrentX96: int, fee: nat, exactIn: bool, isToken0: bool)
  {
    && (!isToken0 ==> sqrtRatioCurrentX96 != 0)
    && (!exactIn ==>
          var b := QuadB(absAmount, liquidity, sqrtRatioCurrentX96, fee, isToken0);
          fee != 0 && b * b - fee * QuadC(absAmount, liquidity, sqrtRatioCurrentX96, fee, isToken0) >= 0)
  }

  /**
    `estimateIncrementalLiquidity`: the fee liquidity of an amount-limited
    step. Exact input takes fee/2 of the amount, valued at the current
    price: the floor of P*amount*fee / (2*FeeUnits*2^96) for token0 and of
    2^96*amount*fee / (2*FeeUnits*P) for token1. Exact output takes the
    smaller root of fee*x^2 - 2*b*x + c = 0, which lies between 0 and
    b / fee when b is positive.
  */
  function EstimateIncrementalLiquidity(absAmount: int, liquidity: int, sqrtRatioCurrentX96: int, fee: nat, exactIn: bool, isToken0: bool): (deltaL: int)
    requires EstimateDefined(absAmount, liquidity, sqrtRatioCurrentX96, fee, exactIn, isToken0)
    ensures exactIn && absAmount >= 0 && sqrtRatioCurrentX96 > 0 ==>
      var d := if isToken0 then TwoFeeUnits * Q96 else TwoFeeUnits * sqrtRatioCurrentX96;
      var n := (if isToken0 then sqrtRatioCurrentX96 else Q96) * absAmount * fee;
      && deltaL >= 0
      && deltaL * d <= n < deltaL * d + d
    ensures !exactIn && absAmount >= 0 && liquidity >= 0 && sqrtRatioCurrentX96 > 0
            && QuadB(absAmount, liquidity, sqrtRatioCurrentX96, fee, isToken0) > 0 ==>
      0 <= deltaL <= QuadB(absAmount, liquidity, sqrtRatioCurrentX96, fee, isToken0) / fee
  {
    if exactIn then
      var p := if isToken0 then sqrtRatioCurrentX96 else Q96;
      assert p * (absAmount * fee) == p * absAmount * fee;
      assert absAmount >= 0 && sqrtRatioCurrentX96 > 0 ==> p * absAmount * fee >= 0 by {
        if absAmount >= 0 && sqrtRatioCurrentX96 > 0 {
          MulNonneg(absAmount, fee);
          MulNonneg(p, absAmount * fee);
        }
      }
      if isToken0 then
        MulDiv(sqrtRatioCurrentX96, absAmount * fee, TwoFeeUnits * Q96)
      else
        MulDivRoundingDown(Q96, absAmount * fee, TwoFeeUnits * sqrtRatioCurrentX96)
    else
      var b := QuadB(absAmount, liquidity, sqrtRatioCurrentX96, fee, isToken0);
      var c := QuadC(absAmount, liquidity, sqrtRatioCurrentX96, fee, isToken0);
      assert absAmount >= 0 && liquidity >= 0 && sqrtRatioCurrentX96 > 0 && b > 0 ==>
        0 <= GetSmallerRootOfQuadEqn(fee, b, c) <= b / fee by {
        if absAmount >= 0 && liquidity >= 0 && sqrtRatioCurrentX96 > 0 && b > 0 {
          MulNonneg(fee, liquidity);
          MulNonneg(fee * liquidity, absAmount);
          if isToken0 {
            MulDivNonneg(fee * liquidity * absAmount, sqrtRatioCurrentX96, Q96);
          } else {
            MulDivNonneg(fee * liquidity * absAmount, Q96, sqrtRatioCurrentX96);
          }
          SmallerRootBounds(fee, b, c);
        }
      }
      GetSmallerRootOfQuadEqn(fee, b, c)
  }

  /** The amount valued in the other token at the current price, as `calcFinalPrice` computes it. */
  function AmountAtCurrentPrice(absAmount: int, sqrtRatioCurrentX96: int, isToken0: bool): int
    requires !isToken0 ==> sqrtRatioCurrentX96 != 0
  {
    if isToken0 then MulDiv(absAmount, sqrtRatioCurrentX96, Q96) else MulDiv(absAmount, Q96, sqrtRatioCurrentX96)
  }

  /** No divisor of `calcFinalPrice` is zero. */
  predicate FinalPriceDefined(absAmount: int, liquidity: int, deltaL: int, sqrtRatioCurrentX96: int, exactIn: bool, isToken0: bool)
  {
    && (!isToken0 ==> sqrtRatioCurrentX96 != 0)
    && (if isToken0 then
          var amount := AmountAtCurrentPrice(absAmount, sqrtRatioCurrentX96, isToken0);
          (if exactIn then liquidity + amount else liquidity - amount) != 0
        else liquidity + deltaL != 0)
  }

  /**
    `calcFinalPrice`: the price after an amount-limited step, from the
    liquidity L + deltaL and the amount valued at the current price.
  */
  function CalcFinalPrice(absAmount: int, liquidity: int, deltaL: int, sqrtRatioCurrentX96: int, exactIn: bool, isToken0: bool): (r: int)
    requires FinalPriceDefined(absAmount, liquidity, deltaL, sqrtRatioCurrentX96, exactIn, isToken0)
    ensures exactIn ==> r != 1
  {
    var amount := AmountAtCurrentPrice(absAmount, sqrtRatioCurrentX96, isToken0);
    var price :=
      if isToken0 then
        if exactIn then
          MulDivRoundingUp(liquidity + deltaL, sqrtRatioCurrentX96, liquidity + amount)
        else
          MulDiv(liquidity + deltaL, sqrtRatioCurrentX96, liquidity - amount)
      else
        if exactIn then
          MulDiv(liquidity + amount, sqrtRatioCurrentX96, liquidity + deltaL)
        else
          MulDivRoundingUp(liquidity - amount, sqrtRatioCurrentX96, liquidity + deltaL);
    DropRoundingNoise(price, exactIn)
  }

  /**
    Whether the remaining amount runs out before the target: the reach
    amount is at least the remaining input, or at most the (negative)
    remaining output.
  */
  predicate AmountLimited(reachAmount: int, amountRemaining: int, exactIn: bool)
  {
    if exactIn then reachAmount >= amountRemaining else reachAmount <= amountRemaining
  }

  /** No divisor anywhere in `ComputeSwapStep` is zero, along the path the step takes. */
  predicate StepDefined(sqrtRatioCurrentX96: int, sqrtRatioTargetX96: int, liquidity: int, amountRemaining: int, fee: nat, exactIn: bool, isToken0: bool)
  {
    sqrtRatioCurrentX96 == sqrtRatioTargetX96 ||
    (ReachDefined(sqrtRatioCurrentX96, sqrtRatioTargetX96, fee, exactIn, isToken0) &&
     var reachAmount := CalcReachAmount(sqrtRatioCurrentX96, sqrtRatioTargetX96, liquidity, fee, exactIn, isToken0);
     var limited := AmountLimited(reachAmount, amountRemaining, exactIn);
     var usedAmount := if limited then amountRemaining else reachAmount;
     var next := if limited then 0 else sqrtRatioTargetX96;
     if next == 0 then
       && EstimateDefined(Abs(usedAmount), liquidity, sqrtRatioCurrentX96, fee, exactIn, isToken0)
       && var deltaL := EstimateIncrementalLiquidity(Abs(usedAmount), liquidity, sqrtRatioCurrentX96, fee, exactIn, isToken0);
          && FinalPriceDefined(Abs(usedAmount), liquidity, deltaL, sqrtRatioCurrentX96, exactIn, isToken0)
          && ReturnedDefined(sqrtRatioCurrentX96,
               CalcFinalPrice(Abs(usedAmount), liquidity, deltaL, sqrtRatioCurrentX96, exactIn, isToken0), isToken0)
     else
       && IncrementalDefined(sqrtRatioCurrentX96, sqrtRatioTargetX96, isToken0)
       && ReturnedDefined(sqrtRatioCurrentX96, sqrtRatioTargetX96, isToken0))
  }

  /**
    `ComputeSwapStep`. Equal prices are a no-op. Otherwise the used amount
    is the smaller of reach and remaining input (exact input) or the larger
    of reach and remaining output (exact output, both negative); a step the
    remaining amount does not limit lands on the target and takes the fee
    liquidity the target implies for the reach amount, and a limited one
    takes its fee liquidity and price from the estimate. The fee liquidity
    is never negative on the target path, nor on the limited path for
    exact input, or for exact output when b of the fee quadratic is positive. Either way the
    returned amount is the one for the move from the current to the new
    price with L + deltaL, and an exact-input step never returns 1.
  */
  function ComputeSwapStep(sqrtRatioCurrentX96: int, sqrtRatioTargetX96: int, liquidity: int, amountRemaining: int, fee: nat, exactIn: bool, isToken0: bool): (r: SwapStepResult)
    requires StepDefined(sqrtRatioCurrentX96, sqrtRatioTargetX96, liquidity, amountRemaining, fee, exactIn, isToken0)
    ensures sqrtRatioCurrentX96 == sqrtRatioTargetX96 ==> r == SwapStepResult(sqrtRatioCurrentX96, 0, 0, 0)
    ensures sqrtRatioCurrentX96 != sqrtRatioTargetX96 ==>
      var reachAmount := CalcReachAmount(sqrtRatioCurrentX96, sqrtRatioTargetX96, liquidity, fee, exactIn, isToken0);
      && r.amountIn == (if exactIn then Min(reachAmount, amountRemaining) else Max(reachAmount, amountRemaining))
      && (!AmountLimited(reachAmount, amountRemaining, exactIn) && sqrtRatioTargetX96 != 0 ==>
            && r.sqrtRatioNextX96 == sqrtRatioTargetX96
            && r.deltaL == CalcIncrementalLiquidity(sqrtRatioCurrentX96, sqrtRatioTargetX96, liquidity, Abs(reachAmount), exactIn, isToken0)
            && r.deltaL >= 0)
      && (AmountLimited(reachAmount, amountRemaining, exactIn) ==>
            && r.deltaL == EstimateIncrementalLiquidity(Abs(amountRemaining), liquidity, sqrtRatioCurrentX96, fee, exactIn, isToken0)
            && r.sqrtRatioNextX96 == CalcFinalPrice(Abs(amountRemaining), liquidity, r.deltaL, sqrtRatioCurrentX96, exactIn, isToken0)
            && (exactIn && sqrtRatioCurrentX96 > 0 ==> r.deltaL >= 0)
            && ((!exactIn && liquidity >= 0 && sqrtRatioCurrentX96 > 0
                 && QuadB(Abs(amountRemaining), liquidity, sqrtRatioCurrentX96, fee, isToken0) > 0)
                ==> r.deltaL >= 0))
      && ReturnedDefined(sqrtRatioCurrentX96, r.sqrtRatioNextX96, isToken0)
      && r.amountOut == CalcReturnedAmount(sqrtRatioCurrentX96, r.sqrtRatioNextX96, liquidity, r.deltaL, exactIn, isToken0)
    ensures exactIn ==> r.amountOut != 1
  {
    if sqrtRatioCurrentX96 == sqrtRatioTargetX96 then
      SwapStepResult(sqrtRatioCurrentX96, 0, 0, 0)
    else
      var reachAmount := CalcReachAmount(sqrtRatioCurrentX96, sqrtRatioTargetX96, liquidity, fee, exactIn, isToken0);
      var limited := AmountLimited(reachAmount, amountRemaining, exactIn);
      var usedAmount := if limited then amountRemaining else reachAmount;
      var next := if limited then 0 else sqrtRatioTargetX96;
      var absUsedAmount := Abs(usedAmount);
      if next == 0 then
        var deltaL := EstimateIncrementalLiquidity(absUsedAmount, liquidity, sqrtRatioCurrentX96, fee, exactIn, isToken0);
        var finalPrice := CalcFinalPrice(absUsedAmount, liquidity, deltaL, sqrtRatioCurrentX96, exactIn, isToken0);
        SwapStepResult(finalPrice, usedAmount,
          CalcReturnedAmount(sqrtRatioCurrentX96, finalPrice, liquidity, deltaL, exactIn, isToken0), deltaL)
      else
        var deltaL := CalcIncrementalLiquidity(sqrtRatioCurrentX96, sqrtRatioTargetX96, liquidity, absUsedAmount, exactIn, isToken0);
        SwapStepResult(next, usedAmount,
          CalcReturnedAmount(sqrtRatioCurrentX96, next, liquidity, deltaL, exactIn, isToken0), deltaL)
  }

  /**
    The reach amount's denominator is positive and, for exact output, so
    is the fee-adjusted numerator: the conditions under which the reach
    amount has the sign of its side.
  */
  predicate ReachWellConditioned(sqrtRatioCurrentX96: int, sqrtRatioTargetX96: int, fee: nat, exactIn: bool, isToken0: bool)
  {
    && ReachDenominator(sqrtRatioCurrentX96, sqrtRatioTargetX96, fee, exactIn, isToken0) > 0
    && (!exactIn ==> ReachOutNumerator(sqrtRatioCurrentX96, sqrtRatioTargetX96, fee, isToken0) >= 0)
  }

  /**
    A fee of at most half of FeeUnits and a target within 5% of the
    current price make the reach amount well conditioned in every mode.
  */
  lemma NearbyTargetIsWellConditioned(sqrtRatioCurrentX96: int, sqrtRatioTargetX96: int, fee: nat, exactIn: bool, isToken0: bool)
    requires sqrtRatioCurrentX96 > 0 && sqrtRatioTargetX96 > 0
    requires 2 * fee <= FeeUnits && 20 * Abs(sqrtRatioCurrentX96 - sqrtRatioTargetX96) <= sqrtRatioCurrentX96
    ensures ReachWellConditioned(sqrtRatioCurrentX96, sqrtRatioTargetX96, fee, exactIn, isToken0)
    ensures ReachDefined(sqrtRatioCurrentX96, sqrtRatioTargetX96, fee, exactIn, isToken0)
  {
    MulMonotone(sqrtRatioCurrentX96, fee, FeeUnits / 2);
    MulMonotone(sqrtRatioTargetX96, fee, FeeUnits / 2);
    assert fee * sqrtRatioCurrentX96 <= 50000 * sqrtRatioCurrentX96;
    assert fee * sqrtRatioTargetX96 <= 50000 * sqrtRatioTargetX96;
  }

  /**
    The fee liquidity of a target-limited step grows with the amount for
    exact input and shrinks with it for exact output.
  */
  lemma IncrementalLiquidityMonotone(sqrtRatioCurrentX96: int, sqrtRatioTargetX96: int, liquidity: int, absAmount: int, absAmount': int, exactIn: bool, isToken0: bool)
    requires sqrtRatioCurrentX96 > 0 && sqrtRatioTargetX96 > 0 && absAmount <= absAmount'
    ensures var deltaL := CalcIncrementalLiquidity(sqrtRatioCurrentX96, sqrtRatioTargetX96, liquidity, absAmount, exactIn, isToken0);
      var deltaL' := CalcIncrementalLiquidity(sqrtRatioCurrentX96, sqrtRatioTargetX96, liquidity, absAmount', exactIn, isToken0);
      && (exactIn ==> deltaL <= deltaL')
      && (!exactIn ==> deltaL' <= deltaL)
  {
    var v := if isToken0 then MulDiv(liquidity, Q96, sqrtRatioCurrentX96) else MulDiv(liquidity, sqrtRatioCurrentX96, Q96);
    var lo := if exactIn then v + absAmount else v - absAmount';
    var hi := if exactIn then v + absAmount' else v - absAmount;
    if isToken0 {
      MulMonotone(sqrtRatioTargetX96, lo, hi);
      DivMonotone(sqrtRatioTargetX96 * lo, sqrtRatioTargetX96 * hi, Q96);
    } else {
      MulMonotone(Q96, lo, hi);
      DivMonotone(lo * Q96, hi * Q96, sqrtRatioTargetX96);
    }
  }

  /**
    Exact-input fee liquidity never exceeds the amount valued at the
    current price, for any fee up to 2*FeeUnits.
  */
  lemma EstimateExactInBelowAmount(absAmount: int, liquidity: int, sqrtRatioCurrentX96: int, fee: nat, isToken0: bool)
    requires absAmount >= 0 && sqrtRatioCurrentX96 > 0 && fee <= TwoFeeUnits
    ensures var deltaL := EstimateIncrementalLiquidity(absAmount, liquidity, sqrtRatioCurrentX96, fee, true, isToken0);
      0 <= deltaL <= AmountAtCurrentPrice(absAmount, sqrtRatioCurrentX96, isToken0)
  {
    var p := if isToken0 then sqrtRatioCurrentX96 else Q96;
    var d := if isToken0 then Q96 else sqrtRatioCurrentX96;
    var x := absAmount * p;
    MulNonneg(absAmount, p);
    MulNonneg(absAmount, fee);
    MulNonneg(p, absAmount * fee);
    assert p * (absAmount * fee) == x * fee;
    DivDiv(x * fee, TwoFeeUnits, d);
    MulMonotone(x, fee, TwoFeeUnits);
    DivMonotone(x * fee, x * TwoFeeUnits, TwoFeeUnits);
    DivUnique(x * TwoFeeUnits, TwoFeeUnits, x, 0);
    DivMonotone((x * fee) / TwoFeeUnits, x, d);
    assert TwoFeeUnits * d == if isToken0 then TwoFeeUnits * Q96 else TwoFeeUnits * sqrtRatioCurrentX96;
  }

  /**
    On the amount-limited path the price never moves against the swap:
    token0 in (exact-input token0, exact-output token1) leaves it at or
    below the current price and non-negative, token1 in at or above it.
    Exact output also needs a positive b in the fee quadratic and less
    remaining output than the pool's liquidity can give at the current price.
  */
  lemma LimitedStepDirection(sqrtRatioCurrentX96: int, sqrtRatioTargetX96: int, liquidity: int, amountRemaining: int, fee: nat, exactIn: bool, isToken0: bool)
    requires StepDefined(sqrtRatioCurrentX96, sqrtRatioTargetX96, liquidity, amountRemaining, fee, exactIn, isToken0)
    requires sqrtRatioCurrentX96 != sqrtRatioTargetX96
    requires sqrtRatioCurrentX96 > 1 && liquidity > 0 && fee <= TwoFeeUnits
    requires exactIn ==> amountRemaining >= 0
    requires !exactIn ==>
      && amountRemaining <= 0
      && QuadB(-amountRemaining, liquidity, sqrtRatioCurrentX96, fee, isToken0) > 0
      && var amount := AmountAtCurrentPrice(-amountRemaining, sqrtRatioCurrentX96, isToken0);
         if isToken0 then amount < liquidity else amount <= liquidity
    requires AmountLimited(CalcReachAmount(sqrtRatioCurrentX96, sqrtRatioTargetX96, liquidity, fee, exactIn, isToken0), amountRemaining, exactIn)
    ensures var r := ComputeSwapStep(sqrtRatioCurrentX96, sqrtRatioTargetX96, liquidity, amountRemaining, fee, exactIn, isToken0);
      && (exactIn == isToken0 ==> 0 <= r.sqrtRatioNextX96 <= sqrtRatioCurrentX96)
      && (exactIn != isToken0 ==> r.sqrtRatioNextX96 >= sqrtRatioCurrentX96)
  {
    var absAmount := Abs(amountRemaining);
    var deltaL := EstimateIncrementalLiquidity(absAmount, liquidity, sqrtRatioCurrentX96, fee, exactIn, isToken0);
    if exactIn {
      EstimateExactInBelowAmount(absAmount, liquidity, sqrtRatioCurrentX96, fee, isToken0);
    }
    FinalPriceDirection(absAmount, liquidity, deltaL, sqrtRatioCurrentX96, exactIn, isToken0);
  }

  /**
    The final price moves the way the swap goes: at or below the current
    price (and non-negative) when token0 goes in, at or above it when
    token1 goes in. Exact input needs the fee liquidity to be at most the
    amount valued at the current price, exact output an amount the
    liquidity covers.
  */
  lemma FinalPriceDirection(absAmount: int, liquidity: int, deltaL: int, sqrtRatioCurrentX96: int, exactIn: bool, isToken0: bool)
    requires absAmount >= 0 && liquidity > 0 && deltaL >= 0 && sqrtRatioCurrentX96 > 1
    requires var amount := AmountAtCurrentPrice(absAmount, sqrtRatioCurrentX96, isToken0);
      if exactIn then deltaL <= amount
      else if isToken0 then amount < liquidity
      else amount <= liquidity
    ensures FinalPriceDefined(absAmount, liquidity, deltaL, sqrtRatioCurrentX96, exactIn, isToken0)
    ensures var r := CalcFinalPrice(absAmount, liquidity, deltaL, sqrtRatioCurrentX96, exactIn, isToken0);
      && (exactIn == isToken0 ==> 0 <= r <= sqrtRatioCurrentX96)
      && (exactIn != isToken0 ==> r >= sqrtRatioCurrentX96)
  {
    var amount := AmountAtCurrentPrice(absAmount, sqrtRatioCurrentX96, isToken0);
    if isToken0 {
      MulDivNonneg(absAmount, sqrtRatioCurrentX96, Q96);
    } else {
      MulDivNonneg(absAmount, Q96, sqrtRatioCurrentX96);
    }
    if exactIn && isToken0 {
      RoundingUpIsCeil(liquidity + deltaL, sqrtRatioCurrentX96, liquidity + amount);
      CeilDivBelow(liquidity + deltaL, liquidity + amount, sqrtRatioCurrentX96);
    } else if exactIn {
      FloorDivAbove(liquidity + amount, liquidity + deltaL, sqrtRatioCurrentX96);
    } else if isToken0 {
      FloorDivAbove(liquidity + deltaL, liquidity - amount, sqrtRatioCurrentX96);
    } else {
      RoundingUpIsCeil(liquidity - amount, sqrtRatioCurrentX96, liquidity + deltaL);
      CeilDivBelow(liquidity - amount, liquidity + deltaL, sqrtRatioCurrentX96);
    }
  }

  /** ceil(n*p / d) lies in [0, p] when 0 <= n <= d and p > 0. */
  lemma CeilDivBelow(n: int, d: int, p: int)
    requires 0 <= n <= d && d > 0 && p > 0
    ensures 0 <= CeilDiv(n * p, d) <= p
  {
    var x := n * p;
    MulMonotone(p, n, d);
    MulNonneg(n, p);
    var c := CeilDiv(x, d);
    if c > p {
      MulMonotone(d, p + 1, c);
    }
    if c < 0 {
      MulMonotone(d, c, -1);
    }
  }

  /** floor(n*p / d) is at least p when n >= d > 0. */
  lemma FloorDivAbove(n: int, d: int, p: int)
    requires n >= d > 0 && p > 0
    ensures (n * p) / d >= p
  {
    MulMonotone(p, d, n);
    DivUnique(d * p, d, p, 0);
    DivMonotone(d * p, n * p, d);
  }

  /**
    For token0 the returned amount is deltaL*next + L*(next - current)
    over 2^96, rounded up: the ceiling of the fee term minus the floor of
    the liquidity term, so the protocol is never short. An exact-input
    result may instead be the rounding-noise 0.
  */
  lemma ReturnedAmountToken0Bracket(sqrtRatioCurrentX96: int, sqrtRatioNextX96: int, liquidity: int, deltaL: int, exactIn: bool)
    ensures var r := CalcReturnedAmount(sqrtRatioCurrentX96, sqrtRatioNextX96, liquidity, deltaL, exactIn, true);
      var exact := deltaL * sqrtRatioNextX96 + liquidity * (sqrtRatioNextX96 - sqrtRatioCurrentX96);
      (exactIn && r == 0) || (exact <= r * Q96 < exact + 2 * Q96)
  {
    var u := MulDivRoundingUp(deltaL, sqrtRatioNextX96, Q96);
    var f := if exactIn then -MulDiv(liquidity, sqrtRatioCurrentX96 - sqrtRatioNextX96, Q96)
             else MulDivRoundingUp(liquidity, sqrtRatioNextX96 - sqrtRatioCurrentX96, Q96);
    assert liquidity * (sqrtRatioNextX96 - sqrtRatioCurrentX96) == -(liquidity * (sqrtRatioCurrentX96 - sqrtRatioNextX96));
    assert (u + f) * Q96 == u * Q96 + f * Q96;
    if exactIn {
      var m := MulDiv(liquidity, sqrtRatioCurrentX96 - sqrtRatioNextX96, Q96);
      assert f * Q96 == -(m * Q96);
    }
  }

  /**
    For token1 the returned amount is (L + deltaL)*2^96/next - L*2^96/current,
    each term rounded up. Scaled by next*current it lies strictly within
    next*current of the exact value on either side: subtracting a
    rounded-up term can leave it below the exact amount. An exact-input
    result may instead be the rounding-noise 0.
  */
  lemma ReturnedAmountToken1Bracket(sqrtRatioCurrentX96: int, sqrtRatioNextX96: int, liquidity: int, deltaL: int, exactIn: bool)
    requires sqrtRatioCurrentX96 > 0 && sqrtRatioNextX96 > 0
    ensures var r := CalcReturnedAmount(sqrtRatioCurrentX96, sqrtRatioNextX96, liquidity, deltaL, exactIn, false);
      var scale := sqrtRatioNextX96 * sqrtRatioCurrentX96;
      var exact := (liquidity + deltaL) * Q96 * sqrtRatioCurrentX96 - liquidity * Q96 * sqrtRatioNextX96;
      (exactIn && r == 0) || (exact - scale < r * scale < exact + scale)
  {
    var c := sqrtRatioCurrentX96;
    var n := sqrtRatioNextX96;
    var u := MulDivRoundingUp(liquidity + deltaL, Q96, n);
    var v := MulDivRoundingUp(liquidity, Q96, c);
    CeilDifferenceBracket((liquidity + deltaL) * Q96, liquidity * Q96, n, c, u, v);
  }

  /** The difference of two ceilings u of A/n and v of B/c, scaled by n*c, is within n*c of A*c - B*n. */
  lemma CeilDifferenceBracket(a: int, b: int, n: int, c: int, u: int, v: int)
    requires n > 0 && c > 0 && (u - 1) * n < a <= u * n && (v - 1) * c < b <= v * c
    ensures a * c - b * n - n * c < (u - v) * (n * c) < a * c - b * n + n * c
  {
    CeilScaled(a, n, u, c);
    CeilScaled(b, c, v, n);
    assert (u - v) * (n * c) == u * n * c - v * c * n;
  }

  /** A ceiling q of x / d, scaled by k > 0: x*k <= q*d*k < x*k + d*k. */
  lemma CeilScaled(x: int, d: int, q: int, k: int)
    requires d > 0 && k > 0 && (q - 1) * d < x <= q * d
    ensures x * k <= q * d * k < x * k + d * k
  {
    MulMonotone(k, x, q * d);
    MulMonotone(k, (q - 1) * d + 1, x);
    assert k * ((q - 1) * d + 1) == q * d * k - d * k + k;
  }

  /**
    The token1 returned amount can fall short of the exact value: with
    current = 3*2^40, next = 2^40, L = 1 and deltaL = 0 on an exact-output
    step the input asked for is 2^56 - ceil(2^56/3), below the exact
    2^56 - 2^56/3.
  */
  lemma ReturnedAmountToken1ShortOfExact()
    ensures var c := 3 * 0x100_0000_0000;
      var n := 0x100_0000_0000;
      CalcReturnedAmount(c, n, 1, 0, false, false) * (n * c) < Q96 * c - Q96 * n
  {
    var c := 3 * 0x100_0000_0000;
    var n := 0x100_0000_0000;
    DivUnique(Q96, n, 72057594037927936, 0);
    DivUnique(Q96, c, 24019198012642645, Q96 - c * 24019198012642645);
    RoundingUpIsFloorPlusRemainder(1, Q96, n);
    RoundingUpIsFloorPlusRemainder(1, Q96, c);
    assert CalcReturnedAmount(c, n, 1, 0, false, false) == 48038396025285290;
  }

  /**
    The returned amount with the token1 rounding the comments promise: the
    subtracted L*2^96/current term is rounded down, so the result always
    rounds against the trader. Token0 is unchanged.
  */
  function IntendedReturnedAmount(sqrtRatioCurrentX96: int, sqrtRatioTargetX96: int, liquidity: int, deltaL: int, exactIn: bool, isToken0: bool): (r: int)
    requires ReturnedDefined(sqrtRatioCurrentX96, sqrtRatioTargetX96, isToken0)
    ensures exactIn ==> r != 1
  {
    if isToken0 then
      CalcReturnedAmount(sqrtRatioCurrentX96, sqrtRatioTargetX96, liquidity, deltaL, exactIn, isToken0)
    else
      DropRoundingNoise(
        MulDivRoundingUp(liquidity + deltaL, Q96, sqrtRatioTargetX96)
          + -MulDiv(liquidity, Q96, sqrtRatioCurrentX96), exactIn)
  }

  /**
    The intended returned amount never falls below the exact value and
    exceeds it by less than two units: scaled by 2^96 for token0 and by
    next*current for token1. An exact-input result may be the
    rounding-noise 0.
  */
  lemma IntendedReturnedAmountRoundsAgainstTrader(sqrtRatioCurrentX96: int, sqrtRatioNextX96: int, liquidity: int, deltaL: int, exactIn: bool, isToken0: bool)
    requires !isToken0 ==> sqrtRatioCurrentX96 > 0 && sqrtRatioNextX96 > 0
    ensures var r := IntendedReturnedAmount(sqrtRatioCurrentX96, sqrtRatioNextX96, liquidity, deltaL, exactIn, isToken0);
      var scale := if isToken0 then Q96 else sqrtRatioNextX96 * sqrtRatioCurrentX96;
      var exact :=
        if isToken0 then deltaL * sqrtRatioNextX96 + liquidity * (sqrtRatioNextX96 - sqrtRatioCurrentX96)
        else (liquidity + deltaL) * Q96 * sqrtRatioCurrentX96 - liquidity * Q96 * sqrtRatioNextX96;
      (exactIn && r == 0) || (exact <= r * scale < exact + 2 * scale)
  {
    if isToken0 {
      ReturnedAmountToken0Bracket(sqrtRatioCurrentX96, sqrtRatioNextX96, liquidity, deltaL, exactIn);
    } else {
      var c := sqrtRatioCurrentX96;
      var n := sqrtRatioNextX96;
      var u := MulDivRoundingUp(liquidity + deltaL, Q96, n);
      var v := MulDiv(liquidity, Q96, c);
      CeilScaled((liquidity + deltaL) * Q96, n, u, c);
      FloorScaled(liquidity * Q96, c, v, n);
      assert (u - v) * (n * c) == u * n * c - v * c * n;
    }
  }

  /** A floor q of x / d, scaled by k > 0: x*k - d*k < q*d*k <= x*k. */
  lemma FloorScaled(x: int, d: int, q: int, k: int)
    requires d > 0 && k > 0 && q * d <= x < q * d + d
    ensures x * k - d * k < q * d * k <= x * k
  {
    MulMonotone(k, q * d, x);
    MulMonotone(k, x, q * d + d - 1);
    assert k * (q * d + d - 1) == q * d * k + d * k - k;
  }
}
