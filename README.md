# promm-sdk-go pricing math in Dafny

This project models the fixed-point pricing core of promm-sdk-go. That is the
math of a concentrated-liquidity AMM in the Uniswap v3 lineage, with the proMM
swap step that collects its fee as extra liquidity. The model covers:

- multiply-then-divide with chosen rounding, and the smaller root of the fee
  quadratic (`FullMath`);
- the index of the highest set bit (`BitScan`, an imperative loop);
- the signed liquidity update (`LiquidityMath`);
- the Q64.96 square-root price of a token ratio (`Encode`);
- tick to square-root price and back (`TickMath`). The price-to-tick direction
  is an imperative 14-round binary logarithm;
- token amounts between two prices and the price after adding or removing an
  amount (`SqrtPriceMath`);
- one swap step (`SwapMath`).

The Go code computes on the signed integer type of an `int256` package, which
is not part of this model. The model assumes that type does not wrap, and
takes it to be the unbounded Dafny `int`. Every operator is written out with
the meaning the source gives it:

- `Div` is Euclidean, which is Dafny `/`.
- `Quo` and `Rem` truncate toward zero (`Arith.Quo`, `Arith.Rem`).
- `Rsh` is floor division by a power of two, and `Lsh` is multiplication.
- `And` with `MaxUint256` is `% 2^256`.
- `Or` is two's-complement OR.
- `Sqrt` is the integer square root (`Arith.Isqrt`).

The Go code panics on a zero divisor or the square root of a negative number.
Each such case is a precondition: for the larger functions, a `...Defined`
predicate that lists exactly the divisors on the path taken. Every error the
Go code returns is modelled as `Errors.Result`.

Modules, one per Go file: `Arith` (shared integer helpers), `Errors`,
`FullMath`, `BitScan`, `LiquidityMath`, `Encode`, `TickMath`,
`SqrtPriceMath`, `SwapMath`.

## Model

| member | source | states |
|---|---|---|
| FullMath.MulDiv | utils/full_math.go:22-25 | For a positive divisor the result is the floor quotient of the exact product: r*d <= a*b < r*d + d |
| FullMath.MulDivRoundingUp | utils/full_math.go:8-15 | For a positive divisor the result is the least r with a*b <= r*d |
| FullMath.MulDivRoundingDown | utils/full_math.go:17-20 | Truncates toward zero: the magnitude is the floor of the magnitudes, the result is >= 0 when a*b and d agree in sign and <= 0 otherwise, and it equals MulDiv when the product is non-negative and the divisor positive |
| FullMath.RoundingUpIsFloorPlusRemainder | utils/full_math.go:8-15 | Rounding up is the Euclidean quotient plus one exactly when d does not divide a*b, and equals it otherwise |
| FullMath.RoundingsBracketProduct | utils/full_math.go:8-25 | The two roundings bracket a*b and differ by at most one |
| FullMath.RoundingUpIsCeil | utils/full_math.go:8-15 | For a positive divisor, rounding up is the ceiling of a*b/d |
| FullMath.GetSmallerRootOfQuadEqn | utils/full_math.go:27-34 | For positive a the result is the floor of (b - isqrt(b*b - a*c)) / a |
| FullMath.SmallerRootBounds | utils/full_math.go:27-34 | With a, b > 0 and c >= 0 the smaller root lies in [0, b/a] |
| FullMath.SmallerRootOfZeroConstant | utils/full_math.go:27-34 | With c = 0 the smaller root is 0 |
| BitScan.PowersHalve | utils/most_significant_bit.go:13-20 | The threshold table is 128, 64, ..., 1, each 2^(7-i) |
| BitScan.MostSignificantBit | utils/most_significant_bit.go:22-38 | Fails with InvalidInput exactly outside (0, 2^256-1]; otherwise returns m <= 255 with 2^m <= x < 2^(m+1), the reference Msb(x) |
| LiquidityMath.AddDelta | utils/liquidity_math.go:8-14 | Both branches (subtract the magnitude of a negative delta, add a non-negative one) give x + y |
| LiquidityMath.AddDeltaInverse | utils/liquidity_math.go:8-14 | Applying y and then -y restores x |
| LiquidityMath.AddDeltaCanGoNegative | utils/liquidity_math.go:8-14 | Nothing stops the result from going negative: AddDelta(1, -2) == -1 |
| Encode.EncodeSqrtRatioX96 | utils/encode.go:11-16 | The result is the integer square root of floor(amount1 * 2^192 / amount0) |
| Encode.EncodeMonotoneInAmount1 | utils/encode.go:11-16 | For a fixed positive amount0 the price does not decrease as amount1 grows |
| Encode.EncodeOneToOne | utils/encode_test.go:13 | 1:1 encodes to 2^96 |
| Encode.EncodeHundredfold | utils/encode_test.go:15-19 | 100:1 and 1:100 give the expected values |
| Encode.EncodeThirds | utils/encode_test.go:21-25 | 111:333 and 333:111 give the expected values |
| TickMath.MulShift | utils/tick_math.go:30-33 | The result is floor(val * mulBy / 2^128) |
| TickMath.MulShiftShrinks | utils/tick_math.go:30-33 | Multiplying by a factor at most 2^128 never grows a non-negative value |
| TickMath.BitFactorFacts | utils/tick_math.go:95-156 | The 20-row table tests bit k of the absolute tick, and every factor lies strictly between 0 and 2^128 |
| TickMath.RatioBetweenAllBitsAndOne | utils/tick_math.go:95-156 | After any prefix of the bit chain the ratio lies between the all-bits ratio and 2^128 |
| TickMath.AllBitsRatio | utils/tick_math.go:95-156 | With all 20 bits set the chain ends at 5800441176149320, so it never reaches 0 |
| TickMath.SqrtRatioX128 | utils/tick_math.go:86-159 | The Q128.128 ratio is in (0, 2^128] for tick <= 0 and at least 2^128 - 1 for tick > 0 |
| TickMath.GetSqrtRatioAtTick | utils/tick_math.go:86-167 | Fails with InvalidTick exactly outside [MinTick, MaxTick]; otherwise a positive price that rounds the Q128.128 ratio up to Q64.96, at most 2^96 for tick <= 0 and at least 2^96 for tick > 0 |
| TickMath.PositiveTickIsReciprocal | utils/tick_math.go:157-159 | For a positive tick the ratio is floor((2^256-1) / ratio(-tick)) |
| TickMath.SqrtRatioAtTickZero | utils/tick_math_test.go:14-24 | Tick 0 gives 2^96; MinTick-1 and MaxTick+1 fail with InvalidTick |
| TickMath.SqrtRatioAtMinTick | utils/tick_math_test.go:20-21 | MinTick gives MinSqrtRatio |
| TickMath.SqrtRatioAtMaxTick | utils/tick_math_test.go:26-27 | MaxTick gives MaxSqrtRatio |
| TickMath.NormalizeBounds | utils/tick_math.go:189-194 | Shifting by msb - 127 puts the Q128 price in [2^127, 2^128) |
| TickMath.LogBitsBounds | utils/tick_math.go:199-204 | The 14 rounds only fill the 14 fraction bits below the integer part: log2 grows by less than 2^(64-i) |
| TickMath.Log2X64Bounds | utils/tick_math.go:184-204 | The Q64 logarithm lies between (msb - 128) * 2^64 and (msb - 127) * 2^64 |
| TickMath.TickCandidatesAdjacent | utils/tick_math.go:206-210 | The two candidate ticks are equal or adjacent, tickLow first |
| TickMath.TickAtSqrtRatio | utils/tick_math.go:180-227 | Fails with InvalidSqrtRatio exactly outside [MinSqrtRatio, MaxSqrtRatio); any other failure is InvalidTick from the candidate check |
| TickMath.TickAtSqrtRatioTieBreak | utils/tick_math.go:212-226 | The result is tickLow or tickHigh; when they differ it is tickHigh exactly when tickHigh's price is <= the input, and if it is tickLow the next tick's price exceeds the input |
| TickMath.BinaryLogLoop | utils/tick_math.go:199-204 | The loop computes the 14-round logarithm LogBits |
| TickMath.Log2OfPrice | utils/tick_math.go:184-204 | The shift, msb and loop compute the reference Log2X64 of the price |
| TickMath.GetTickAtSqrtRatio | utils/tick_math.go:180-227 | The method returns exactly the reference TickAtSqrtRatio |
| TickMath.Log2AtMinSqrtRatio | utils/tick_math.go:184-204 | The Q64 logarithm of MinSqrtRatio is -1180591620717411303424 |
| TickMath.Log2BelowMaxSqrtRatio | utils/tick_math.go:184-204 | The Q64 logarithm of MaxSqrtRatio - 1 is 1180590494817504460800 |
| TickMath.TickAtMinSqrtRatio | utils/tick_math_test.go:31-32 | MinSqrtRatio maps to MinTick |
| TickMath.TickBelowMaxSqrtRatio | utils/tick_math_test.go:34-37 | MaxSqrtRatio - 1 maps to MaxTick - 1 |
| SqrtPriceMath.MultiplyIn256 | utils/sqrtprice_math.go:19-22 | The product reduced mod 2^256: below 2^256, congruent to x*y, and equal to it when it fits |
| SqrtPriceMath.AddIn256 | utils/sqrtprice_math.go:24-27 | The sum reduced mod 2^256: below 2^256, congruent to x+y, and equal to it when it fits |
| SqrtPriceMath.MultiplyCheckIff | utils/sqrtprice_math.go:89-90 | The check product / amount == p passes exactly when the amount is positive and amount * p fits in 256 bits |
| SqrtPriceMath.AddCheckIff | utils/sqrtprice_math.go:91-92 | The check denominator >= numerator1 passes exactly when the unmasked sum fits in 256 bits |
| SqrtPriceMath.GetAmount0Delta | utils/sqrtprice_math.go:29-42 | For positive prices and non-negative liquidity the token0 amount is never negative |
| SqrtPriceMath.GetAmount1Delta | utils/sqrtprice_math.go:44-54 | For non-negative liquidity the token1 amount is never negative |
| SqrtPriceMath.Ordered | utils/sqrtprice_math.go:30-32 | The two prices come out in ascending order, as given or swapped |
| SqrtPriceMath.AmountDeltasSymmetric | utils/sqrtprice_math.go:29-54 | Both amount deltas ignore the order of the two prices |
| SqrtPriceMath.Amount0DeltaIsOneDivision | utils/sqrtprice_math.go:29-42 | For positive prices the chained roundings equal one ceiling (round up) or one floor (round down) of L*2^96*(hi-lo)/(hi*lo) |
| SqrtPriceMath.Amount0DeltaRoundings | utils/sqrtprice_math.go:37-41 | The rounded-up token0 amount is the rounded-down one or one more |
| SqrtPriceMath.Amount1DeltaRoundings | utils/sqrtprice_math.go:44-54 | Rounding up is the ceiling and rounding down the floor of L*(hi-lo)/2^96; they differ by at most one |
| SqrtPriceMath.AmountDeltasOfEqualPrices | utils/sqrtprice_math.go:29-54 | Equal prices move no token |
| SqrtPriceMath.NextSqrtPriceFromAmount0RoundingUp | utils/sqrtprice_math.go:82-108 | A zero amount returns the price unchanged; the only failure is InvariantViolation on the remove path |
| SqrtPriceMath.NextSqrtPriceFromAmount1RoundingDown | utils/sqrtprice_math.go:110-126 | The only failure is InvariantViolation on the remove path |
| SqrtPriceMath.GetNextSqrtPriceFromInput | utils/sqrtprice_math.go:56-67 | Fails exactly when the price or liquidity is not positive, checking the price first |
| SqrtPriceMath.GetNextSqrtPriceFromOutput | utils/sqrtprice_math.go:69-80 | Checks the price, then the liquidity; any other failure is InvariantViolation |
| SqrtPriceMath.Amount0AddDefinedForPositive | utils/sqrtprice_math.go:88-96 | With positive price, liquidity and amount, neither add branch divides by zero |
| SqrtPriceMath.Amount0AddLowersPrice | utils/sqrtprice_math.go:88-96 | Adding token0 gives ceil(L*2^96*p / (L*2^96 + amount*p)) when that fits in 256 bits, else ceil(L*2^96 / (L*2^96/p + amount)), and the result is in (0, p] |
| SqrtPriceMath.Amount0AddPrecise | utils/sqrtprice_math.go:89-94 | When the unmasked denominator fits, the precise branch is taken and its result lies in (0, p] |
| SqrtPriceMath.Amount0AddFallback | utils/sqrtprice_math.go:96 | When it does not fit, the fallback branch is taken and its result lies in (0, p] |
| SqrtPriceMath.Amount0RemoveRaisesPrice | utils/sqrtprice_math.go:97-107 | Removing a non-zero amount of token0 fails exactly when amount < 0, amount*p overflows, or amount*p >= L*2^96; otherwise it gives ceil(L*2^96*p / (L*2^96 - amount*p)) > p |
| SqrtPriceMath.Amount1AddRaisesPrice | utils/sqrtprice_math.go:111-119 | Both MaxUint160 branches give p + floor(amount*2^96/L), which is at least p for a non-negative amount |
| SqrtPriceMath.Amount1RemoveLowersPrice | utils/sqrtprice_math.go:121-125 | Removing token1 fails exactly when p <= ceil(amount*2^96/L); otherwise it gives p minus that ceiling, positive, and below p for a positive amount |
| SqrtPriceMath.InputMovesPriceTowardsDirection | utils/sqrtprice_math.go:56-67 | With positive price and liquidity, an input never fails; token0 in keeps the price in (0, p], token1 in keeps it at or above p |
| SqrtPriceMath.OutputMovesPriceTowardsDirection | utils/sqrtprice_math.go:69-80 | An output fails only with InvariantViolation; token1 out keeps the price in (0, p], token0 out keeps it at or above p |
| SwapMath.DropRoundingNoise | utils/swap_math.go:190-193 | An exact-input result of 1 becomes 0 and nothing else changes (the same rule as lines 336-338) |
| SwapMath.CalcReachAmount | utils/swap_math.go:64-151 | With positive prices, non-negative liquidity and a well-conditioned fee term, the reach amount is >= 0 for exact input and <= 0 for exact output |
| SwapMath.CalcReturnedAmount | utils/swap_math.go:156-196 | An exact-input returned amount is never 1 |
| SwapMath.CalcIncrementalLiquidity | utils/swap_math.go:200-246 | The fee liquidity is non-negative, at least the implied liquidity minus L, and either 0 or exactly that excess |
| SwapMath.EstimateIncrementalLiquidity | utils/swap_math.go:251-295 | Exact input takes fee/2 of the amount valued at the current price: deltaL is the non-negative floor of P*amount*fee / (2*FeeUnits*2^96) for token0 and of 2^96*amount*fee / (2*FeeUnits*P) for token1. Exact output with a positive b gives a root in [0, b/fee] |
| SwapMath.CalcFinalPrice | utils/swap_math.go:300-341 | An exact-input final price is never 1 |
| SwapMath.ComputeSwapStep | utils/swap_math.go:13-60 | Equal prices are a no-op. The used amount is min(reach, remaining) for exact input and max(reach, remaining) for exact output. A step the amount does not limit lands on a non-zero target with the non-negative fee liquidity CalcIncrementalLiquidity gives for the reach amount. A limited step takes its fee liquidity and price from the estimate, with non-negative fee liquidity for exact input and, when b of the fee quadratic is positive, for exact output. Either way the output is CalcReturnedAmount for the move to the new price with that fee liquidity, and an exact-input output is never 1 |
| SwapMath.NearbyTargetIsWellConditioned | utils/swap_math.go:76-106 | A target within 5% of the current price and a fee of at most half of FeeUnits make every reach denominator positive and every exact-output numerator non-negative |
| SwapMath.ReturnedAmountToken0Bracket | utils/swap_math.go:159-178 | For token0 the returned amount times 2^96 lies in [deltaL*next + L*(next - current), that + 2*2^96): rounding never leaves the protocol short; an exact-input result may instead be the rounding-noise 0 |
| SwapMath.IncrementalLiquidityMonotone | utils/swap_math.go:200-246 | Target-limited fee liquidity grows with the amount for exact input and shrinks with it for exact output |
| SwapMath.EstimateExactInBelowAmount | utils/swap_math.go:257-268 | Exact-input fee liquidity never exceeds the amount valued at the current price |
| SwapMath.FinalPriceDirection | utils/swap_math.go:300-341 | The final price moves the way the swap goes in all four modes: when token0 goes in (exact-input token0, exact-output token1) it stays in [0, P], when token1 goes in (exact-input token1, exact-output token0) it stays at or above P. Exact input needs deltaL at most the amount valued at P; exact output needs that value below L |
| SwapMath.LimitedStepDirection | utils/swap_math.go:45-50 | On an amount-limited step the price never moves against the swap, for exact input and exact output alike |
| SwapMath.ReturnedAmountToken1Bracket | utils/swap_math.go:179-188 | For token1 the returned amount, scaled by next*current, lies strictly within next*current of the exact (L + deltaL)*2^96*current - L*2^96*next on either side, or is the exact-input rounding-noise 0 |
| SwapMath.ReturnedAmountToken1ShortOfExact | utils/swap_math.go:179-188 | With current = 3*2^40, next = 2^40, L = 1, deltaL = 0 and exact output, the token1 amount asked for is below the exact value |
| SwapMath.IntendedReturnedAmount | utils/swap_math.go:154-196 | The returned amount with the subtracted token1 term rounded down; an exact-input result is never 1 |
| SwapMath.IntendedReturnedAmountRoundsAgainstTrader | utils/swap_math.go:154-196 | The intended amount is never below the exact value and exceeds it by less than two units, for both tokens, or is the exact-input rounding-noise 0 |

## Left out

- The debug `fmt.Println` in `GetTickAtSqrtRatio` (utils/tick_math.go:221) is console output with no effect on the result.
- The `int64` conversions of tickLow and tickHigh (utils/tick_math.go:208-210) are not modelled: the values are bounded by the tick range, so they never truncate.
- The `int256` and `constants` packages are not part of this model:
  - `Q96` is 2^96 and `MaxUint256` is 2^256 - 1.
  - The fee is a natural number.
  - `Sqrt` is the integer square root.
- Integer width: the model assumes the `int256` type neither wraps nor saturates, since its package is not part of this model. Only the explicit 256-bit masking in `multiplyIn256` and `addIn256` is modelled. Any overflow behaviour of that type elsewhere is not captured.
- Division by zero and the square root of a negative number panic in Go. They are preconditions here rather than a `DivisionByZero` error; no function in the core returns such an error.
- The `init` that fills `powerBigInts` (utils/most_significant_bit.go:16-20) is the constant `BitScan.Powers`.
- TickMath.GetTickAtSqrtRatio: the `MostSignificantBit` error branch (utils/tick_math.go:186-188) cannot be reached, because in-range prices shifted by 32 bits are in (0, 2^256). The method shows this rather than modelling a return.
- TickMath.GetTickAtSqrtRatio: the Go function is one body; the model splits it into `BinaryLogLoop` and `Log2OfPrice`, each proved against its reference function.
- TickMath.TickAtSqrtRatio, TickMath.GetTickAtSqrtRatio, TickMath.TickAtSqrtRatioTieBreak: the documented contract, the largest tick whose price is <= the input, that is getSqrtRatioAtTick(tick) <= price < getSqrtRatioAtTick(tick+1), is stated only for the tie-break between the two candidates (`TickAtSqrtRatioTieBreak`). It is not proved for all prices, because that needs bounds on the magic constants that cannot be checked symbolically.
- TickMath.GetSqrtRatioAtTick: the tick-to-price round trip and monotonicity over all 1.77 million ticks are not proved. Only the structural bounds and the boundary vectors are.
- LiquidityMath.AddDelta: the model, like the source, does not check that liquidity stays non-negative.
- SwapMath.ComputeSwapStep: the property that a step never leaves [current, target] is not proved in general. Only the direction half for amount-limited steps is proved, in all four modes (`LimitedStepDirection`); that an amount-limited step stops short of the target is not.
- SwapMath.ComputeSwapStep: a non-negative fee liquidity is proved on the target path and, on the amount-limited path, for exact input; for exact output it is proved only when b of the fee quadratic, (FeeUnits - fee)*L minus FeeUnits times the amount valued at the current price, is positive. That the remaining output always keeps b positive is not derived.
- SwapMath.ComputeSwapStep: the Go code tests the next price against 0 rather than a flag. A target-limited step with target price 0 therefore takes the estimate path; the model keeps this, and the target-lands-on-target clause assumes a non-zero target.
- SwapMath.CalcReachAmount: the sign clause also assumes the exact-output fee-adjusted numerator is non-negative. Without it the sign claim fails; `NearbyTargetIsWellConditioned` shows it holds within the 5% step the source comments rely on.
- The periphery payment encoders (`EncodeUnwrapWETH9`, `EncodeSweepToken`, `EncodeRefundETH`) are not part of this model: only their tests exist, and they are ABI byte layouts over go-ethereum hashing.
- `MaxLiquidityForAmounts` is not part of this model: only its test exists, not its source.
- Error names follow the code, not the prose description: `SqrtPriceLessThanZero` and `LiquidityLessThanZero` are returned for non-positive values.

## Findings

| source | as written | input that shows it | evidently intended | confidence | as-written member | corrected member |
|---|---|---|---|---|---|---|
| utils/swap_math.go:179-188 | The token1 returned amount subtracts `MulDivRoundingUp(liquidity, Q96, current)`, a rounded-up term, so the result can fall below the exact amount, against the comments at lines 180-182 and 154-155 | current = 3*2^40, next = 2^40, L = 1, deltaL = 0, exact output: the input asked for is 2^56 - ceil(2^56/3) = 48038396025285290, below the exact 2^56 - 2^56/3 | Subtract the rounded-down `MulDiv(liquidity, Q96, current)`, so the amount never falls short of the exact value | medium, not executed | SwapMath.ReturnedAmountToken1ShortOfExact | SwapMath.IntendedReturnedAmountRoundsAgainstTrader |

`ComputeSwapStep` keeps the rounding as written, so that it models the Go step.
`IntendedReturnedAmount` is the corrected definition, with its property proved in
`IntendedReturnedAmountRoundsAgainstTrader`.
