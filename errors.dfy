/** The error values the math functions return instead of a result. */
module Errors {

  datatype Error =
    | InvalidInput            // ErrInvalidInput: bit scan argument out of range
    | InvalidTick             // ErrInvalidTick: tick outside [MinTick, MaxTick]
    | InvalidSqrtRatio        // ErrInvalidSqrtRatio: price outside [MinSqrtRatio, MaxSqrtRatio)
    | SqrtPriceLessThanZero   // ErrSqrtPriceLessThanZero
    | LiquidityLessThanZero   // ErrLiquidityLessThanZero
    | InvariantViolation      // ErrInvariant: an arithmetic guard failed

  datatype Result<+T> = Ok(value: T) | Err(error: Error)
}
