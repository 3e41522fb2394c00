/** Signed liquidity update (utils/liquidity_math.go). */
module LiquidityMath {

  /**
    `AddDelta`: subtracts the magnitude of a negative delta, adds a
    non-negative one. There is no check that the result stays non-negative.
  */
  function AddDelta(x: int, y: int): (r: int)
    ensures r == x + y
  {
    if y < 0 then x - y * -1 else x + y
  }

  /** Applying a delta and then its negation restores the liquidity. */
  lemma AddDeltaInverse(x: int, y: int)
    ensures AddDelta(AddDelta(x, y), -y) == x
  {
  }

  /** A negative delta larger than the liquidity yields a negative result. */
  lemma AddDeltaCanGoNegative()
    ensures AddDelta(1, -2) == -1
  {
  }
}
