/** The Q64.96 square-root price of a token ratio (utils/encode.go). */
module Encode {
  import opened Arith

  /**
    `EncodeSqrtRatioX96`: Sqrt((amount1 << 192) / amount0). The Go code
    panics when amount0 == 0 or the quotient is negative.
  */
  function EncodeSqrtRatioX96(amount1: int, amount0: int): (r: nat)
    requires amount0 != 0 && (amount1 * Q192) / amount0 >= 0
    ensures r * r <= (amount1 * Q192) / amount0 < (r + 1) * (r + 1)
  {
    Isqrt((amount1 * Q192) / amount0)
  }

  /** For a fixed positive amount0 the price does not decrease as amount1 grows. */
  lemma EncodeMonotoneInAmount1(amount1: int, amount1': int, amount0: int)
    requires amount0 > 0 && 0 <= amount1 <= amount1'
    ensures EncodeSqrtRatioX96(amount1, amount0) <= EncodeSqrtRatioX96(amount1', amount0)
  {
    MulMonotone(Q192, amount1, amount1');
    MulNonneg(amount1, Q192);
    DivMonotone(amount1 * Q192, amount1' * Q192, amount0);
    IsqrtMonotone((amount1 * Q192) / amount0, (amount1' * Q192) / amount0);
  }

  /** 1:1 encodes to 2^96. */
  lemma EncodeOneToOne()
    ensures EncodeSqrtRatioX96(1, 1) == Q96
  {
    IsqrtUnique(Q192, Q96);
  }

  /** 100:1 and 1:100. */
  lemma EncodeHundredfold()
    ensures EncodeSqrtRatioX96(100, 1) == 792281625142643375935439503360
    ensures EncodeSqrtRatioX96(1, 100) == 7922816251426433759354395033
  {
    IsqrtUnique(100 * Q192, 792281625142643375935439503360);
    IsqrtUnique(Q192 / 100, 7922816251426433759354395033);
  }

  /** 111:333 and 333:111. */
  lemma EncodeThirds()
    ensures EncodeSqrtRatioX96(111, 333) == 45742400955009932534161870629
    ensures EncodeSqrtRatioX96(333, 111) == 137227202865029797602485611888
  {
    IsqrtUnique((111 * Q192) / 333, 45742400955009932534161870629);
    IsqrtUnique((333 * Q192) / 111, 137227202865029797602485611888);
  }
}
