/**
  Conversion between ticks and Q64.96 square-root prices (utils/tick_math.go).

  Tick to price evaluates sqrt(1.0001)^-|tick| in Q128 by binary
  exponentiation over a table of per-bit factors, inverts the ratio for a
  positive tick and rounds up into Q96. Price to tick takes a 14-bit binary
  logarithm, scales it to two candidate ticks and settles between them with
  one tick-to-price conversion.
*/
module TickMath {
  import opened Arith
  import opened Errors
  import opened BitScan

  const MinTick: int := -887272
  const MaxTick: int := 887272
  /** The price of MinTick. */
  const MinSqrtRatio: nat := 4295128739
  /** The price of MaxTick. */
  const MaxSqrtRatio: nat := 1461446703485210103287273052203988822378723970342

  /** `mulShift`: (val * mulBy) >> 128. */
  function MulShift(val: int, mulBy: int): (r: int)
    ensures r * Q128 <= val * mulBy < r * Q128 + Q128
  {
    (val * mulBy) / Q128
  }

  /**
    One row per bit k of |tick|: the mask 2^k and the Q128 factor
    sqrt(1.0001)^-(2^k). Row 0 is not a factor but the start value for an
    odd |tick|; an even |tick| starts from 1.0 in Q128.
  */
  datatype BitFactor = BitFactor(mask: nat, factor: nat)

  const BitFactors: seq<BitFactor> := [
      BitFactor(0x1, 0xfffcb933bd6fad37aa2d162d1a594001),
      BitFactor(0x2, 0xfff97272373d413259a46990580e213a),
      BitFactor(0x4, 0xfff2e50f5f656932ef12357cf3c7fdcc),
      BitFactor(0x8, 0xffe5caca7e10e4e61c3624eaa0941cd0),
      BitFactor(0x10, 0xffcb9843d60f6159c9db58835c926644),
      BitFactor(0x20, 0xff973b41fa98c081472e6896dfb254c0),
      BitFactor(0x40, 0xff2ea16466c96a3843ec78b326b52861),
      BitFactor(0x80, 0xfe5dee046a99a2a811c461f1969c3053),
      BitFactor(0x100, 0xfcbe86c7900a88aedcffc83b479aa3a4),
      BitFactor(0x200, 0xf987a7253ac413176f2b074cf7815e54),
      BitFactor(0x400, 0xf3392b0822b70005940c7a398e4b70f3),
      BitFactor(0x800, 0xe7159475a2c29b7443b29c7fa6e889d9),
      BitFactor(0x1000, 0xd097f3bdfd2022b8845ad8f792aa5825),
      BitFactor(0x2000, 0xa9f746462d870fdf8a65dc1f90e061e5),
      BitFactor(0x4000, 0x70d869a156d2a1b890bb3df62baf32f7),
      BitFactor(0x8000, 0x31be135f97d08fd981231505542fcfa6),
      BitFactor(0x10000, 0x9aa508b5b7a84e1c677de54f3e99bc9),
      BitFactor(0x20000, 0x5d6af8dedb81196699c329225ee604),
      BitFactor(0x40000, 0x2216e584f5fa1ea926041bedfe98),
      BitFactor(0x80000, 0x48a170391f7dc42444e8fa2)
    ]

  /** `absTick & mask != 0` for a single-bit mask. */
  predicate HasMask(absTick: nat, mask: nat)
    requires mask > 0
  {
    (absTick / mask) % 2 == 1
  }

  /** A tick whose 20 low bits are all set: every factor applies. */
  const AllBits: nat := 0xFFFFF

  /** Every factor is positive and below 1.0 in Q128. */
  lemma FactorsBelowOne()
    ensures forall k :: 0 <= k < |BitFactors| ==> 0 < BitFactors[k].factor < Q128
  {
    var i := 0;
    while i < |BitFactors|
      invariant 0 <= i <= |BitFactors|
      invariant forall k :: 0 <= k < i ==> 0 < BitFactors[k].factor < Q128
    {
      i := i + 1;
    }
  }

  /** Row k masks bit k. */
  lemma MasksArePowers()
    ensures forall k :: 0 <= k < |BitFactors| ==> BitFactors[k].mask == Pow2(k)
  {
    var i := 0;
    while i < |BitFactors|
      invariant 0 <= i <= |BitFactors|
      invariant forall k :: 0 <= k < i ==> BitFactors[k].mask == Pow2(k)
    {
      if i > 0 {
        assert BitFactors[i].mask == 2 * BitFactors[i - 1].mask;
      }
      i := i + 1;
    }
  }

  /** A tick of 20 one-bits has every mask set. */
  lemma AllBitsHasMasks()
    ensures forall k :: 0 <= k < |BitFactors| ==> HasMask(AllBits, BitFactors[k].mask)
  {
    var i := 0;
    while i < |BitFactors|
      invariant 0 <= i <= |BitFactors|
      invariant forall k :: 0 <= k < i ==> HasMask(AllBits, BitFactors[k].mask)
    {
      i := i + 1;
    }
  }

  /** The table facts the ratio lemmas use. */
  lemma BitFactorFacts()
    ensures |BitFactors| == 20
    ensures forall k :: 0 <= k < 20 ==> BitFactors[k].mask == Pow2(k)
    ensures forall k :: 0 <= k < 20 ==> 0 < BitFactors[k].factor < Q128
    ensures forall k :: 0 <= k < 20 ==> HasMask(AllBits, BitFactors[k].mask)
  {
    FactorsBelowOne();
    MasksArePowers();
    AllBitsHasMasks();
  }

  /**
    The Q128 ratio after the bits 0..k of |tick| have been applied: the
    chain of conditional `mulShift` steps of GetSqrtRatioAtTick.
  */
  function RatioAfterBits(absTick: nat, k: nat): (r: nat)
    requires k < |BitFactors|
  {
    if k == 0 then
      (if HasMask(absTick, BitFactors[0].mask) then BitFactors[0].factor else Q128)
    else
      var prev := RatioAfterBits(absTick, k - 1);
      MulNonneg(prev, BitFactors[k].factor);
      if HasMask(absTick, BitFactors[k].mask) then MulShift(prev, BitFactors[k].factor) else prev
  }

  lemma MulShiftMonotone(v: nat, v': nat, f: nat)
    requires v <= v'
    ensures MulShift(v, f) <= MulShift(v', f)
  {
    MulMonotone(f, v, v');
    DivMonotone(v * f, v' * f, Q128);
  }

  lemma MulShiftShrinks(v: nat, f: nat)
    requires f <= Q128
    ensures 0 <= MulShift(v, f) <= v
  {
    MulMonotone(v, f, Q128);
    MulNonneg(v, f);
  }

  /**
    Applying a bit never raises the ratio, and the ratio never falls below
    the one with every bit applied.
  */
  lemma {:induction false} RatioBetweenAllBitsAndOne(absTick: nat, k: nat)
    requires k < |BitFactors|
    ensures RatioAfterBits(AllBits, k) <= RatioAfterBits(absTick, k) <= Q128
  {
    BitFactorFacts();
    if k > 0 {
      RatioBetweenAllBitsAndOne(absTick, k - 1);
      var prev := RatioAfterBits(absTick, k - 1);
      var low := RatioAfterBits(AllBits, k - 1);
      var f := BitFactors[k].factor;
      MulShiftShrinks(prev, f);
      MulShiftShrinks(low, f);
      MulShiftMonotone(low, prev, f);
    }
  }

  /** The ratio with every bit applied, step by step. */
  lemma AllBitsRatio()
    ensures RatioAfterBits(AllBits, 19) == 5800441176149320
  {
    BitFactorFacts();
    assert RatioAfterBits(1048575, 0) == 340265354078544963557816517032075149313;
    assert RatioAfterBits(1048575, 1) == 340231330945450418515964920540021147198;
    assert RatioAfterBits(1048575, 2) == 340163294884840501567246455576441303173;
    assert RatioAfterBits(1048575, 3) == 340027263576413978334042125129128142263;
    assert RatioAfterBits(1048575, 4) == 339755364134575681238502878529008278326;
    assert RatioAfterBits(1048575, 5) == 339212217342146842559531600927033253847;
    assert RatioAfterBits(1048575, 6) == 338128527259088467778511436198880488164;
    assert RatioAfterBits(1048575, 7) == 335971522311117552149334092109581418674;
    assert RatioAfterBits(1048575, 8) == 331698704829854243503582989311158516586;
    assert RatioAfterBits(1048575, 9) == 323315401242583425022802937239550140918;
    assert RatioAfterBits(1048575, 10) == 307179074178916392659402722612948179612;
    assert RatioAfterBits(1048575, 11) == 277282266700509388632609933215391170106;
    assert RatioAfterBits(1048575, 12) == 225934749830749445986089663015556949343;
    assert RatioAfterBits(1048575, 13) == 150004713758184102711002566140788444796;
    assert RatioAfterBits(1048575, 14) == 66122407008436832627027740713496573148;
    assert RatioAfterBits(1048575, 15) == 12848018414553970828728179856918040433;
    assert RatioAfterBits(1048575, 16) == 485077512873820763967752669154895175;
    assert RatioAfterBits(1048575, 17) == 691450548841240133896843047535567;
    assert RatioAfterBits(1048575, 18) == 1404950724947776134837143967;
    assert RatioAfterBits(1048575, 19) == 5800441176149320;
  }

  /** The Q128 ratio of every valid tick is positive, so the inversion never divides by zero. */
  lemma RatioPositive(absTick: nat)
    ensures RatioAfterBits(absTick, 19) > 0
  {
    RatioBetweenAllBitsAndOne(absTick, 19);
    AllBitsRatio();
  }

  /**
    sqrt(1.0001)^tick in Q128 before rounding: the product chain for |tick|,
    replaced by (2^256 - 1) / ratio when tick > 0.
  */
  function SqrtRatioX128(tick: int): (ratio: nat)
    requires MinTick <= tick <= MaxTick
    ensures tick <= 0 ==> 0 < ratio <= Q128
    ensures tick > 0 ==> ratio >= Q128 - 1
  {
    var absTick := Abs(tick);
    var ratio := RatioAfterBits(absTick, 19);
    RatioPositive(absTick);
    RatioBetweenAllBitsAndOne(absTick, 19);
    if tick > 0 then
      DivMonotoneByDivisor(MaxUint256, ratio, Q128);
      DivUnique(MaxUint256, Q128, Q128 - 1, Q128 - 1);
      MaxUint256 / ratio
    else
      ratio
  }

  lemma DivMonotoneByDivisor(x: nat, d: nat, d': nat)
    requires 0 < d <= d'
    ensures x / d' <= x / d
  {
    var q := x / d';
    FloorDivBounds(x, d);
    FloorDivBounds(x, d');
    MulMonotone(q, d, d');
    if q > x / d {
      MulMonotone(d, x / d + 1, q);
    }
  }

  /**
    `GetSqrtRatioAtTick`: fails with InvalidTick outside [MinTick, MaxTick];
    otherwise the Q128 ratio divided by 2^32 and rounded up, so the price is
    never under-estimated. Non-positive ticks give at most 1.0 (2^96),
    positive ticks at least 1.0.
  */
  function GetSqrtRatioAtTick(tick: int): (r: Result<nat>)
    ensures r.Err? <==> tick < MinTick || tick > MaxTick
    ensures r.Err? ==> r.error == InvalidTick
    ensures r.Ok? ==> r.value > 0
    ensures r.Ok? ==> (r.value - 1) * Q32 < SqrtRatioX128(tick) <= r.value * Q32
    ensures r.Ok? && tick <= 0 ==> r.value <= Q96
    ensures r.Ok? && tick > 0 ==> r.value >= Q96
  {
    if tick < MinTick || tick > MaxTick then
      Err(InvalidTick)
    else
      var ratio := SqrtRatioX128(tick);
      RemZeroIff(ratio, Q32);
      if Rem(ratio, Q32) > 0 then Ok(ratio / Q32 + 1) else Ok(ratio / Q32)
  }

  /** A positive tick's Q128 ratio is the floor reciprocal of its negation's, in Q256. */
  lemma PositiveTickIsReciprocal(tick: int)
    requires 0 < tick <= MaxTick
    ensures SqrtRatioX128(tick) * SqrtRatioX128(-tick) <= MaxUint256
    ensures MaxUint256 < (SqrtRatioX128(tick) + 1) * SqrtRatioX128(-tick)
  {
    var ratio := SqrtRatioX128(-tick);
    assert SqrtRatioX128(tick) == MaxUint256 / ratio;
    FloorDivBounds(MaxUint256, ratio);
  }

  /** Tick 0 has ratio exactly 1.0: no bit applies. */
  lemma {:induction false} RatioAtZero(k: nat)
    requires k < |BitFactors|
    ensures RatioAfterBits(0, k) == Q128
  {
    BitFactorFacts();
    if k > 0 {
      RatioAtZero(k - 1);
    }
  }

  /** Tick 0 maps to 1.0, that is 2^96; the ticks just outside the range fail. */
  lemma SqrtRatioAtTickZero()
    ensures GetSqrtRatioAtTick(0) == Ok(Q96)
    ensures GetSqrtRatioAtTick(MinTick - 1) == Err(InvalidTick)
    ensures GetSqrtRatioAtTick(MaxTick + 1) == Err(InvalidTick)
  {
    RatioAtZero(19);
    assert SqrtRatioX128(0) == Q128;
  }

  /** MinTick maps to MinSqrtRatio. */
  lemma SqrtRatioAtMinTick()
    ensures GetSqrtRatioAtTick(MinTick) == Ok(MinSqrtRatio)
  {
    MaxTickRatio();
    var ratio := SqrtRatioX128(MinTick);
    assert ratio == 18447437462383981825;
    RemZeroIff(ratio, Q32);
  }

  /** MaxTick maps to MaxSqrtRatio. */
  lemma SqrtRatioAtMaxTick()
    ensures GetSqrtRatioAtTick(MaxTick) == Ok(MaxSqrtRatio)
  {
    MaxTickRatio();
    var ratio := SqrtRatioX128(MaxTick);
    assert ratio == MaxUint256 / 18447437462383981825;
    assert ratio == 6276865796315986613307619852238232712866172378830071145882;
    RemZeroIff(ratio, Q32);
  }

  /** One step of the ratio chain, given the quotient and remainder of its `mulShift`. */
  lemma RatioStep(absTick: nat, k: nat, prev: nat, next: nat, rem: nat)
    requires 0 < k < |BitFactors|
    requires RatioAfterBits(absTick, k - 1) == prev
    requires if HasMask(absTick, BitFactors[k].mask)
             then prev * BitFactors[k].factor == Q128 * next + rem && rem < Q128
             else next == prev
    ensures RatioAfterBits(absTick, k) == next
  {
    if HasMask(absTick, BitFactors[k].mask) {
      DivUnique(prev * BitFactors[k].factor, Q128, next, rem);
    }
  }

  /** `absTick & mask` for a single-bit mask, from the quotient and remainder of absTick by the mask. */
  lemma MaskBit(absTick: nat, mask: nat, q: nat, low: nat)
    requires mask > 0 && absTick == mask * q + low && low < mask
    ensures HasMask(absTick, mask) == (q % 2 == 1)
  {
    DivUnique(absTick, mask, q, low);
  }

  /** The ratio chain of |MinTick| = MaxTick: its bits first, then the steps a few at a time. */
  lemma MaxTickRatio()
    ensures RatioAfterBits(887272, 19) == 18447437462383981825
  {
    MaskBit(887272, 0x1, 887272, 0);
    MaskBit(887272, 0x2, 443636, 0);
    MaskBit(887272, 0x4, 221818, 0);
    MaskBit(887272, 0x8, 110909, 0);
    MaskBit(887272, 0x10, 55454, 8);
    MaskBit(887272, 0x20, 27727, 8);
    MaskBit(887272, 0x40, 13863, 40);
    MaskBit(887272, 0x80, 6931, 104);
    MaskBit(887272, 0x100, 3465, 232);
    MaskBit(887272, 0x200, 1732, 488);
    MaskBit(887272, 0x400, 866, 488);
    MaskBit(887272, 0x800, 433, 488);
    MaskBit(887272, 0x1000, 216, 2536);
    MaskBit(887272, 0x2000, 108, 2536);
    MaskBit(887272, 0x4000, 54, 2536);
    MaskBit(887272, 0x8000, 27, 2536);
    MaskBit(887272, 0x10000, 13, 35304);
    MaskBit(887272, 0x20000, 6, 100840);
    MaskBit(887272, 0x40000, 3, 100840);
    MaskBit(887272, 0x80000, 1, 362984);
    MaxTickRatioBits0To9(887272);
    MaxTickRatioBits10To19(887272);
  }

  /** The parts see only the tick's bits, never its value, so the solver does no arithmetic on it. */
  lemma MaxTickRatioBits0To9(t: nat)
    requires !HasMask(t, 0x1) && !HasMask(t, 0x2) && !HasMask(t, 0x4) && HasMask(t, 0x8) && !HasMask(t, 0x10) && HasMask(t, 0x20) && HasMask(t, 0x40) && HasMask(t, 0x80) && HasMask(t, 0x100) && !HasMask(t, 0x200)
    ensures RatioAfterBits(t, 9) == 332080358666931741096696533686537939851
  {
    assert BitFactors[0] == BitFactor(0x1, 0xfffcb933bd6fad37aa2d162d1a594001);
    assert RatioAfterBits(t, 0) == Q128;
    assert BitFactors[1] == BitFactor(0x2, 0xfff97272373d413259a46990580e213a);
    RatioStep(t, 1, 340282366920938463463374607431768211456, 340282366920938463463374607431768211456, 0);
    assert BitFactors[2] == BitFactor(0x4, 0xfff2e50f5f656932ef12357cf3c7fdcc);
    RatioStep(t, 2, 340282366920938463463374607431768211456, 340282366920938463463374607431768211456, 0);
    assert BitFactors[3] == BitFactor(0x8, 0xffe5caca7e10e4e61c3624eaa0941cd0);
    RatioStep(t, 3, 340282366920938463463374607431768211456, 340146287995602323631171512101879684304, 0);
    assert BitFactors[4] == BitFactor(0x10, 0xffcb9843d60f6159c9db58835c926644);
    RatioStep(t, 4, 340146287995602323631171512101879684304, 340146287995602323631171512101879684304, 0);
    assert BitFactors[5] == BitFactor(0x20, 0xff973b41fa98c081472e6896dfb254c0);
    RatioStep(t, 5, 340146287995602323631171512101879684304, 339602516256333450911508783463471979131, 121740705331605837111633236097168432128);
    assert BitFactors[6] == BitFactor(0x40, 0xff2ea16466c96a3843ec78b326b52861);
    RatioStep(t, 6, 339602516256333450911508783463471979131, 338517579275194439321187592667164221528, 45996285749212184170797090712994660507);
    assert BitFactors[7] == BitFactor(0x80, 0xfe5dee046a99a2a811c461f1969c3053);
    RatioStep(t, 7, 338517579275194439321187592667164221528, 336358092468829139771578271041138980598, 47401487170629616895325653607558053000);
    assert BitFactors[8] == BitFactor(0x100, 0xfcbe86c7900a88aedcffc83b479aa3a4);
    RatioStep(t, 8, 336358092468829139771578271041138980598, 332080358666931741096696533686537939851, 327203572557324920731758139155397531544);
    assert BitFactors[9] == BitFactor(0x200, 0xf987a7253ac413176f2b074cf7815e54);
    RatioStep(t, 9, 332080358666931741096696533686537939851, 332080358666931741096696533686537939851, 0);
  }

  lemma MaxTickRatioBits10To19(t: nat)
    requires !HasMask(t, 0x400) && HasMask(t, 0x800) && !HasMask(t, 0x1000) && !HasMask(t, 0x2000) && !HasMask(t, 0x4000) && HasMask(t, 0x8000) && HasMask(t, 0x10000) && !HasMask(t, 0x20000) && HasMask(t, 0x40000) && HasMask(t, 0x80000)
    requires RatioAfterBits(t, 9) == 332080358666931741096696533686537939851
    ensures RatioAfterBits(t, 19) == 18447437462383981825
  {
    assert BitFactors[10] == BitFactor(0x400, 0xf3392b0822b70005940c7a398e4b70f3);
    RatioStep(t, 10, 332080358666931741096696533686537939851, 332080358666931741096696533686537939851, 0);
    assert BitFactors[11] == BitFactor(0x800, 0xe7159475a2c29b7443b29c7fa6e889d9);
    RatioStep(t, 11, 332080358666931741096696533686537939851, 299759984706031786325544380651874553391, 24862333455357124651299045684503907283);
    assert BitFactors[12] == BitFactor(0x1000, 0xd097f3bdfd2022b8845ad8f792aa5825);
    RatioStep(t, 12, 299759984706031786325544380651874553391, 299759984706031786325544380651874553391, 0);
    assert BitFactors[13] == BitFactor(0x2000, 0xa9f746462d870fdf8a65dc1f90e061e5);
    RatioStep(t, 13, 299759984706031786325544380651874553391, 299759984706031786325544380651874553391, 0);
    assert BitFactors[14] == BitFactor(0x4000, 0x70d869a156d2a1b890bb3df62baf32f7);
    RatioStep(t, 14, 299759984706031786325544380651874553391, 299759984706031786325544380651874553391, 0);
    assert BitFactors[15] == BitFactor(0x8000, 0x31be135f97d08fd981231505542fcfa6);
    RatioStep(t, 15, 299759984706031786325544380651874553391, 58245335850494778643666308752178602959, 248127543294759633473994953307966288762);
    assert BitFactors[16] == BitFactor(0x10000, 0x9aa508b5b7a84e1c677de54f3e99bc9);
    RatioStep(t, 16, 58245335850494778643666308752178602959, 2199055273679667890264176287186730611, 58243467493317911648334277695956988551);
    assert BitFactors[17] == BitFactor(0x20000, 0x5d6af8dedb81196699c329225ee604);
    RatioStep(t, 17, 2199055273679667890264176287186730611, 2199055273679667890264176287186730611, 0);
    assert BitFactors[18] == BitFactor(0x40000, 0x2216e584f5fa1ea926041bedfe98);
    RatioStep(t, 18, 2199055273679667890264176287186730611, 4468236096036213022677869620526, 247661333683097544816281670230019550792);
    assert BitFactors[19] == BitFactor(0x80000, 0x48a170391f7dc42444e8fa2);
    RatioStep(t, 19, 4468236096036213022677869620526, 18447437462383981825, 182980556679865556544218476561426270492);
  }

  // ---------------------------------------------------------------------
  // Price to tick
  // ---------------------------------------------------------------------

  /** log_sqrt(1.0001)(2) in Q64: `magicSqrt10001`. */
  const MagicSqrt10001: nat := 255738958999603826347141
  /** Offset of the lower tick candidate: `magicTickLow`. */
  const MagicTickLow: nat := 3402992956809132418596140100660247210
  /** Offset of the upper tick candidate: `magicTickHigh`. */
  const MagicTickHigh: nat := 291339464771989622907027621153398088495

  /**
    One iteration of the binary logarithm loop: square `r` (Q127), read
    the bit above 2.0 into position 63 - i of `log2`, and halve the square
    when that bit was set.
  */
  function LogRound(r: nat, log2: int, i: nat): (nat, int)
    requires i < 14
  {
    MulNonneg(r, r);
    var sq := (r * r) / Q127;
    var f := sq / Q128;
    (sq / Pow2(f), Or(log2, f * Pow2(63 - i)))
  }

  /** The iterations of the logarithm loop from iteration `i` to the 14th. */
  function LogBits(r: nat, log2: int, i: nat): int
    requires i <= 14
    decreases 14 - i
  {
    if i == 14 then log2 else LogBits(LogRound(r, log2, i).0, LogRound(r, log2, i).1, i + 1)
  }

  /** An iteration of the logarithm loop whose square stays below 2.0: no bit is set. */
  lemma LogBitsKeepStep(r: nat, log2: int, i: nat, sq: nat, r': nat)
    requires i < 14 && sq == (r * r) / Q127 && sq < Q128 && r' == sq
    ensures LogBits(r, log2, i) == LogBits(r', log2, i + 1)
  {
    DivUnique(sq, Q128, 0, sq);
  }

  /**
    An iteration of the logarithm loop whose square reaches 2.0: bit
    63 - i (worth `bit`) was clear and is set, and the square is halved.
  */
  lemma LogBitsSetStep(r: nat, log2: int, i: nat, sq: nat, bit: nat, r': nat, log2': int)
    requires i < 14 && sq == (r * r) / Q127 && Q128 <= sq < 2 * Q128
    requires bit == Pow2(63 - i) && (log2 / bit) % 2 == 0
    requires r' == sq / 2 && log2' == log2 + bit
    ensures LogBits(r, log2, i) == LogBits(r', log2', i + 1)
  {
    DivUnique(sq, Q128, 1, sq - Q128);
    OrClearBit(log2, 63 - i);
  }

  /** Shifting the value so that its top bit lands on bit 127 (r in Q127). */
  function Normalize(x: nat, msb: nat): nat
  {
    if msb >= 128 then x / Pow2(msb - 127) else x * Pow2(127 - msb)
  }

  /** The normalised value lies in [2^127, 2^128). */
  lemma NormalizeBounds(x: nat, msb: nat)
    requires Pow2(msb) <= x < Pow2(msb + 1)
    ensures Q127 <= Normalize(x, msb) < Q128
  {
    Pow2Of128();
    if msb >= 128 {
      NormalizeDownBounds(x, msb - 127, Pow2(msb - 127));
    } else {
      NormalizeUpBounds(x, msb, Pow2(127 - msb));
    }
  }

  lemma NormalizeDownBounds(x: nat, s: nat, d: nat)
    requires Pow2(127) == Q127 && Pow2(128) == Q128 && d == Pow2(s)
    requires Pow2(127 + s) <= x < Pow2(128 + s)
    ensures Q127 <= x / d < Q128
  {
    Pow2Add(127, s);
    Pow2Add(128, s);
    DivUnique(Q127 * d, d, Q127, 0);
    DivMonotone(Q127 * d, x, d);
    DivBelow(x, Q128, d);
  }

  lemma NormalizeUpBounds(x: nat, msb: nat, d: nat)
    requires Pow2(127) == Q127 && Pow2(128) == Q128 && msb < 128 && d == Pow2(127 - msb)
    requires Pow2(msb) <= x < Pow2(msb + 1)
    ensures Q127 <= x * d < Q128
  {
    var lo, hi := Pow2(msb), Pow2(msb + 1);
    assert lo * d == Q127 by { Pow2Add(msb, 127 - msb); }
    assert hi * d == Q128 by { Pow2Add(msb + 1, 127 - msb); }
    MulMonotone(d, lo, x);
    MulMonotone(d, x + 1, hi);
    assert d * (x + 1) == d * x + d;
  }

  /**
    One iteration keeps the value in [2^127, 2^128): the square lies in
    [2^127, 2^129), and it is halved exactly when it reaches 2^128.
  */
  lemma SquareStep(r: nat)
    requires Q127 <= r < Q128
    ensures var sq := (r * r) / Q127;
      && 0 <= sq / Q128 <= 1
      && Q127 <= sq / Pow2(sq / Q128) < Q128
  {
    var sq := (r * r) / Q127;
    assert Q127 <= sq < 2 * Q128 by {
      SquareMonotone(Q127, r);
      SquareMonotone(r, Q128 - 1);
      DivUnique(Q127 * Q127, Q127, Q127, 0);
      DivMonotone(Q127 * Q127, r * r, Q127);
      DivBelow(r * r, 2 * Q128, Q127);
    }
    if sq < Q128 {
      DivUnique(sq, Q128, 0, sq);
    } else {
      DivUnique(sq, Q128, 1, sq - Q128);
      DivBelow(sq, Q128, 2);
    }
  }

  /** A multiple of 2^(k+1) has bit k clear; adding 0 or 2^k keeps it a multiple of 2^k. */
  lemma MultipleBits(log2: int, k: nat, f: nat)
    requires log2 % Pow2(k + 1) == 0 && f <= 1
    ensures !BitSet(log2, k)
    ensures (log2 + f * Pow2(k)) % Pow2(k) == 0
  {
    var j := log2 / Pow2(k + 1);
    assert Pow2(k + 1) == 2 * Pow2(k);
    assert log2 == Pow2(k) * (2 * j);
    DivUnique(log2, Pow2(k), 2 * j, 0);
    assert log2 + f * Pow2(k) == Pow2(k) * (2 * j + f);
    DivUnique(log2 + f * Pow2(k), Pow2(k), 2 * j + f, 0);
  }

  /** Or-ing bit k, or nothing, into a multiple of 2^(k+1) adds it. */
  lemma OrStep(log2: int, k: nat, f: nat)
    requires log2 % Pow2(k + 1) == 0 && f <= 1
    ensures Or(log2, f * Pow2(k)) == log2 + f * Pow2(k)
    ensures Or(log2, f * Pow2(k)) % Pow2(k) == 0
  {
    MultipleBits(log2, k, f);
    if f == 1 {
      OrClearBit(log2, k);
    }
  }

  /**
    From iteration i on, the loop only sets bits below 2^(64 - i): started
    on a whole number of Q64 units it adds a fraction in [0, 1).
  */
  lemma {:induction false} LogBitsBounds(r: nat, log2: int, i: nat)
    requires i <= 14 && Q127 <= r < Q128 && log2 % Pow2(64 - i) == 0
    ensures log2 <= LogBits(r, log2, i) < log2 + Pow2(64 - i)
    decreases 14 - i
  {
    if i < 14 {
      var next := LogRound(r, log2, i);
      LogRoundBounds(r, log2, i);
      LogBitsBounds(next.0, next.1, i + 1);
    }
  }

  /** One iteration keeps the value normalised and sets at most bit 63 - i of a multiple of 2^(64 - i). */
  lemma LogRoundBounds(r: nat, log2: int, i: nat)
    requires i < 14 && Q127 <= r < Q128 && log2 % Pow2(64 - i) == 0
    ensures var (r', log2') := LogRound(r, log2, i);
      && Q127 <= r' < Q128
      && log2' % Pow2(63 - i) == 0
      && log2 <= log2' && log2' + Pow2(63 - i) <= log2 + Pow2(64 - i)
  {
    SquareStep(r);
    var sq := (r * r) / Q127;
    var f := sq / Q128;
    OrStep(log2, 63 - i, f);
    var p := Pow2(63 - i);
    assert 0 <= f * p <= p by {
      if f == 0 {
        assert f * p == 0;
      } else {
        assert f == 1;
      }
    }
    assert Pow2(64 - i) == 2 * p;
  }

  /** The Q64 base-2 logarithm of the price in Q96, as the loop computes it. */
  function Log2X64(sqrtRatioX96: nat): int
    requires sqrtRatioX96 >= 1
  {
    var x := sqrtRatioX96 * Q32;
    var msb := Msb(x);
    LogBits(Normalize(x, msb), (msb as int - 128) * Q64, 0)
  }

  /** The integer part of the logarithm is msb - 128: the loop fills in only the fraction. */
  lemma Log2X64Bounds(sqrtRatioX96: nat)
    requires sqrtRatioX96 >= 1
    ensures (Msb(sqrtRatioX96 * Q32) - 128) * Q64 <= Log2X64(sqrtRatioX96)
    ensures Log2X64(sqrtRatioX96) < (Msb(sqrtRatioX96 * Q32) - 127) * Q64
  {
    var x := sqrtRatioX96 * Q32;
    var msb := Msb(x);
    NormalizeBounds(x, msb);
    Pow2Scales();
    var e: int := msb as int - 128;
    DivUnique(e * Q64, Q64, e, 0);
    LogBitsBounds(Normalize(x, msb), e * Q64, 0);
  }

  /** The two candidate ticks `tickLow` and `tickHigh` of a Q64 logarithm. */
  function TicksFromLog(log2: int): (int, int)
  {
    var logSqrt10001 := log2 * MagicSqrt10001;
    ((logSqrt10001 - MagicTickLow) / Q128, (logSqrt10001 + MagicTickHigh) / Q128)
  }

  /** The two candidate ticks of a price. */
  function TickCandidates(sqrtRatioX96: nat): (int, int)
    requires sqrtRatioX96 >= 1
  {
    TicksFromLog(Log2X64(sqrtRatioX96))
  }

  /** The candidates are equal or adjacent, the upper one last: the offsets differ by less than 2^128. */
  lemma TickCandidatesAdjacent(sqrtRatioX96: nat)
    requires sqrtRatioX96 >= 1
    ensures TickCandidates(sqrtRatioX96).0 <= TickCandidates(sqrtRatioX96).1 <= TickCandidates(sqrtRatioX96).0 + 1
  {
    var x := Log2X64(sqrtRatioX96) * MagicSqrt10001;
    DivGap(x - MagicTickLow, x + MagicTickHigh, Q128);
  }

  /** Two numbers less than d apart have floor quotients at most one apart. */
  lemma DivGap(a: int, b: int, d: int)
    requires d > 0 && a <= b < a + d
    ensures a / d <= b / d <= a / d + 1
  {
    FloorDivBounds(a, d);
    FloorDivBounds(b, d);
    if b / d > a / d + 1 {
      MulMonotone(d, a / d + 2, b / d);
    }
    if b / d < a / d {
      MulMonotone(d, b / d + 1, a / d);
    }
  }

  predicate InSqrtRatioRange(sqrtRatioX96: int)
  {
    MinSqrtRatio <= sqrtRatioX96 < MaxSqrtRatio
  }

  /**
    What GetTickAtSqrtRatio computes: InvalidSqrtRatio outside
    [MinSqrtRatio, MaxSqrtRatio); equal candidates are the answer; otherwise
    the upper candidate when its price does not exceed the given one, else
    the lower candidate.
  */
  function TickAtSqrtRatio(sqrtRatioX96: int): (r: Result<int>)
    ensures r == Err(InvalidSqrtRatio) <==> !InSqrtRatioRange(sqrtRatioX96)
    ensures r.Err? ==> r.error == InvalidSqrtRatio || r.error == InvalidTick
  {
    if !InSqrtRatioRange(sqrtRatioX96) then
      Err(InvalidSqrtRatio)
    else
      var (tickLow, tickHigh) := TickCandidates(sqrtRatioX96);
      if tickLow == tickHigh then
        Ok(tickLow)
      else
        match GetSqrtRatioAtTick(tickHigh)
        case Err(e) => Err(e)
        case Ok(sqrtRatio) => if sqrtRatio <= sqrtRatioX96 then Ok(tickHigh) else Ok(tickLow)
  }

  /**
    The answer is one of the candidates. When they differ it is the upper
    one exactly when that tick's price is at most the given price, and a
    lower answer is one whose successor's price exceeds the given price:
    the documented contract GetSqrtRatioAtTick(t) <= p < GetSqrtRatioAtTick(t + 1)
    on the side the tie-break decides.
  */
  lemma TickAtSqrtRatioTieBreak(sqrtRatioX96: int, tick: int)
    requires InSqrtRatioRange(sqrtRatioX96) && TickAtSqrtRatio(sqrtRatioX96) == Ok(tick)
    ensures var (lo, hi) := TickCandidates(sqrtRatioX96);
      && (tick == lo || tick == hi)
      && (lo != hi ==>
            && hi == lo + 1
            && (tick == hi <==> GetSqrtRatioAtTick(hi).Ok? && GetSqrtRatioAtTick(hi).value <= sqrtRatioX96)
            && (tick == lo ==> GetSqrtRatioAtTick(tick + 1).Ok? && GetSqrtRatioAtTick(tick + 1).value > sqrtRatioX96))
  {
    TickCandidatesAdjacent(sqrtRatioX96);
  }

  /**
    The logarithm loop of GetTickAtSqrtRatio: 14 rounds of squaring `r`
    and moving the bit above 2.0 into `log2`.
  */
  method BinaryLogLoop(r0: nat, log20: int) returns (log2: int)
    ensures log2 == LogBits(r0, log20, 0)
  {
    log2 := log20;
    var r: nat := r0;
    var i: nat := 0;
    while i < 14
      invariant 0 <= i <= 14
      invariant LogBits(r, log2, i) == LogBits(r0, log20, 0)
    {
      MulNonneg(r, r);
      var sq: nat := (r * r) / Q127;
      var f: nat := sq / Q128;
      var log2' := Or(log2, f * Pow2(63 - i));
      assert LogRound(r, log2, i) == (sq / Pow2(f), log2');
      r, log2 := sq / Pow2(f), log2';
      i := i + 1;
    }
  }

  lemma ShiftedPriceInRange(sqrtRatioX96: int)
    requires InSqrtRatioRange(sqrtRatioX96)
    ensures 0 < sqrtRatioX96 * Q32 <= MaxUint256
  {
  }

  /**
    The first half of GetTickAtSqrtRatio on a price in range: shift the
    price to Q128, scan for its top bit, normalise it to [2^127, 2^128)
    and run the logarithm loop from the integer part msb - 128.
  */
  method Log2OfPrice(sqrtRatioX96: int) returns (log2: int)
    requires InSqrtRatioRange(sqrtRatioX96)
    ensures log2 == Log2X64(sqrtRatioX96)
  {
    // In range the shifted price is positive and below 2^256, so the scan cannot fail.
    ShiftedPriceInRange(sqrtRatioX96);
    var sqrtRatioX128: nat := sqrtRatioX96 * Q32;
    var scan := MostSignificantBit(sqrtRatioX128);
    var msb := scan.value;
    var r0 := Normalize(sqrtRatioX128, msb);
    log2 := BinaryLogLoop(r0, (msb as int - 128) * Q64);
  }

  /**
    `GetTickAtSqrtRatio`: InvalidSqrtRatio outside [MinSqrtRatio,
    MaxSqrtRatio); otherwise the logarithm, the two candidates and the
    tie-break through GetSqrtRatioAtTick.
  */
  method GetTickAtSqrtRatio(sqrtRatioX96: int) returns (r: Result<int>)
    ensures r == TickAtSqrtRatio(sqrtRatioX96)
  {
    if sqrtRatioX96 < MinSqrtRatio || sqrtRatioX96 >= MaxSqrtRatio {
      return Err(InvalidSqrtRatio);
    }
    var log2 := Log2OfPrice(sqrtRatioX96);
    var logSqrt10001 := log2 * MagicSqrt10001;
    var tickLow := (logSqrt10001 - MagicTickLow) / Q128;
    var tickHigh := (logSqrt10001 + MagicTickHigh) / Q128;
    assert (tickLow, tickHigh) == TickCandidates(sqrtRatioX96);
    if tickLow == tickHigh {
      return Ok(tickLow);
    }
    var sqrtRatio := GetSqrtRatioAtTick(tickHigh);
    if sqrtRatio.Err? {
      return Err(sqrtRatio.error);
    }
    if sqrtRatio.value <= sqrtRatioX96 {
      return Ok(tickHigh);
    } else {
      return Ok(tickLow);
    }
  }

  /** The powers of two at the bit positions the logarithm loop writes. */
  lemma Pow2BelowQ64()
    ensures Pow2(50) == 0x4000000000000
    ensures Pow2(51) == 0x8000000000000
    ensures Pow2(52) == 0x10000000000000
    ensures Pow2(53) == 0x20000000000000
    ensures Pow2(54) == 0x40000000000000
    ensures Pow2(55) == 0x80000000000000
    ensures Pow2(56) == 0x100000000000000
    ensures Pow2(57) == 0x200000000000000
    ensures Pow2(58) == 0x400000000000000
    ensures Pow2(59) == 0x800000000000000
    ensures Pow2(60) == 0x1000000000000000
    ensures Pow2(61) == 0x2000000000000000
    ensures Pow2(62) == 0x4000000000000000
    ensures Pow2(63) == 0x8000000000000000
  {
    Pow2Scales();
    assert Pow2(63) == 0x8000000000000000;
    assert Pow2(62) == 0x4000000000000000;
    assert Pow2(61) == 0x2000000000000000;
    assert Pow2(60) == 0x1000000000000000;
    assert Pow2(59) == 0x800000000000000;
    assert Pow2(58) == 0x400000000000000;
    assert Pow2(57) == 0x200000000000000;
    assert Pow2(56) == 0x100000000000000;
    assert Pow2(55) == 0x80000000000000;
    assert Pow2(54) == 0x40000000000000;
    assert Pow2(53) == 0x20000000000000;
    assert Pow2(52) == 0x10000000000000;
    assert Pow2(51) == 0x8000000000000;
    assert Pow2(50) == 0x4000000000000;
  }

  /** Iterations 0 to 3 of the logarithm loop on MinSqrtRatio. */
  lemma LogBitsAtMinSqrtRatioFrom0()
    ensures LogBits(170147578876589626920414360973871153152, -1180591620717411303424, 0) == LogBits(170243538971038117356487573935732585545, -1180591620717411303424, 4)
  {
    var r0, l0 := 170147578876589626920414360973871153152, -1180591620717411303424;
    var r1, l1 := 170153974533106535881562109013831712768, -1180591620717411303424;
    LogBitsKeepStep(r0, l0, 0, 170153974533106535881562109013831712768, r1);
    var r2, l2 := 170166766567366040401311527391081337320, -1180591620717411303424;
    LogBitsKeepStep(r1, l1, 1, 170166766567366040401311527391081337320, r2);
    var r3, l3 := 170192353521040831813752434907157554464, -1180591620717411303424;
    LogBitsKeepStep(r2, l2, 2, 170192353521040831813752434907157554464, r3);
    var r4, l4 := 170243538971038117356487573935732585545, -1180591620717411303424;
    LogBitsKeepStep(r3, l3, 3, 170243538971038117356487573935732585545, r4);
  }

  /** Iterations 4 to 7 of the logarithm loop on MinSqrtRatio. */
  lemma LogBitsAtMinSqrtRatioFrom4()
    ensures LogBits(170243538971038117356487573935732585545, -1180591620717411303424, 4) == LogBits(171786281560799504849746779272583977676, -1180591620717411303424, 8)
  {
    var r4, l4 := 170243538971038117356487573935732585545, -1180591620717411303424;
    var r5, l5 := 170345956057824651963446420433306419226, -1180591620717411303424;
    LogBitsKeepStep(r4, l4, 4, 170345956057824651963446420433306419226, r5);
    var r6, l6 := 170550975108247899994440323544706569114, -1180591620717411303424;
    LogBitsKeepStep(r5, l5, 5, 170550975108247899994440323544706569114, r6);
    var r7, l7 := 170961753755124456705476920545726938150, -1180591620717411303424;
    LogBitsKeepStep(r6, l6, 6, 170961753755124456705476920545726938150, r7);
    var r8, l8 := 171786281560799504849746779272583977676, -1180591620717411303424;
    LogBitsKeepStep(r7, l7, 7, 171786281560799504849746779272583977676, r8);
  }

  /** Iterations 8 to 10 of the logarithm loop on MinSqrtRatio. */
  lemma LogBitsAtMinSqrtRatioFrom8()
    ensures LogBits(171786281560799504849746779272583977676, -1180591620717411303424, 8) == LogBits(183756067482656355451618860931542785557, -1180591620717411303424, 11)
  {
    var r8, l8 := 171786281560799504849746779272583977676, -1180591620717411303424;
    var r9, l9 := 173447286143644277867428471701679181739, -1180591620717411303424;
    LogBitsKeepStep(r8, l8, 8, 173447286143644277867428471701679181739, r9);
    var r10, l10 := 176817631444211466450022635831531009461, -1180591620717411303424;
    LogBitsKeepStep(r9, l9, 9, 176817631444211466450022635831531009461, r10);
    var r11, l11 := 183756067482656355451618860931542785557, -1180591620717411303424;
    LogBitsKeepStep(r10, l10, 10, 183756067482656355451618860931542785557, r11);
  }

  /** Iterations 11 to 13 of the logarithm loop on MinSqrtRatio. */
  lemma LogBitsAtMinSqrtRatioFrom11()
    ensures LogBits(183756067482656355451618860931542785557, -1180591620717411303424, 11) == LogBits(314968671902087479629947513461521130666, -1180591620717411303424, 14)
  {
    var r11, l11 := 183756067482656355451618860931542785557, -1180591620717411303424;
    var r12, l12 := 198460429449968235707380357196012301073, -1180591620717411303424;
    LogBitsKeepStep(r11, l11, 11, 198460429449968235707380357196012301073, r12);
    var r13, l13 := 231493288434877537647902142969455154526, -1180591620717411303424;
    LogBitsKeepStep(r12, l12, 12, 231493288434877537647902142969455154526, r13);
    var r14, l14 := 314968671902087479629947513461521130666, -1180591620717411303424;
    LogBitsKeepStep(r13, l13, 13, 314968671902087479629947513461521130666, r14);
  }

  /** The logarithm loop on MinSqrtRatio. */
  lemma LogBitsAtMinSqrtRatio()
    ensures LogBits(170147578876589626920414360973871153152, -1180591620717411303424, 0) == -1180591620717411303424
  {
    LogBitsAtMinSqrtRatioFrom0();
    LogBitsAtMinSqrtRatioFrom4();
    LogBitsAtMinSqrtRatioFrom8();
    LogBitsAtMinSqrtRatioFrom11();
  }

  /** Iteration 0 of the logarithm loop on MaxSqrtRatio - 1. */
  lemma LogBitsBelowMaxSqrtRatioFrom0()
    ensures LogBits(340269576638287423012608907232989748562, 1162144876643701751808, 0) == LogBits(340256786836388094070642339899681172761, 1171368248680556527616, 1)
  {
    Pow2BelowQ64();
    var r0, l0 := 340269576638287423012608907232989748562, 1162144876643701751808;
    var r1, l1 := 340256786836388094070642339899681172761, 1171368248680556527616;
    LogBitsSetStep(r0, l0, 0, 680513573672776188141284679799362345522, 0x8000000000000000, r1, l1);
  }

  /** Iteration 1 of the logarithm loop on MaxSqrtRatio - 1. */
  lemma LogBitsBelowMaxSqrtRatioFrom1()
    ensures LogBits(340256786836388094070642339899681172761, 1171368248680556527616, 1) == LogBits(340231208674772290829194245745182255071, 1175979934698983915520, 2)
  {
    Pow2BelowQ64();
    var r1, l1 := 340256786836388094070642339899681172761, 1171368248680556527616;
    var r2, l2 := 340231208674772290829194245745182255071, 1175979934698983915520;
    LogBitsSetStep(r1, l1, 1, 680462417349544581658388491490364510143, 0x4000000000000000, r2, l2);
  }

  /** Iteration 2 of the logarithm loop on MaxSqrtRatio - 1. */
  lemma LogBitsBelowMaxSqrtRatioFrom2()
    ensures LogBits(340231208674772290829194245745182255071, 1175979934698983915520, 2) == LogBits(340180058119766181763021084743383739585, 1178285777708197609472, 3)
  {
    Pow2BelowQ64();
    var r2, l2 := 340231208674772290829194245745182255071, 1175979934698983915520;
    var r3, l3 := 340180058119766181763021084743383739585, 1178285777708197609472;
    LogBitsSetStep(r2, l2, 2, 680360116239532363526042169486767479171, 0x2000000000000000, r3, l3);
  }

  /** Iteration 3 of the logarithm loop on MaxSqrtRatio - 1. */
  lemma LogBitsBelowMaxSqrtRatioFrom3()
    ensures LogBits(340180058119766181763021084743383739585, 1178285777708197609472, 3) == LogBits(340077780078609154515753855557965673714, 1179438699212804456448, 4)
  {
    Pow2BelowQ64();
    var r3, l3 := 340180058119766181763021084743383739585, 1178285777708197609472;
    var r4, l4 := 340077780078609154515753855557965673714, 1179438699212804456448;
    LogBitsSetStep(r3, l3, 3, 680155560157218309031507711115931347429, 0x1000000000000000, r4, l4);
  }

  /** Iteration 4 of the logarithm loop on MaxSqrtRatio - 1. */
  lemma LogBitsBelowMaxSqrtRatioFrom4()
    ensures LogBits(340077780078609154515753855557965673714, 1179438699212804456448, 4) == LogBits(339873316239350598283130977856576744218, 1180015159965107879936, 5)
  {
    Pow2BelowQ64();
    var r4, l4 := 340077780078609154515753855557965673714, 1179438699212804456448;
    var r5, l5 := 339873316239350598283130977856576744218, 1180015159965107879936;
    LogBitsSetStep(r4, l4, 4, 679746632478701196566261955713153488436, 0x800000000000000, r5, l5);
  }

  /** Iteration 5 of the logarithm loop on MaxSqrtRatio - 1. */
  lemma LogBitsBelowMaxSqrtRatioFrom5()
    ensures LogBits(339873316239350598283130977856576744218, 1180015159965107879936, 5) == LogBits(339464757274279288228793459542122362783, 1180303390341259591680, 6)
  {
    Pow2BelowQ64();
    var r5, l5 := 339873316239350598283130977856576744218, 1180015159965107879936;
    var r6, l6 := 339464757274279288228793459542122362783, 1180303390341259591680;
    LogBitsSetStep(r5, l5, 5, 678929514548558576457586919084244725566, 0x400000000000000, r6, l6);
  }

  /** Iteration 6 of the logarithm loop on MaxSqrtRatio - 1. */
  lemma LogBitsBelowMaxSqrtRatioFrom6()
    ensures LogBits(339464757274279288228793459542122362783, 1180303390341259591680, 6) == LogBits(338649112130043082968313027133501569339, 1180447505529335447552, 7)
  {
    Pow2BelowQ64();
    var r6, l6 := 339464757274279288228793459542122362783, 1180303390341259591680;
    var r7, l7 := 338649112130043082968313027133501569339, 1180447505529335447552;
    LogBitsSetStep(r6, l6, 6, 677298224260086165936626054267003138678, 0x200000000000000, r7, l7);
  }

  /** Iteration 7 of the logarithm loop on MaxSqrtRatio - 1. */
  lemma LogBitsBelowMaxSqrtRatioFrom7()
    ensures LogBits(338649112130043082968313027133501569339, 1180447505529335447552, 7) == LogBits(337023696479436163225441986795960415273, 1180519563123373375488, 8)
  {
    Pow2BelowQ64();
    var r7, l7 := 338649112130043082968313027133501569339, 1180447505529335447552;
    var r8, l8 := 337023696479436163225441986795960415273, 1180519563123373375488;
    LogBitsSetStep(r7, l7, 7, 674047392958872326450883973591920830546, 0x100000000000000, r8, l8);
  }

  /** Iteration 8 of the logarithm loop on MaxSqrtRatio - 1. */
  lemma LogBitsBelowMaxSqrtRatioFrom8()
    ensures LogBits(337023696479436163225441986795960415273, 1180519563123373375488, 8) == LogBits(333796232277453138488502024955218637788, 1180555591920392339456, 9)
  {
    Pow2BelowQ64();
    var r8, l8 := 337023696479436163225441986795960415273, 1180519563123373375488;
    var r9, l9 := 333796232277453138488502024955218637788, 1180555591920392339456;
    LogBitsSetStep(r8, l8, 8, 667592464554906276977004049910437275577, 0x80000000000000, r9, l9);
  }

  /** Iteration 9 of the logarithm loop on MaxSqrtRatio - 1. */
  lemma LogBitsBelowMaxSqrtRatioFrom9()
    ensures LogBits(333796232277453138488502024955218637788, 1180555591920392339456, 9) == LogBits(327433730083671547575035768994089188371, 1180573606318901821440, 10)
  {
    Pow2BelowQ64();
    var r9, l9 := 333796232277453138488502024955218637788, 1180555591920392339456;
    var r10, l10 := 327433730083671547575035768994089188371, 1180573606318901821440;
    LogBitsSetStep(r9, l9, 9, 654867460167343095150071537988178376742, 0x40000000000000, r10, l10);
  }

  /** Iteration 10 of the logarithm loop on MaxSqrtRatio - 1. */
  lemma LogBitsBelowMaxSqrtRatioFrom10()
    ensures LogBits(327433730083671547575035768994089188371, 1180573606318901821440, 10) == LogBits(315070241713161150276535620272648237357, 1180582613518156562432, 11)
  {
    Pow2BelowQ64();
    var r10, l10 := 327433730083671547575035768994089188371, 1180573606318901821440;
    var r11, l11 := 315070241713161150276535620272648237357, 1180582613518156562432;
    LogBitsSetStep(r10, l10, 10, 630140483426322300553071240545296474714, 0x20000000000000, r11, l11);
  }

  /** Iteration 11 of the logarithm loop on MaxSqrtRatio - 1. */
  lemma LogBitsBelowMaxSqrtRatioFrom11()
    ensures LogBits(315070241713161150276535620272648237357, 1180582613518156562432, 11) == LogBits(291726127661073041696261579066066808703, 1180587117117783932928, 12)
  {
    Pow2BelowQ64();
    var r11, l11 := 315070241713161150276535620272648237357, 1180582613518156562432;
    var r12, l12 := 291726127661073041696261579066066808703, 1180587117117783932928;
    LogBitsSetStep(r11, l11, 11, 583452255322146083392523158132133617407, 0x10000000000000, r12, l12);
  }

  /** Iteration 12 of the logarithm loop on MaxSqrtRatio - 1. */
  lemma LogBitsBelowMaxSqrtRatioFrom12()
    ensures LogBits(291726127661073041696261579066066808703, 1180587117117783932928, 12) == LogBits(250098570578880048018818669822552946005, 1180589368917597618176, 13)
  {
    Pow2BelowQ64();
    var r12, l12 := 291726127661073041696261579066066808703, 1180587117117783932928;
    var r13, l13 := 250098570578880048018818669822552946005, 1180589368917597618176;
    LogBitsSetStep(r12, l12, 12, 500197141157760096037637339645105892010, 0x8000000000000, r13, l13);
  }

  /** Iteration 13 of the logarithm loop on MaxSqrtRatio - 1. */
  lemma LogBitsBelowMaxSqrtRatioFrom13()
    ensures LogBits(250098570578880048018818669822552946005, 1180589368917597618176, 13) == LogBits(183815857317495998482037726995198793792, 1180590494817504460800, 14)
  {
    Pow2BelowQ64();
    var r13, l13 := 250098570578880048018818669822552946005, 1180589368917597618176;
    var r14, l14 := 183815857317495998482037726995198793792, 1180590494817504460800;
    LogBitsSetStep(r13, l13, 13, 367631714634991996964075453990397587585, 0x4000000000000, r14, l14);
  }

  /** The logarithm loop on MaxSqrtRatio - 1. */
  lemma LogBitsBelowMaxSqrtRatio()
    ensures LogBits(340269576638287423012608907232989748562, 1162144876643701751808, 0) == 1180590494817504460800
  {
    LogBitsBelowMaxSqrtRatioFrom0();
    LogBitsBelowMaxSqrtRatioFrom1();
    LogBitsBelowMaxSqrtRatioFrom2();
    LogBitsBelowMaxSqrtRatioFrom3();
    LogBitsBelowMaxSqrtRatioFrom4();
    LogBitsBelowMaxSqrtRatioFrom5();
    LogBitsBelowMaxSqrtRatioFrom6();
    LogBitsBelowMaxSqrtRatioFrom7();
    LogBitsBelowMaxSqrtRatioFrom8();
    LogBitsBelowMaxSqrtRatioFrom9();
    LogBitsBelowMaxSqrtRatioFrom10();
    LogBitsBelowMaxSqrtRatioFrom11();
    LogBitsBelowMaxSqrtRatioFrom12();
    LogBitsBelowMaxSqrtRatioFrom13();
  }

  /** The logarithm of MinSqrtRatio: the top bit is 64 and no fraction bit is set. */
  lemma Log2AtMinSqrtRatio()
    ensures Log2X64(MinSqrtRatio) == -1180591620717411303424
  {
    Pow2Scales();
    var x := MinSqrtRatio * Q32;
    assert Pow2(65) == 2 * Q64;
    MsbUnique(x, 64);
    Pow2BelowQ64();
    assert Normalize(x, 64) == 170147578876589626920414360973871153152;
    LogBitsAtMinSqrtRatio();
  }

  /** The logarithm of MaxSqrtRatio - 1: the top bit is 191 and all 14 fraction bits are set. */
  lemma Log2BelowMaxSqrtRatio()
    ensures Log2X64(MaxSqrtRatio - 1) == 1180590494817504460800
  {
    Pow2Scales();
    var x := (MaxSqrtRatio - 1) * Q32;
    assert Pow2(192) == 2 * Pow2(191);
    assert Pow2(191) == Pow2(127) * Pow2(64) by { Pow2Add(127, 64); }
    MsbUnique(x, 191);
    assert Normalize(x, 191) == 340269576638287423012608907232989748562;
    LogBitsBelowMaxSqrtRatio();
  }

  /** MinSqrtRatio maps back to MinTick: the candidates are MinTick - 1 and MinTick, and MinTick's price is not above it. */
  lemma TickAtMinSqrtRatio()
    ensures TickAtSqrtRatio(MinSqrtRatio) == Ok(MinTick)
  {
    CandidatesAtMinSqrtRatio();
    SqrtRatioAtMinTick();
    assert InSqrtRatioRange(MinSqrtRatio);
  }

  lemma CandidatesAtMinSqrtRatio()
    ensures TickCandidates(MinSqrtRatio) == (MinTick - 1, MinTick)
  {
    Log2AtMinSqrtRatio();
    Pow2Of128();
    var s := -1180591620717411303424 * MagicSqrt10001;
    DivUnique(s - MagicTickLow, Q128, -887273, 81056122995865833807745926998117041494);
    DivUnique(s + MagicTickHigh, Q128, -887272, 35516213803726125669995080820407165743);
  }

  /** The price just below MaxSqrtRatio maps to MaxTick - 1: MaxTick's price is above it. */
  lemma TickBelowMaxSqrtRatio()
    ensures TickAtSqrtRatio(MaxSqrtRatio - 1) == Ok(MaxTick - 1)
  {
    CandidatesBelowMaxSqrtRatio();
    SqrtRatioAtMaxTick();
    assert InSqrtRatioRange(MaxSqrtRatio - 1);
  }

  lemma CandidatesBelowMaxSqrtRatio()
    ensures TickCandidates(MaxSqrtRatio - 1) == (MaxTick - 1, MaxTick)
  {
    Log2BelowMaxSqrtRatio();
    Pow2Of128();
    var s := 1180590494817504460800 * MagicSqrt10001;
    DivUnique(s - MagicTickLow, Q128, 887271, 304766154818709241572242457823419549014);
    DivUnique(s + MagicTickHigh, Q128, 887272, 259226245626569533434491611645709673263);
  }
}
