/** One exact-input swap step toward a target price (Contracts/contracts/amm/src/pool.rs). */
module SwapMath {
  import opened Arith
  import opened TickMath
  import opened LiquidityMath

  datatype SwapStep = SwapStep(amountIn: int, amountOut: int, feePaid: int, newPrice: int)

  /** Selling token A: the price falls toward the target. */
  function StepDown(current: int, target: int, liquidity: int, offered: int, fee: int): (r: Checked<SwapStep>) {
    var delta :- Fit(current - target);
    var maxIn :=
      if current == 0 || target == 0 then 0
      else Quot(SatMul(Quot(SatMul(liquidity, delta), current), Q64), target);
    var newPrice :=
      if offered >= maxIn then target
      else
        var term := Quot(SatMul(offered, current), Max(liquidity, 1));
        Max(Quot(SatMul(current, Q64), Max(SatAdd(term, Q64), 1)), target);
    var amountIn := if offered >= maxIn then maxIn else offered;
    var moved :- Fit(current - newPrice);
    Value(SwapStep(amountIn, Quot(SatMul(liquidity, moved), Q64), fee, newPrice))
  }

  /** Buying token A: the price rises toward the target. */
  function StepUp(current: int, target: int, liquidity: int, offered: int, fee: int): (r: Checked<SwapStep>) {
    var delta :- Fit(target - current);
    var maxIn := Quot(SatMul(liquidity, delta), Q64);
    var newPrice :=
      if offered >= maxIn then target
      else Min(SatAdd(current, Quot(SatMul(offered, Q64), Max(liquidity, 1))), target);
    var amountIn := if offered >= maxIn then maxIn else offered;
    var moved :- Fit(newPrice - current);
    var amountOut :=
      if current == 0 || newPrice == 0 then 0
      else Quot(SatMul(Quot(SatMul(liquidity, moved), current), Q64), newPrice);
    Value(SwapStep(amountIn, amountOut, fee, newPrice))
  }

  /** compute_swap_step: the fee comes off the input first. */
  function ComputeSwapStep(current: int, target: int, liquidity: int, amount: int, feeBps: int)
    : (r: Checked<SwapStep>)
  {
    var product :- Fit(amount * feeBps);
    var fee := Quot(product, 10_000);
    var left :- Fit(amount - fee);
    var offered := Max(left, 0);
    if current > target then StepDown(current, target, liquidity, offered, fee)
    else StepUp(current, target, liquidity, offered, fee)
  }

  /** A falling step always lands exactly on its target: a partial move would start from
      `current * 2^64`, which saturates for every price in or above the table, and the clamped
      quotient is below every table price. */
  lemma StepDownLandsOnTarget(current: int, target: int, liquidity: int, offered: int, fee: int)
    requires MIN_SQRT <= target < current <= I128_MAX && 0 <= offered
    ensures StepDown(current, target, liquidity, offered, fee).Value?
    ensures StepDown(current, target, liquidity, offered, fee).value.newPrice == target
  {
    var term := Quot(SatMul(offered, current), Max(liquidity, 1));
    MulNonNeg(offered, current);
    FloorNonNeg(SatMul(offered, current), Max(liquidity, 1));
    var den := SatAdd(term, Q64);
    assert Q64 <= den;
    assert SatMul(current, Q64) == I128_MAX;
    FloorBounds(I128_MAX, den);
    if I128_MAX / den >= target {
      MulMono(Q64, den, I128_MAX / den);
    }
  }

  /** A rising step stays between where it started and its target. */
  lemma StepUpStaysInside(current: int, target: int, liquidity: int, offered: int, fee: int)
    requires 0 < current <= target <= I128_MAX && 0 <= offered
    ensures StepUp(current, target, liquidity, offered, fee).Value?
    ensures current <= StepUp(current, target, liquidity, offered, fee).value.newPrice <= target
  {
    MulNonNeg(offered, Q64);
    FloorNonNeg(SatMul(offered, Q64), Max(liquidity, 1));
  }

  /** The fee is the floor share of the input, and the input taken plus the fee never exceeds
      what the trader offered. */
  lemma StepTakesAtMostOffered(current: int, target: int, liquidity: int, amount: int, feeBps: int)
    requires 0 < current <= I128_MAX && 0 < target <= I128_MAX
    requires 0 <= liquidity && 0 < amount && 0 <= feeBps <= 10_000
    requires ComputeSwapStep(current, target, liquidity, amount, feeBps).Value?
    ensures var s := ComputeSwapStep(current, target, liquidity, amount, feeBps).value;
            && s.feePaid == amount * feeBps / 10_000
            && 0 <= s.amountIn
            && s.amountIn + s.feePaid <= amount
            && 0 <= s.amountOut
  {
    hide Quot, SatMul;
    MulNonNeg(amount, feeBps);
    MulMono(feeBps, 10_000, amount);
    FloorBounds(amount * feeBps, 10_000);
    var fee := amount * feeBps / 10_000;
    if current > target {
      StepDownSigns(current, target, liquidity, amount - fee, fee);
    } else {
      StepUpSigns(current, target, liquidity, amount - fee, fee);
    }
  }

  lemma QuotSatNonNeg(x: int, y: int, d: int)
    requires 0 <= x && 0 <= y && 0 < d
    ensures 0 <= Quot(SatMul(x, y), d)
  {
    MulNonNeg(x, y);
    FloorNonNeg(SatMul(x, y), d);
  }

  lemma StepDownSigns(current: int, target: int, liquidity: int, offered: int, fee: int)
    requires 0 < target < current && 0 <= liquidity && 0 <= offered
    requires StepDown(current, target, liquidity, offered, fee).Value?
    ensures var s := StepDown(current, target, liquidity, offered, fee).value;
            0 <= s.amountIn <= offered && 0 <= s.amountOut && s.feePaid == fee
  {
    hide Quot, SatMul;
    var delta := current - target;
    QuotSatNonNeg(liquidity, delta, current);
    QuotSatNonNeg(Quot(SatMul(liquidity, delta), current), Q64, target);
    var s := StepDown(current, target, liquidity, offered, fee).value;
    DownNewPrice(current, target, liquidity, offered, fee);
    QuotSatNonNeg(liquidity, current - s.newPrice, Q64);
  }

  /** A falling step never raises the price. */
  lemma DownNewPrice(current: int, target: int, liquidity: int, offered: int, fee: int)
    requires 0 < target < current && 0 <= offered
    requires StepDown(current, target, liquidity, offered, fee).Value?
    ensures target <= StepDown(current, target, liquidity, offered, fee).value.newPrice <= current
  {
    var term := Quot(SatMul(offered, current), Max(liquidity, 1));
    MulNonNeg(offered, current);
    FloorNonNeg(SatMul(offered, current), Max(liquidity, 1));
    var den := SatAdd(term, Q64);
    var n := SatMul(current, Q64);
    FloorBounds(n, den);
    FloorNonNeg(n, den);
    MulMono(Q64, den, n / den);
  }

  lemma StepUpSigns(current: int, target: int, liquidity: int, offered: int, fee: int)
    requires 0 < current <= target <= I128_MAX && 0 <= liquidity && 0 <= offered
    requires StepUp(current, target, liquidity, offered, fee).Value?
    ensures var s := StepUp(current, target, liquidity, offered, fee).value;
            0 <= s.amountIn <= offered && 0 <= s.amountOut && s.feePaid == fee
  {
    hide Quot, SatMul;
    QuotSatNonNeg(liquidity, target - current, Q64);
    QuotSatNonNeg(offered, Q64, Max(liquidity, 1));
    var s := StepUp(current, target, liquidity, offered, fee).value;
    QuotSatNonNeg(liquidity, s.newPrice - current, current);
    QuotSatNonNeg(Quot(SatMul(liquidity, s.newPrice - current), current), Q64, s.newPrice);
  }

  /** A falling step takes the range's token A or the whole offer, whichever is less. However little is
      offered, it pays the token B that the liquidity holds between the two prices, with the product
      clamped where the conversion of a position would overflow. */
  lemma StepDownTradesRange(current: int, target: int, liquidity: int, offered: int, fee: int)
    requires MIN_SQRT <= target < current <= I128_MAX && 0 <= offered && 0 <= liquidity
    ensures TokenA(liquidity, target, current).Value?
    ensures StepDown(current, target, liquidity, offered, fee)
            == Value(SwapStep(Min(TokenA(liquidity, target, current).value, offered),
                              Min(liquidity * (current - target), I128_MAX) / Q64, fee, target))
    ensures TokenB(liquidity, target, current)
            == if liquidity * (current - target) <= I128_MAX
               then Value(Min(liquidity * (current - target), I128_MAX) / Q64) else Panic
  {
    StepDownLandsOnTarget(current, target, liquidity, offered, fee);
    MulNonNeg(liquidity, current - target);
    ClampIsMin(liquidity, current - target);
    hide SatMul, Quot;
  }

  lemma ClampIsMin(x: int, y: int)
    requires 0 <= x && 0 <= y
    ensures SatMul(x, y) == Min(x * y, I128_MAX) && 0 <= Min(x * y, I128_MAX)
  {
    MulNonNeg(x, y);
  }

  /** A rising step stops short of its target exactly when less is offered than the range's token B, with
      its product clamped. It then takes all that is offered and moves the price by exactly what that
      buys, rounded down. */
  lemma StepUpMovesByInput(current: int, target: int, liquidity: int, offered: int, fee: int)
    requires 0 < current <= target <= I128_MAX && 0 < liquidity && 0 <= offered
    ensures StepUp(current, target, liquidity, offered, fee).Value?
    ensures var s := StepUp(current, target, liquidity, offered, fee).value;
            var full := Min(liquidity * (target - current), I128_MAX) / Q64;
            && s.amountIn == Min(offered, full)
            && (s.newPrice < target <==> offered < full)
            && (offered < full ==>
                  liquidity * (s.newPrice - current) <= offered * Q64 < liquidity * (s.newPrice - current + 1))
  {
    StepUpStaysInside(current, target, liquidity, offered, fee);
    ClampIsMin(liquidity, target - current);
    var full := Min(liquidity * (target - current), I128_MAX) / Q64;
    if offered < full {
      PartialMove(liquidity, target - current, offered);
      StepUpPartial(current, target, liquidity, offered, fee);
    } else {
      StepUpFull(current, target, liquidity, offered, fee);
    }
  }

  lemma StepUpFull(current: int, target: int, liquidity: int, offered: int, fee: int)
    requires 0 < current <= target <= I128_MAX && StepUp(current, target, liquidity, offered, fee).Value?
    requires Quot(SatMul(liquidity, target - current), Q64) <= offered
    ensures var s := StepUp(current, target, liquidity, offered, fee).value;
            s.amountIn == Quot(SatMul(liquidity, target - current), Q64) && s.newPrice == target
  {
    hide SatMul, Quot;
  }

  lemma StepUpPartial(current: int, target: int, liquidity: int, offered: int, fee: int)
    requires 0 < current <= target <= I128_MAX && StepUp(current, target, liquidity, offered, fee).Value?
    requires offered < Quot(SatMul(liquidity, target - current), Q64)
    requires 0 <= Quot(SatMul(offered, Q64), Max(liquidity, 1)) < target - current
    ensures var s := StepUp(current, target, liquidity, offered, fee).value;
            s.amountIn == offered && s.newPrice == current + Quot(SatMul(offered, Q64), Max(liquidity, 1))
  {
    hide SatMul, Quot;
  }

  /** Less than the whole range's input neither saturates nor reaches the end of the range. */
  lemma PartialMove(liquidity: int, delta: int, offered: int)
    requires 0 < liquidity && 0 <= delta && 0 <= offered
    requires offered < Min(liquidity * delta, I128_MAX) / Q64
    ensures SatMul(offered, Q64) == offered * Q64
    ensures var moved := offered * Q64 / liquidity;
            0 <= moved < delta && liquidity * moved <= offered * Q64 < liquidity * (moved + 1)
  {
    var product := liquidity * delta;
    BelowFloor(product, offered);
    FloorOfPart(liquidity, offered * Q64, delta);
  }

  lemma BelowFloor(product: int, offered: int)
    requires 0 <= offered < Min(product, I128_MAX) / Q64
    ensures 0 <= offered * Q64 < product && offered * Q64 <= I128_MAX
  {
    FloorBounds(Min(product, I128_MAX), Q64);
  }

  lemma FloorOfPart(liquidity: int, n: int, delta: int)
    requires 0 < liquidity && 0 <= n < liquidity * delta
    ensures var moved := n / liquidity;
            0 <= moved < delta && liquidity * moved <= n < liquidity * (moved + 1)
  {
    FloorBounds(n, liquidity);
    FloorNonNeg(n, liquidity);
    var moved := n / liquidity;
    Distribute(liquidity, moved, 1);
    if delta <= moved {
      MulMono(delta, moved, liquidity);
    }
  }

  /** A rising step never pays more token A than the exact formula L * moved * 2^64 / (old * new)
      allows, and takes at most the token B of the range up to its target. */
  lemma StepUpPaysAtMostIdeal(current: int, target: int, liquidity: int, offered: int, fee: int)
    requires 0 < current <= target <= I128_MAX && 0 <= liquidity && 0 <= offered
    requires StepUp(current, target, liquidity, offered, fee).Value?
    ensures var s := StepUp(current, target, liquidity, offered, fee).value;
            && s.amountOut * s.newPrice * current <= liquidity * (s.newPrice - current) * Q64
            && (TokenB(liquidity, current, target).Value? ==> s.amountIn <= TokenB(liquidity, current, target).value)
  {
    StepUpStaysInside(current, target, liquidity, offered, fee);
    hide Quot, SatMul;
    var s := StepUp(current, target, liquidity, offered, fee).value;
    IdealPayout(liquidity, s.newPrice - current, current, s.newPrice);
    QuotOfFitting(liquidity, target - current);
  }

  lemma IdealPayout(liquidity: int, moved: int, current: int, newPrice: int)
    requires 0 <= liquidity && 0 <= moved && 0 < current && 0 < newPrice
    ensures Quot(SatMul(Quot(SatMul(liquidity, moved), current), Q64), newPrice) * newPrice * current
            <= liquidity * moved * Q64
  {
    MulNonNeg(liquidity, moved);
    var n := SatMul(liquidity, moved);
    var q := n / current;
    FloorBounds(n, current);
    FloorNonNeg(n, current);
    var m := SatMul(q, Q64);
    FloorBounds(m, newPrice);
    MulMono(m / newPrice * newPrice, q * Q64, current);
    Swap3(q, Q64, current);
    MulMono(q * current, liquidity * moved, Q64);
  }

  /** The payout of a rising step is the ceiling of its two prices, because a product clamps, or it falls
      short of the exact formula by less than one unit and 2^64 over the new price: by less than three
      units at table prices. */
  lemma StepUpPaysNearlyIdeal(current: int, target: int, liquidity: int, offered: int, fee: int)
    requires 0 < current <= target <= I128_MAX && 0 <= liquidity && 0 <= offered
    ensures StepUp(current, target, liquidity, offered, fee).Value?
    ensures var s := StepUp(current, target, liquidity, offered, fee).value;
            && 0 < s.newPrice
            && (|| s.amountOut == Ceiling(current, s.newPrice)
                || liquidity * (s.newPrice - current) * Q64 < ((s.amountOut + 1) * s.newPrice + Q64) * current)
  {
    StepUpStaysInside(current, target, liquidity, offered, fee);
    var s := StepUp(current, target, liquidity, offered, fee).value;
    StepUpPayout(current, target, liquidity, offered, fee);
    MulNonNeg(liquidity, s.newPrice - current);
    NearlyIdealPayout(liquidity * (s.newPrice - current), current, s.newPrice);
    hide StepUp, Quot, SatMul, Ceiling;
  }

  lemma StepUpPayout(current: int, target: int, liquidity: int, offered: int, fee: int)
    requires 0 < current && StepUp(current, target, liquidity, offered, fee).Value?
    requires 0 < StepUp(current, target, liquidity, offered, fee).value.newPrice
    ensures var s := StepUp(current, target, liquidity, offered, fee).value;
            s.amountOut == Quot(SatMul(Quot(Clamp(liquidity * (s.newPrice - current)), current), Q64), s.newPrice)
  {
    hide Quot, Clamp;
  }

  lemma NearlyIdealPayout(n: int, current: int, newPrice: int)
    requires 0 <= n && 0 < current && 0 < newPrice
    ensures var out := Quot(SatMul(Quot(Clamp(n), current), Q64), newPrice);
            out == Ceiling(current, newPrice) || n * Q64 < ((out + 1) * newPrice + Q64) * current
  {
    hide Quot, SatMul, Clamp, Ceiling;
    ClampedFloors(n, current, newPrice);
    FloorsNearlyExact(n, current, newPrice);
  }

  lemma FloorsNearlyExact(n: int, u: int, c: int)
    requires 0 < u && 0 < c
    ensures n * Q64 < ((n / u * Q64 / c + 1) * c + Q64) * u
  {
    var q := n / u;
    FloorBounds(n, u);
    FloorBounds(q * Q64, c);
    RoundedProduct(n, u, q, q * Q64 / c, c);
  }

  lemma RoundedProduct(n: int, u: int, q: int, out: int, c: int)
    requires 0 < u && n < q * u + u && q * Q64 < out * c + c
    ensures n * Q64 < ((out + 1) * c + Q64) * u
  {
    Distribute(c, out, 1);
    Distribute(u, q, 1);
    MulMono(n + 1, (q + 1) * u, Q64);
    MulMono(q * Q64 + Q64, (out + 1) * c + Q64, u);
    Swap3(q + 1, u, Q64);
  }

  lemma QuotOfFitting(x: int, y: int)
    requires 0 <= x && 0 <= y
    ensures InI128(x * y) ==> SatMul(x, y) == x * y
  {
  }
}
