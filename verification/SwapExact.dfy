/** What a swap is worth, stated from the pool's price, liquidity and fee alone, and exactly when it
    succeeds (Contracts/contracts/amm/src/lib.rs, pool.rs). */
module SwapExact {
  import opened Arith
  import opened Wrappers
  import opened TickMath
  import opened LiquidityMath
  import opened SwapMath
  import opened FeeGrowth
  import opened AmmPool

  datatype Trade = Trade(paid: int, received: int, price: int)

  /** n / u * 2^64 / c in an unlimited number range, cut off at the ceiling of the two prices. */
  function Converted(n: int, u: int, c: int): (r: int)
    requires 0 < u && 0 < c
  {
    Min(n / u * Q64 / c, Ceiling(u, c))
  }

  /** Selling token A down to `target`: whatever is offered, the price moves the whole way. */
  function Falling(price: int, target: int, liquidity: int, offered: int): (t: Trade)
    requires 0 < target <= price
  {
    Trade(Min(Converted(liquidity * (price - target), price, target), offered),
          Min(liquidity * (price - target), I128_MAX) / Q64,
          target)
  }

  /** Buying token A up to `target`: less than the range's token B moves the price by what it buys. */
  function Rising(price: int, target: int, liquidity: int, offered: int): (t: Trade)
    requires 0 < price <= target && 0 < liquidity && 0 <= offered
  {
    var full := Min(liquidity * (target - price), I128_MAX) / Q64;
    FloorNonNeg(offered * Q64, liquidity);
    var next := if offered < full then price + offered * Q64 / liquidity else target;
    Trade(Min(offered, full), Converted(liquidity * (next - price), price, next), next)
  }

  /** The price of the neighbouring tick boundary on the side of the trade. */
  function Goal(tick: int, zeroForOne: bool): (g: int)
    requires ValidTick(tick)
  {
    if zeroForOne then SqrtAt(if tick == MIN_TICK then tick else tick - 1)
    else SqrtAt(if tick == MAX_TICK then tick else tick + 1)
  }

  /** The trade that a pool offers for `offered` units after the fee. */
  function PoolTrade(p: Pool, zeroForOne: bool, offered: int): (t: Trade)
    requires 0 < p.sqrtPrice && ValidTick(p.currentTick) && 0 < p.liquidity && 0 <= offered
  {
    var goal := Goal(p.currentTick, zeroForOne);
    if 0 < goal < p.sqrtPrice then Falling(p.sqrtPrice, goal, p.liquidity, offered)
    else if p.sqrtPrice <= goal then Rising(p.sqrtPrice, goal, p.liquidity, offered)
    else Trade(0, 0, p.sqrtPrice)
  }

  lemma FallingExact(price: int, target: int, liquidity: int, offered: int, fee: int)
    requires MIN_SQRT <= target < price <= I128_MAX && 0 < liquidity && 0 <= offered
    ensures var t := Falling(price, target, liquidity, offered);
            StepDown(price, target, liquidity, offered, fee) == Value(SwapStep(t.paid, t.received, fee, t.price))
  {
    hide StepDown, TokenA, TokenB, Ceiling;
    StepDownTradesRange(price, target, liquidity, offered, fee);
    TokenAClamped(liquidity, target, price);
  }

  lemma RisingExact(price: int, target: int, liquidity: int, offered: int, fee: int)
    requires 0 < price <= target <= I128_MAX && 0 < liquidity && 0 <= offered
    ensures var t := Rising(price, target, liquidity, offered);
            StepUp(price, target, liquidity, offered, fee) == Value(SwapStep(t.paid, t.received, fee, t.price))
  {
    hide Ceiling, StepUp;
    StepUpStaysInside(price, target, liquidity, offered, fee);
    RisingMoves(price, target, liquidity, offered, fee);
    var s := StepUp(price, target, liquidity, offered, fee).value;
    StepUpPayout(price, target, liquidity, offered, fee);
    MulNonNeg(liquidity, s.newPrice - price);
    ClampedFloors(liquidity * (s.newPrice - price), price, s.newPrice);
    StepUpFee(price, target, liquidity, offered, fee);
  }

  lemma StepUpFee(price: int, target: int, liquidity: int, offered: int, fee: int)
    requires StepUp(price, target, liquidity, offered, fee).Value?
    ensures StepUp(price, target, liquidity, offered, fee).value.feePaid == fee
  {
    hide Quot, SatMul, SatAdd;
  }

  lemma RisingMoves(price: int, target: int, liquidity: int, offered: int, fee: int)
    requires 0 < price <= target <= I128_MAX && 0 < liquidity && 0 <= offered
    requires StepUp(price, target, liquidity, offered, fee).Value?
    ensures var s := StepUp(price, target, liquidity, offered, fee).value;
            var t := Rising(price, target, liquidity, offered);
            s.newPrice == t.price && s.amountIn == t.paid
  {
    hide StepUp, Ceiling;
    ClampIsMin(liquidity, target - price);
    var full := Min(liquidity * (target - price), I128_MAX) / Q64;
    if offered < full {
      PartialMove(liquidity, target - price, offered);
      StepUpPartial(price, target, liquidity, offered, fee);
    } else {
      StepUpFull(price, target, liquidity, offered, fee);
    }
  }

  /** One step: it aborts exactly when the fee product overflows, charges the floored share of the amount
      as fee, and trades the rest. */
  lemma StepExact(price: int, target: int, liquidity: int, amount: int, feeBps: int)
    requires 0 < price <= I128_MAX && MIN_SQRT <= target <= I128_MAX && 0 < liquidity
    requires 0 < amount <= I128_MAX && 0 <= feeBps <= 10_000
    ensures var s := ComputeSwapStep(price, target, liquidity, amount, feeBps);
            var fee := amount * feeBps / 10_000;
            && 0 <= fee <= amount
            && (s.Value? <==> amount * feeBps <= I128_MAX)
            && (s.Value? ==>
                  var t := if target < price then Falling(price, target, liquidity, amount - fee)
                           else Rising(price, target, liquidity, amount - fee);
                  s.value == SwapStep(t.paid, t.received, fee, t.price))
  {
    hide StepDown, StepUp, Falling, Rising;
    FeeWithinAmount(amount, feeBps);
    var fee := amount * feeBps / 10_000;
    if amount * feeBps <= I128_MAX {
      if target < price {
        FallingExact(price, target, liquidity, amount - fee, fee);
      } else {
        RisingExact(price, target, liquidity, amount - fee, fee);
      }
    }
  }

  lemma FeeWithinAmount(amount: int, feeBps: int)
    requires 0 < amount && 0 <= feeBps <= 10_000
    ensures 0 <= amount * feeBps && 0 <= amount * feeBps / 10_000 <= amount
  {
    MulNonNeg(amount, feeBps);
    MulMono(feeBps, 10_000, amount);
    FloorMono(amount * feeBps, amount * 10_000, 10_000);
  }

  /** The fee that a pool takes off the amount. */
  function FeeOn(p: Pool, amountIn: int): (fee: int)
    requires 0 <= p.dynamicFeeBps <= 10_000 && 0 < amountIn
    ensures 0 <= fee <= amountIn
  {
    FeeWithinAmount(amountIn, p.dynamicFeeBps);
    amountIn * p.dynamicFeeBps / 10_000
  }

  /** The trade meets the caller's minimum, and the growth increment and the volume fit. */
  ghost predicate TradeFits(p: Pool, zeroForOne: bool, fee: int, paid: int, received: int, minOut: int)
    requires 0 < p.liquidity
  {
    && minOut <= received
    && fee * Q64 <= I128_MAX
    && (if zeroForOne then p.a.global else p.b.global) + fee * Q64 / p.liquidity <= I128_MAX
    && InI128(p.totalVolume + paid)
  }

  lemma QuoteExact(p: Pool, zeroForOne: bool, amountIn: int, minOut: int, step: SwapStep)
    requires p.Valid() && 0 < amountIn && 0 < p.liquidity && 0 <= step.feePaid
    requires ComputeSwapStep(p.sqrtPrice, SqrtAt(TargetTick(p.currentTick, zeroForOne)), p.liquidity, amountIn,
                             p.dynamicFeeBps) == Value(step)
    ensures SwapPool(p, zeroForOne, amountIn, minOut).Ok? <==>
              TradeFits(p, zeroForOne, step.feePaid, step.amountIn, step.amountOut, minOut)
    ensures SwapPool(p, zeroForOne, amountIn, minOut).Ok? ==>
              var (q, s) := SwapPool(p, zeroForOne, amountIn, minOut).value;
              && s == step && q.sqrtPrice == step.newPrice && q.totalVolume == p.totalVolume + step.amountIn
              && q.a.global == p.a.global + (if zeroForOne then step.feePaid * Q64 / p.liquidity else 0)
              && q.b.global == p.b.global + (if zeroForOne then 0 else step.feePaid * Q64 / p.liquidity)
  {
    hide SqrtAt, FloorTick, ComputeSwapStep, Growth.Cross, Increment;
    IncrementExact(step.feePaid, p.liquidity);
  }

  lemma IncrementExact(fee: int, liquidity: int)
    requires 0 <= fee && 0 < liquidity
    ensures Increment(fee, liquidity) == if fee * Q64 <= I128_MAX then Value(fee * Q64 / liquidity) else Panic
    ensures 0 <= fee * Q64 / liquidity
  {
    FloorNonNeg(fee * Q64, liquidity);
  }

  lemma NoSwapWithout(p: Pool, zeroForOne: bool, amountIn: int, minOut: int)
    requires p.Valid()
    ensures amountIn <= 0 || p.liquidity == 0 ==> SwapPool(p, zeroForOne, amountIn, minOut).Err?
    ensures var target := SqrtAt(TargetTick(p.currentTick, zeroForOne));
            var step := ComputeSwapStep(p.sqrtPrice, target, p.liquidity, amountIn, p.dynamicFeeBps);
            step.Panic? ==> SwapPool(p, zeroForOne, amountIn, minOut).Err?
  {
    hide SqrtAt, FloorTick, ComputeSwapStep, Settle;
  }

  /** The step that a swap takes: the pool's dynamic fee, and for the rest the trade of the pool's price,
      liquidity and tick. */
  lemma PoolStepExact(p: Pool, zeroForOne: bool, amountIn: int)
    requires p.Valid() && 0 < amountIn <= I128_MAX && 0 < p.liquidity
    ensures var s := ComputeSwapStep(p.sqrtPrice, SqrtAt(TargetTick(p.currentTick, zeroForOne)), p.liquidity, amountIn,
                                     p.dynamicFeeBps);
            var fee := FeeOn(p, amountIn);
            var t := PoolTrade(p, zeroForOne, amountIn - fee);
            && (s.Value? <==> amountIn * p.dynamicFeeBps <= I128_MAX)
            && (s.Value? ==> s.value == SwapStep(t.paid, t.received, fee, t.price))
  {
    hide SqrtAt, FloorTick, ComputeSwapStep, Falling, Rising, Growth.Bounded;
    var target := TargetTick(p.currentTick, zeroForOne);
    assert Goal(p.currentTick, zeroForOne) == SqrtAt(target);
    SqrtRange(target);
    StepExact(p.sqrtPrice, SqrtAt(target), p.liquidity, amountIn, p.dynamicFeeBps);
  }

  /** A swap of a valid pool succeeds if and only if something is offered, there is liquidity, the fee
      product fits, the trade meets the caller's minimum, and the growth increment and the volume fit. It
      then charges the pool's dynamic fee and makes exactly the trade of the pool's price, liquidity and
      tick. */
  lemma SwapSucceedsIff(p: Pool, zeroForOne: bool, amountIn: int, minOut: int)
    requires p.Valid() && amountIn <= I128_MAX
    ensures SwapPool(p, zeroForOne, amountIn, minOut).Ok? <==>
              && 0 < amountIn && 0 < p.liquidity && amountIn * p.dynamicFeeBps <= I128_MAX
              && var fee := FeeOn(p, amountIn);
              var t := PoolTrade(p, zeroForOne, amountIn - fee);
              TradeFits(p, zeroForOne, fee, t.paid, t.received, minOut)
    ensures SwapPool(p, zeroForOne, amountIn, minOut).Ok? ==>
              var (q, step) := SwapPool(p, zeroForOne, amountIn, minOut).value;
              var fee := FeeOn(p, amountIn);
              var t := PoolTrade(p, zeroForOne, amountIn - fee);
              && fee == amountIn * p.dynamicFeeBps / 10_000
              && step == SwapStep(t.paid, t.received, fee, t.price)
              && q.sqrtPrice == t.price && q.totalVolume == p.totalVolume + t.paid
              && q.a.global == p.a.global + (if zeroForOne then fee * Q64 / p.liquidity else 0)
              && q.b.global == p.b.global + (if zeroForOne then 0 else fee * Q64 / p.liquidity)
  {
    hide SqrtAt, FloorTick, ComputeSwapStep, PoolTrade, Growth.Bounded, SwapPool, TradeFits;
    NoSwapWithout(p, zeroForOne, amountIn, minOut);
    if 0 < amountIn && 0 < p.liquidity {
      PoolStepExact(p, zeroForOne, amountIn);
      if amountIn * p.dynamicFeeBps <= I128_MAX {
        var fee := FeeOn(p, amountIn);
        var t := PoolTrade(p, zeroForOne, amountIn - fee);
        QuoteExact(p, zeroForOne, amountIn, minOut, SwapStep(t.paid, t.received, fee, t.price));
      }
    }
  }

  lemma SwapPaysFee(p: Pool, zeroForOne: bool, amountIn: int, minOut: int)
    requires p.Valid() && SwapPool(p, zeroForOne, amountIn, minOut).Ok?
    ensures amountIn <= I128_MAX ==>
              SwapPool(p, zeroForOne, amountIn, minOut).value.1.feePaid == amountIn * p.dynamicFeeBps / 10_000
  {
    hide SwapPool, PoolTrade, TradeFits;
    if amountIn <= I128_MAX {
      SwapSucceedsIff(p, zeroForOne, amountIn, minOut);
    }
  }

  /** At every price of the table, selling token A never raises the price and buying it never lowers it.
      Outside the table a swap at the end of the tick range moves the price back to the table, against
      the direction of the trade. */
  lemma TradeDirection(p: Pool, zeroForOne: bool, offered: int)
    requires p.Valid() && 0 < p.liquidity && 0 <= offered
    ensures var t := PoolTrade(p, zeroForOne, offered);
            && (zeroForOne ==> (t.price <= p.sqrtPrice <==> MIN_SQRT <= p.sqrtPrice || t.price == p.sqrtPrice))
            && (!zeroForOne ==> (p.sqrtPrice <= t.price <==> p.sqrtPrice <= MAX_SQRT))
  {
    hide SqrtAt, FloorTick, Converted, Growth.Bounded;
    var tick := p.currentTick;
    var goal := Goal(tick, zeroForOne);
    SqrtRange(tick);
    FloorNonNeg(offered * Q64, p.liquidity);
    if MIN_SQRT <= p.sqrtPrice {
      FloorTickUnique(p.sqrtPrice, tick);
      if tick > MIN_TICK {
        SqrtStep(tick - 1);
      }
      if tick < MAX_TICK {
        SqrtRange(tick + 1);
      }
    } else {
      FloorTickBelowTable(p.sqrtPrice);
      if !zeroForOne {
        SqrtStep(MIN_TICK);
      }
    }
  }
}
