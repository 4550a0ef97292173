/** One pool of the concentrated-liquidity market maker and its positions
    (Contracts/contracts/amm/src/lib.rs, Contracts/contracts/amm/src/position.rs). */
module AmmPool {
  import opened Arith
  import opened Wrappers
  import opened TickMath
  import opened LiquidityMath
  import opened SwapMath
  import opened FeeGrowth
  import opened ILHedge
  import DynamicFee

  type Address = nat

  datatype AmmError =
    | InvalidFeeTier
    | InvalidTickRange
    | InsufficientLiquidity
    | InvalidAmount
    | Unauthorized
    | PositionNotFound
    | SlippageExceeded
    | Overflow

  /** A panic aborts the call; as a result it is one more error. */
  function OrAbort<T>(c: Checked<T>): (r: Result<T, AmmError>) {
    if c.Value? then Ok(c.value) else Err(Overflow)
  }

  /** PoolState together with the per-tick outside values of both tokens. */
  datatype Pool = Pool(
    sqrtPrice: int,
    currentTick: int,
    liquidity: int,
    activeLiquidity: int,
    feeTier: nat,
    dynamicFeeBps: int,
    a: Growth,
    b: Growth,
    totalVolume: int,
    ilReserveA: int,
    ilReserveB: int)
  {
    predicate InRange(lower: int, upper: int) {
      lower <= currentTick < upper
    }

    function InsideA(lower: int, upper: int): (r: int) {
      a.Inside(currentTick, lower, upper)
    }

    function InsideB(lower: int, upper: int): (r: int) {
      b.Inside(currentTick, lower, upper)
    }

    /** What every operation keeps. */
    ghost predicate Valid() {
      && 0 < sqrtPrice <= I128_MAX
      && currentTick == FloorTick(sqrtPrice)
      && 0 <= liquidity <= I128_MAX && 0 <= activeLiquidity <= I128_MAX
      && feeTier <= 100
      && feeTier <= dynamicFeeBps <= feeTier + DynamicFee.MAX_FEE_PREMIUM_BPS
      && a.Bounded() && b.Bounded()
      && 0 <= ilReserveA <= I128_MAX && 0 <= ilReserveB <= I128_MAX
    }
  }

  datatype Position = Position(
    owner: Address,
    tickLower: int,
    tickUpper: int,
    liquidity: int,
    insideALast: int,
    insideBLast: int,
    owedA: int,
    owedB: int)

  // ---------------------------------------------------------------------------------------
  // Swap

  /** The tick boundary a swap heads for. */
  function TargetTick(tick: int, zeroForOne: bool): (t: int)
    ensures ValidTick(t)
  {
    Min(Max(if zeroForOne then tick - 1 else tick + 1, MIN_TICK), MAX_TICK)
  }

  /** What swap computes before it touches the pool. */
  datatype Quote = Quote(step: SwapStep, boundary: int, globalA: int, globalB: int, volume: int)

  /** The checks and arithmetic of swap. */
  function SwapQuote(p: Pool, zeroForOne: bool, amountIn: int, minOut: int): (r: Result<Quote, AmmError>) {
    if amountIn <= 0 then Err(InvalidAmount)
    else if p.liquidity == 0 then Err(InsufficientLiquidity)
    else
      var targetTick := TargetTick(p.currentTick, zeroForOne);
      var step :- OrAbort(ComputeSwapStep(p.sqrtPrice, SqrtAt(targetTick), p.liquidity, amountIn, p.dynamicFeeBps));
      if step.amountOut < minOut then Err(SlippageExceeded)
      else
        var increment :- OrAbort(Increment(step.feePaid, p.liquidity));
        var globalA :- OrAbort(if zeroForOne then Fit(p.a.global + increment) else Value(p.a.global));
        var globalB :- OrAbort(if zeroForOne then Value(p.b.global) else Fit(p.b.global + increment));
        var volume :- OrAbort(Fit(p.totalVolume + step.amountIn));
        Ok(Quote(step, if zeroForOne then p.currentTick else targetTick, globalA, globalB, volume))
  }

  /** The pool after a quoted swap: a tick is crossed when the new price lies in another tick. */
  function Settle(p: Pool, q: Quote): (r: Pool) {
    var newTick := FloorTick(q.step.newPrice);
    var a := if newTick != p.currentTick then p.a.Cross(q.boundary) else p.a;
    var b := if newTick != p.currentTick then p.b.Cross(q.boundary) else p.b;
    p.(sqrtPrice := q.step.newPrice, currentTick := newTick, totalVolume := q.volume,
       a := a.(global := q.globalA), b := b.(global := q.globalB))
  }

  /** swap: the new pool and the step taken, or the error. */
  function SwapPool(p: Pool, zeroForOne: bool, amountIn: int, minOut: int): (r: Result<(Pool, SwapStep), AmmError>) {
    var q :- SwapQuote(p, zeroForOne, amountIn, minOut);
    Ok((Settle(p, q), q.step))
  }

  /** The price a step ends at, for every positive starting price: a step toward the tick below
      lands in that tick or stays, a step toward the tick above ends between. */
  lemma StepMovesTick(price: int, zeroForOne: bool, liquidity: int, amount: int, feeBps: int)
    requires 0 < price <= I128_MAX && 0 <= liquidity && 0 < amount && 0 <= feeBps <= 10_000
    requires var target := TargetTick(FloorTick(price), zeroForOne);
             ComputeSwapStep(price, SqrtAt(target), liquidity, amount, feeBps).Value?
    ensures var tick := FloorTick(price);
            var target := TargetTick(tick, zeroForOne);
            var s := ComputeSwapStep(price, SqrtAt(target), liquidity, amount, feeBps).value;
            && 0 < s.newPrice <= I128_MAX
            && (FloorTick(s.newPrice) == tick || FloorTick(s.newPrice) == target)
  {
    hide SqrtAt, FloorTick, StepDown, StepUp;
    var tick := FloorTick(price);
    var target := TargetTick(tick, zeroForOne);
    var goal := SqrtAt(target);
    SqrtRange(target);
    MulNonNeg(amount, feeBps);
    var fee := Quot(amount * feeBps, 10_000);
    var offered := Max(amount - fee, 0);
    TickRoundTrip(target);
    if price > goal {
      StepDownLandsOnTarget(price, goal, liquidity, offered, fee);
    } else {
      StepUpStaysInside(price, goal, liquidity, offered, fee);
      var s := StepUp(price, goal, liquidity, offered, fee).value;
      if price < MIN_SQRT {
        FloorTickBelowTable(price);
      } else {
        FloorTickUnique(price, tick);
        if zeroForOne && MIN_TICK < tick {
          SqrtStep(tick - 1);
        }
      }
      BetweenTicks(price, s.newPrice, target);
    }
  }

  /** Rising from tick t toward the price of the next boundary ends in t or at the boundary. */
  lemma BetweenTicks(price: int, newPrice: int, target: int)
    requires ValidTick(target) && price <= newPrice <= SqrtAt(target)
    requires target == FloorTick(price) || target == FloorTick(price) + 1 || target == MIN_TICK
    requires FloorTick(price) == MIN_TICK || MIN_SQRT <= price
    ensures FloorTick(newPrice) == FloorTick(price) || FloorTick(newPrice) == target
  {
    hide SqrtAt, FloorTick;
    SqrtRange(target);
    TickRoundTrip(target);
    var tick := FloorTick(price);
    if newPrice < SqrtAt(target) {
      if newPrice < MIN_SQRT {
        FloorTickBelowTable(newPrice);
      } else if MIN_SQRT <= price {
        FloorTickUnique(price, tick);
        FloorTickUnique(newPrice, tick);
      } else {
        SqrtRange(MIN_TICK);
        FloorTickUnique(newPrice, MIN_TICK);
      }
    }
  }

  /** The two growth increments of a successful swap: only the token that was paid in earns. */
  function SwapIncrement(p: Pool, step: SwapStep): (r: int) {
    var i := Increment(step.feePaid, p.liquidity);
    if i.Value? then i.value else 0
  }

  /** Every successful swap keeps the pool valid - in particular current_tick stays the floor tick
      of sqrt_price - and moves the tick by at most one, in the direction of the trade. The fee
      accounting of both tokens is that of a one-tick swap, and liquidity, reserves and fee
      settings are untouched. */
  lemma SwapStepsOneTick(p: Pool, zeroForOne: bool, amountIn: int, minOut: int)
    requires p.Valid() && SwapPool(p, zeroForOne, amountIn, minOut).Ok?
    ensures var (q, step) := SwapPool(p, zeroForOne, amountIn, minOut).value;
            var inc := SwapIncrement(p, step);
            && q.Valid()
            && (q.currentTick == p.currentTick || q.currentTick == TargetTick(p.currentTick, zeroForOne))
            && 0 <= step.feePaid && 0 <= inc && inc * p.liquidity <= step.feePaid * Q64
            && step.amountIn + step.feePaid <= amountIn && minOut <= step.amountOut
            && q.a == p.a.AfterSwap(p.currentTick, q.currentTick, if zeroForOne then inc else 0)
            && q.b == p.b.AfterSwap(p.currentTick, q.currentTick, if zeroForOne then 0 else inc)
            && q == p.(sqrtPrice := step.newPrice, currentTick := q.currentTick,
                       totalVolume := p.totalVolume + step.amountIn,
                       a := q.a, b := q.b)
  {
    hide SqrtAt, FloorTick, ComputeSwapStep;
    var (q, step) := SwapPool(p, zeroForOne, amountIn, minOut).value;
    var tick := p.currentTick;
    var target := TargetTick(tick, zeroForOne);
    SqrtRange(target);
    StepMovesTick(p.sqrtPrice, zeroForOne, p.liquidity, amountIn, p.dynamicFeeBps);
    StepTakesAtMostOffered(p.sqrtPrice, SqrtAt(target), p.liquidity, amountIn, p.dynamicFeeBps);
    FloorNonNeg(amountIn * p.dynamicFeeBps, 10_000);
    IncrementBelowFee(step.feePaid, p.liquidity);
    var inc := SwapIncrement(p, step);
    BoundedKept(p.a, tick, q.currentTick, if zeroForOne then inc else 0);
    BoundedKept(p.b, tick, q.currentTick, if zeroForOne then 0 else inc);
  }

  lemma OneTick(p: Pool, q: Pool, zeroForOne: bool)
    requires p.Valid()
    requires q.currentTick == p.currentTick || q.currentTick == TargetTick(p.currentTick, zeroForOne)
    ensures Abs(q.currentTick - p.currentTick) <= 1
  {
  }

  /** Fee growth inside a range rises by exactly the increment of the swap if the range holds the
      tick the swap ends in, and by exactly zero otherwise, whether or not a tick was crossed. */
  lemma SwapFeesGoToEndTick(p: Pool, zeroForOne: bool, amountIn: int, minOut: int, lower: int, upper: int)
    requires p.Valid() && SwapPool(p, zeroForOne, amountIn, minOut).Ok? && lower < upper
    ensures var (q, step) := SwapPool(p, zeroForOne, amountIn, minOut).value;
            var earned := if q.InRange(lower, upper) then SwapIncrement(p, step) else 0;
            && q.InsideA(lower, upper) == p.InsideA(lower, upper) + (if zeroForOne then earned else 0)
            && q.InsideB(lower, upper) == p.InsideB(lower, upper) + (if zeroForOne then 0 else earned)
  {
    hide SwapPool, FloorTick;
    SwapStepsOneTick(p, zeroForOne, amountIn, minOut);
    var (q, step) := SwapPool(p, zeroForOne, amountIn, minOut).value;
    var inc := SwapIncrement(p, step);
    SwapRaisesInside(p.a, p.currentTick, q.currentTick, if zeroForOne then inc else 0, lower, upper);
    SwapRaisesInside(p.b, p.currentTick, q.currentTick, if zeroForOne then 0 else inc, lower, upper);
  }

  /** From a tick boundary one unit of token A moves a pool with any liquidity down by one tick: the swap
      always succeeds, pays no fee and leaves the growth inside every range as it was. */
  lemma OneUnitMovesDown(p: Pool)
    requires p.Valid() && 0 < p.liquidity && MIN_TICK < p.currentTick && p.sqrtPrice == SqrtAt(p.currentTick)
    requires 0 <= p.totalVolume < I128_MAX
    ensures SwapPool(p, true, 1, 0).Ok?
    ensures var q := SwapPool(p, true, 1, 0).value.0;
            && q.Valid() && q.currentTick == p.currentTick - 1 && q.sqrtPrice == SqrtAt(p.currentTick - 1)
            && q.liquidity == p.liquidity && q.ilReserveA == p.ilReserveA && q.ilReserveB == p.ilReserveB
            && p.totalVolume <= q.totalVolume <= p.totalVolume + 1
            && forall lower, upper :: lower < upper ==>
                 && q.InsideA(lower, upper) == p.InsideA(lower, upper)
                 && q.InsideB(lower, upper) == p.InsideB(lower, upper)
  {
    hide SqrtAt, FloorTick, Growth.Inside, Growth.Cross, Growth.AfterSwap, Growth.Bounded;
    OneUnitQuote(p);
    hide SwapQuote;
    SwapStepsOneTick(p, true, 1, 0);
    var (q, step) := SwapPool(p, true, 1, 0).value;
    TickRoundTrip(p.currentTick - 1);
    forall lower, upper | lower < upper
      ensures q.InsideA(lower, upper) == p.InsideA(lower, upper) && q.InsideB(lower, upper) == p.InsideB(lower, upper)
    {
      SwapFeesGoToEndTick(p, true, 1, 0, lower, upper);
    }
  }

  lemma OneUnitQuote(p: Pool)
    requires p.Valid() && 0 < p.liquidity && MIN_TICK < p.currentTick && p.sqrtPrice == SqrtAt(p.currentTick)
    requires 0 <= p.totalVolume < I128_MAX
    ensures SwapQuote(p, true, 1, 0).Ok?
    ensures var q := SwapQuote(p, true, 1, 0).value;
            && q.step.newPrice == SqrtAt(p.currentTick - 1) && 0 <= q.step.amountIn <= 1
            && q.volume == p.totalVolume + q.step.amountIn && SwapIncrement(p, q.step) == 0
  {
    hide SqrtAt, FloorTick;
    var tick := p.currentTick;
    var target := SqrtAt(tick - 1);
    assert TargetTick(tick, true) == tick - 1;
    SqrtRange(tick - 1);
    SqrtStrictlyIncreasing(tick - 1, tick);
    StepDownLandsOnTarget(p.sqrtPrice, target, p.liquidity, 1, 0);
    assert ComputeSwapStep(p.sqrtPrice, target, p.liquidity, 1, p.dynamicFeeBps)
           == StepDown(p.sqrtPrice, target, p.liquidity, 1, 0);
    StepTakesAtMostOffered(p.sqrtPrice, target, p.liquidity, 1, p.dynamicFeeBps);
    hide StepDown, ComputeSwapStep, Growth.Bounded;
    assert Increment(0, p.liquidity) == Value(0);
  }

  // ---------------------------------------------------------------------------------------
  // Accruing fees to a position

  /** accrue_position_fees for one token: the new amount owed. */
  function Credit(liquidity: int, last: int, now: int, owed: int): (r: Checked<int>) {
    var perUnit :- Fit(now - last);
    if perUnit > 0 then
      var product :- Fit(liquidity * perUnit);
      Fit(owed + Quot(product, Q64))
    else
      Value(owed)
  }

  /** accrue_position_fees: credit both tokens and move both checkpoints. */
  function Accrue(pos: Position, insideA: int, insideB: int): (r: Checked<Position>) {
    var owedA :- Credit(pos.liquidity, pos.insideALast, insideA, pos.owedA);
    var owedB :- Credit(pos.liquidity, pos.insideBLast, insideB, pos.owedB);
    Value(pos.(owedA := owedA, owedB := owedB, insideALast := insideA, insideBLast := insideB))
  }

  /** A credit pays the growth it is credited for, never more and less than one unit short. */
  lemma CreditBelowGrowth(liquidity: int, last: int, now: int, owed: int)
    requires 0 <= liquidity && last <= now
    requires Credit(liquidity, last, now, owed).Value?
    ensures owed <= Credit(liquidity, last, now, owed).value
    ensures Q64 * (Credit(liquidity, last, now, owed).value - owed) <= liquidity * (now - last)
    ensures liquidity * (now - last) < Q64 * (Credit(liquidity, last, now, owed).value - owed + 1)
  {
    MulNonNeg(liquidity, now - last);
    FloorBounds(liquidity * (now - last), Q64);
    FloorNonNeg(liquidity * (now - last), Q64);
  }

  /** What is owed after accruing at each checkpoint in turn. */
  function CreditAt(liquidity: int, last: int, checkpoints: seq<int>, owed: int): (r: Checked<int>)
    decreases |checkpoints|
  {
    if checkpoints == [] then Value(owed)
    else
      var next :- Credit(liquidity, last, checkpoints[0], owed);
      CreditAt(liquidity, checkpoints[0], checkpoints[1..], next)
  }

  /** Accruing at intermediate checkpoints never credits more than accruing once at the end. */
  lemma {:induction false} AccruingOftenNeverGains(liquidity: int, last: int, checkpoints: seq<int>, now: int,
                                                   owed: int)
    requires 0 <= liquidity
    requires forall i :: 0 <= i < |checkpoints| ==> last <= checkpoints[i] <= now
    requires forall i, j :: 0 <= i < j < |checkpoints| ==> checkpoints[i] <= checkpoints[j]
    requires last <= now
    requires CreditAt(liquidity, last, checkpoints + [now], owed).Value? && Credit(liquidity, last, now, owed).Value?
    ensures CreditAt(liquidity, last, checkpoints + [now], owed).value <= Credit(liquidity, last, now, owed).value
    decreases |checkpoints|
  {
    if checkpoints == [] {
      assert ([] + [now])[1..] == [];
    } else {
      var mid, rest := checkpoints[0], checkpoints[1..];
      assert (checkpoints + [now])[1..] == rest + [now];
      var next := Credit(liquidity, last, mid, owed).value;
      CreditSuper(liquidity, last, mid, now, owed);
      AccruingOftenNeverGains(liquidity, mid, rest, now, next);
    }
  }

  lemma CreditSuper(liquidity: int, last: int, mid: int, now: int, owed: int)
    requires 0 <= liquidity && last <= mid <= now
    requires Credit(liquidity, last, mid, owed).Value? && Credit(liquidity, last, now, owed).Value?
    ensures var next := Credit(liquidity, last, mid, owed).value;
            && Credit(liquidity, mid, now, next).Value?
            && Credit(liquidity, mid, now, next).value <= Credit(liquidity, last, now, owed).value
  {
    var x, y := liquidity * (mid - last), liquidity * (now - mid);
    Distribute(liquidity, mid - last, now - mid);
    MulNonNeg(liquidity, mid - last);
    MulNonNeg(liquidity, now - mid);
    FloorSuper(x, y, Q64);
    FloorNonNeg(x, Q64);
    FloorNonNeg(y, Q64);
  }
}
