/** The pool contract: the entry points load the pool and a position, change them and write them
    back. A call that returns an error or aborts leaves the stored state as it was. */
module Amm {
  import opened Arith
  import opened Wrappers
  import opened TickMath
  import opened LiquidityMath
  import opened SwapMath
  import opened FeeGrowth
  import opened ILHedge
  import opened AmmPool
  import opened SwapExact
  import opened AmmLiquidity
  import DynamicFee

  ghost predicate PositiveSamples(samples: map<nat, int>) {
    forall period <- samples :: 0 < samples[period]
  }

  class PoolContract {
    const feeTier: nat
    var sqrtPrice: int
    var currentTick: int
    var liquidity: int
    var activeLiquidity: int
    var dynamicFeeBps: int
    var feeGrowthGlobalA: int
    var feeGrowthGlobalB: int
    var tickOutsideA: map<int, int>
    var tickOutsideB: map<int, int>
    var totalVolume: int
    var ilReserveA: int
    var ilReserveB: int
    var positions: map<nat, Position>
    var positionCount: nat
    var priceSamples: map<nat, int>

    /** The stored pool, as an entry point loads it. */
    function View(): (p: Pool)
      reads this
    {
      Pool(sqrtPrice, currentTick, liquidity, activeLiquidity, feeTier, dynamicFeeBps,
           Growth(feeGrowthGlobalA, tickOutsideA), Growth(feeGrowthGlobalB, tickOutsideB),
           totalVolume, ilReserveA, ilReserveB)
    }

    /** In every reachable state: the pool is valid (so the tick is in sync with the price and the
        dynamic fee lies in [fee_tier, fee_tier + 50]), and every position has a live id, a proper
        range and liquidity left. The recorded prices are positive. */
    ghost predicate Valid()
      reads this
    {
      && View().Valid()
      && PositiveSamples(priceSamples)
      && forall id <- positions ::
           && 1 <= id <= positionCount
           && positions[id].tickLower < positions[id].tickUpper
           && ValidTick(positions[id].tickLower) && ValidTick(positions[id].tickUpper)
           && 0 < positions[id].liquidity
    }

    /** create_pool: an unsupported fee tier or a non-positive price is refused. */
    static method CreatePool(tier: nat, initSqrtPrice: int) returns (r: Result<PoolContract, AmmError>)
      requires InI128(initSqrtPrice)
      ensures tier !in {5, 30, 100} ==> r == Err(InvalidFeeTier)
      ensures tier in {5, 30, 100} && initSqrtPrice <= 0 ==> r == Err(InvalidAmount)
      ensures tier in {5, 30, 100} && 0 < initSqrtPrice ==>
                && r.Ok? && fresh(r.value) && r.value.Valid()
                && r.value.View().sqrtPrice == initSqrtPrice && r.value.View().dynamicFeeBps == tier == r.value.feeTier
                && r.value.View().liquidity == 0 && r.value.positions == map[]
    {
      if tier !in {5, 30, 100} {
        return Err(InvalidFeeTier);
      }
      if initSqrtPrice <= 0 {
        return Err(InvalidAmount);
      }
      var pool := new PoolContract(tier, initSqrtPrice);
      r := Ok(pool);
    }

    /** The new pool that create_pool stores: empty, its tick the floor tick of its price. */
    constructor (tier: nat, initSqrtPrice: int)
      requires tier in {5, 30, 100} && 0 < initSqrtPrice <= I128_MAX
      ensures Valid()
      ensures View() == Pool(initSqrtPrice, FloorTick(initSqrtPrice), 0, 0, tier, tier,
                             Growth(0, map[]), Growth(0, map[]), 0, 0, 0)
      ensures positions == map[] && positionCount == 0
    {
      var tick := SqrtPriceToTick(initSqrtPrice);
      feeTier, dynamicFeeBps := tier, tier;
      sqrtPrice, currentTick := initSqrtPrice, tick;
      liquidity, activeLiquidity, totalVolume := 0, 0, 0;
      feeGrowthGlobalA, feeGrowthGlobalB := 0, 0;
      tickOutsideA, tickOutsideB := map[], map[];
      ilReserveA, ilReserveB := 0, 0;
      positions, positionCount, priceSamples := map[], 0, map[];
    }

    /** write_pool: store every field of the pool. */
    method WritePool(p: Pool)
      requires p.feeTier == feeTier
      modifies this`sqrtPrice, this`currentTick, this`liquidity, this`activeLiquidity, this`dynamicFeeBps,
               this`feeGrowthGlobalA, this`feeGrowthGlobalB, this`tickOutsideA, this`tickOutsideB,
               this`totalVolume, this`ilReserveA, this`ilReserveB
      ensures View() == p
    {
      sqrtPrice, currentTick := p.sqrtPrice, p.currentTick;
      liquidity, activeLiquidity := p.liquidity, p.activeLiquidity;
      dynamicFeeBps, totalVolume := p.dynamicFeeBps, p.totalVolume;
      feeGrowthGlobalA, tickOutsideA := p.a.global, p.a.outside;
      feeGrowthGlobalB, tickOutsideB := p.b.global, p.b.outside;
      ilReserveA, ilReserveB := p.ilReserveA, p.ilReserveB;
    }

    /** cross_tick: flip the stored outside values of one tick. */
    method CrossTick(tick: int)
      modifies this`tickOutsideA, this`tickOutsideB
      ensures View() == old(View()).(a := old(View()).a.Cross(tick), b := old(View()).b.Cross(tick))
    {
      var oldA := if tick in tickOutsideA then tickOutsideA[tick] else 0;
      var oldB := if tick in tickOutsideB then tickOutsideB[tick] else 0;
      tickOutsideA := tickOutsideA[tick := feeGrowthGlobalA - oldA];
      tickOutsideB := tickOutsideB[tick := feeGrowthGlobalB - oldB];
    }

    /** record_price_sample: one sample per period, the last one wins. */
    method RecordPriceSample(now: nat)
      requires Valid()
      modifies this`priceSamples
      ensures Valid()
      ensures priceSamples == old(priceSamples)[now / 3600 := sqrtPrice]
    {
      priceSamples := priceSamples[now / DynamicFee.ORACLE_PERIOD_SECS := sqrtPrice];
    }

    /** swap */
    method Swap(zeroForOne: bool, amountIn: int, minOut: int, now: nat) returns (r: Result<SwapStep, AmmError>)
      requires Valid()
      modifies this
      ensures Valid()
      ensures var s := SwapPool(old(View()), zeroForOne, amountIn, minOut);
              if s.Err? then r == Err(s.error) && unchanged(this)
              else r == Ok(s.value.1) && View() == s.value.0
      ensures positions == old(positions) && positionCount == old(positionCount)
      ensures r.Ok? ==> priceSamples == old(priceSamples)[now / 3600 := old(sqrtPrice)]
      ensures r.Ok? && amountIn <= I128_MAX ==> r.value.feePaid == amountIn * old(dynamicFeeBps) / 10_000
      ensures r.Ok? ==> -1 <= currentTick - old(currentTick) <= 1
    {
      hide FloorTick, SwapQuote, Growth.Cross, Pool.Valid, TargetTick, PositiveSamples;
      var pool := View();
      var q :- SwapQuote(pool, zeroForOne, amountIn, minOut);
      SwapStepsOneTick(pool, zeroForOne, amountIn, minOut);
      SwapPaysFee(pool, zeroForOne, amountIn, minOut);
      RecordPriceSample(now);
      var newTick := SqrtPriceToTick(q.step.newPrice);
      if newTick != pool.currentTick {
        CrossTick(q.boundary);
        pool := View();
      }
      pool := pool.(sqrtPrice := q.step.newPrice, currentTick := newTick, totalVolume := q.volume,
                    a := pool.a.(global := q.globalA), b := pool.b.(global := q.globalB));
      WritePool(pool);
      OneTick(old(View()), pool, zeroForOne);
      r := Ok(q.step);
    }

    /** update_dynamic_fee: the fee stays within 50 basis points of the pool's tier. */
    method UpdateDynamicFee(now: nat) returns (r: Result<int, AmmError>)
      requires Valid()
      modifies this`dynamicFeeBps
      ensures Valid()
      ensures r.Err? ==> dynamicFeeBps == old(dynamicFeeBps)
      ensures r.Ok? ==> r.value == dynamicFeeBps
      ensures r == OrAbort(DynamicFee.FeeOf(
                    DynamicFee.Readings(priceSamples, now / 3600, 24), feeTier))
    {
      var fee, _ := DynamicFee.ComputeDynamicFee(priceSamples, now, feeTier);
      if fee.Panic? {
        return Err(Overflow);
      }
      dynamicFeeBps := fee.value;
      r := Ok(fee.value);
    }

    /** add_liquidity: mints a position under a new id. */
    method AddLiquidity(caller: Address, lower: int, upper: int, desiredA: int, desiredB: int, minA: int, minB: int)
      returns (r: Result<(nat, int, int), AmmError>)
      requires Valid()
      modifies this
      ensures Valid()
      ensures var d := AddToPool(old(View()), caller, lower, upper, desiredA, desiredB, minA, minB);
              if d.Err? then r == Err(d.error) && unchanged(this)
              else
                && r == Ok((positionCount, d.value.amountA, d.value.amountB))
                && positionCount == old(positionCount) + 1 && positionCount !in old(positions)
                && positions == old(positions)[positionCount := d.value.position]
                && View() == d.value.pool
                && d.value.amountA <= Max(desiredA, 0) && d.value.amountB <= Max(desiredB, 0)
    {
      hide FloorTick, MintQuote, Pool.Valid, PositiveSamples;
      var pool := View();
      var m :- MintQuote(pool, lower, upper, desiredA, desiredB, minA, minB);
      DepositIsSound(pool, caller, lower, upper, desiredA, desiredB, minA, minB);
      WritePool(pool.(liquidity := m.total, activeLiquidity := Max(m.active, 0),
                      ilReserveA := m.reserveA, ilReserveB := m.reserveB));
      positionCount := positionCount + 1;
      positions := positions[positionCount := Position(caller, lower, upper, m.minted,
                     pool.InsideA(lower, upper), pool.InsideB(lower, upper), 0, 0)];
      r := Ok((positionCount, m.amountA, m.amountB));
    }

    /** remove_liquidity: a position is deleted exactly when its liquidity is used up. */
    method RemoveLiquidity(caller: Address, id: nat, removed: int, minA: int, minB: int)
      returns (r: Result<(int, int), AmmError>)
      requires Valid()
      modifies this
      ensures Valid()
      ensures id !in old(positions) ==> r == Err(PositionNotFound) && unchanged(this)
      ensures id in old(positions) && old(positions)[id].owner != caller ==> r == Err(Unauthorized) && unchanged(this)
      ensures id in old(positions) && old(positions)[id].owner == caller ==>
                var w := RemoveFromPool(old(View()), old(positions)[id], removed, minA, minB);
                if w.Err? then r == Err(w.error) && unchanged(this)
                else
                  && r == Ok((w.value.outA, w.value.outB))
                  && View() == w.value.pool
                  && positionCount == old(positionCount)
                  && positions == (if w.value.position.liquidity == 0 then old(positions) - {id}
                                   else old(positions)[id := w.value.position])
    {
      hide FloorTick, BurnQuote, Growth.Bounded, PositiveSamples;
      if id !in positions {
        return Err(PositionNotFound);
      }
      var pos := positions[id];
      if pos.owner != caller {
        return Err(Unauthorized);
      }
      var pool := View();
      var q :- BurnQuote(pool, pos, removed, minA, minB);
      RemovalIsSound(pool, pos, removed, minA, minB);
      pool := pool.(ilReserveA := Max(pool.ilReserveA - q.hedgeA, 0), ilReserveB := Max(pool.ilReserveB - q.hedgeB, 0));
      if pool.InRange(pos.tickLower, pos.tickUpper) {
        pool := pool.(liquidity := Max(pool.liquidity - removed, 0),
                      activeLiquidity := Max(pool.activeLiquidity - removed, 0));
      }
      WritePool(pool);
      pos := q.accrued.(liquidity := pos.liquidity - removed);
      if pos.liquidity == 0 {
        positions := positions - {id};
      } else {
        positions := positions[id := pos];
      }
      r := Ok((q.outA, q.outB));
    }

    /** collect_fees: accrue, pay out what is owed, keep the checkpoint. */
    method CollectFees(caller: Address, id: nat) returns (r: Result<(int, int), AmmError>)
      requires Valid()
      modifies this`positions
      ensures Valid()
      ensures r.Err? ==> positions == old(positions)
      ensures r.Ok? ==> id in old(positions) && old(positions)[id].owner == caller
      ensures id in old(positions) && old(positions)[id].owner == caller ==>
                var was := old(positions)[id];
                var c := Accrue(was, View().InsideA(was.tickLower, was.tickUpper),
                                View().InsideB(was.tickLower, was.tickUpper));
                if c.Panic? then r == Err(Overflow)
                else
                  && r == Ok((c.value.owedA, c.value.owedB))
                  && positions == old(positions)[id := c.value.(owedA := Min(c.value.owedA, 0),
                                                                owedB := Min(c.value.owedB, 0))]
    {
      hide FloorTick, Credit, PositiveSamples;
      if id !in positions {
        return Err(PositionNotFound);
      }
      var pos := positions[id];
      if pos.owner != caller {
        return Err(Unauthorized);
      }
      var pool := View();
      pos :- OrAbort(Accrue(pos, pool.InsideA(pos.tickLower, pos.tickUpper),
                            pool.InsideB(pos.tickLower, pos.tickUpper)));
      var owedA, owedB := pos.owedA, pos.owedB;
      if owedA > 0 {
        pos := pos.(owedA := 0);
      }
      if owedB > 0 {
        pos := pos.(owedB := 0);
      }
      positions := positions[id := pos];
      r := Ok((owedA, owedB));
    }
  }
}
