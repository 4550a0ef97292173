/** Adding and removing liquidity as functions of the pool, and what sequences of removals keep
    (Contracts/contracts/amm/src/lib.rs). */
module AmmLiquidity {
  import opened Arith
  import opened Wrappers
  import opened TickMath
  import opened LiquidityMath
  import opened SplitBurn
  import opened FeeGrowth
  import opened ILHedge
  import opened AmmPool

  /** An invalid tick is the InvalidTickRange error. */
  function PriceOf(tick: int): (r: Result<int, AmmError>) {
    var p := TickToSqrtPrice(tick);
    if p.None? then Err(InvalidTickRange) else Ok(p.value)
  }

  datatype Deposit = Deposit(pool: Pool, position: Position, amountA: int, amountB: int)

  /** What add_liquidity computes before it touches the pool. */
  datatype Mint = Mint(minted: int, amountA: int, amountB: int, total: int, active: int, reserveA: int, reserveB: int)

  /** The checks and arithmetic of add_liquidity. */
  function MintQuote(p: Pool, lower: int, upper: int, desiredA: int, desiredB: int, minA: int, minB: int)
    : (r: Result<Mint, AmmError>)
  {
    if lower >= upper then Err(InvalidTickRange)
    else if desiredA <= 0 && desiredB <= 0 then Err(InvalidAmount)
    else
      var sqrtLower :- PriceOf(lower);
      var sqrtUpper :- PriceOf(upper);
      var minted :- OrAbort(LiquidityFromAmounts(desiredA, desiredB, sqrtLower, sqrtUpper, p.sqrtPrice));
      if minted == 0 then Err(InsufficientLiquidity)
      else
        var (a, b) :- OrAbort(AmountsForLiquidity(minted, sqrtLower, sqrtUpper, p.sqrtPrice));
        if a < minA || b < minB then Err(SlippageExceeded)
        else
          var added := if p.InRange(lower, upper) then minted else 0;
          var total :- OrAbort(Fit(p.liquidity + added));
          var active :- OrAbort(Fit(p.activeLiquidity + added));
          var il :- OrAbort(EstimateIlBps(lower, upper, p.sqrtPrice));
          var fundA :- OrAbort(HedgeReserve(il, a));
          var fundB :- OrAbort(HedgeReserve(il, b));
          var reserveA :- OrAbort(Fit(p.ilReserveA + fundA));
          var reserveB :- OrAbort(Fit(p.ilReserveB + fundB));
          Ok(Mint(minted, a, b, total, active, reserveA, reserveB))
  }

  /** add_liquidity: the new pool, the minted position and the amounts pulled, or the error. */
  function AddToPool(p: Pool, owner: Address, lower: int, upper: int, desiredA: int, desiredB: int, minA: int,
                     minB: int)
    : (r: Result<Deposit, AmmError>)
  {
    var m :- MintQuote(p, lower, upper, desiredA, desiredB, minA, minB);
    Ok(Deposit(p.(liquidity := m.total, activeLiquidity := Max(m.active, 0),
                  ilReserveA := m.reserveA, ilReserveB := m.reserveB),
               Position(owner, lower, upper, m.minted, p.InsideA(lower, upper), p.InsideB(lower, upper), 0, 0),
               m.amountA, m.amountB))
  }

  /** A deposit keeps the pool valid, pulls at most what was desired of each token, counts toward the
      pool's liquidity exactly when the current tick is in its range, starts with nothing to accrue,
      and funds the reserve with at most a twentieth of each amount. */
  lemma DepositIsSound(p: Pool, owner: Address, lower: int, upper: int, desiredA: int, desiredB: int, minA: int,
                       minB: int)
    requires p.Valid()
    requires AddToPool(p, owner, lower, upper, desiredA, desiredB, minA, minB).Ok?
    ensures var d := AddToPool(p, owner, lower, upper, desiredA, desiredB, minA, minB).value;
            && d.pool.Valid()
            && ValidTick(lower) && ValidTick(upper) && lower < upper
            && minA <= d.amountA && 0 <= d.amountA <= Max(desiredA, 0)
            && minB <= d.amountB && 0 <= d.amountB <= Max(desiredB, 0)
            && 0 < d.position.liquidity
            && d.pool.liquidity - p.liquidity == (if p.InRange(lower, upper) then d.position.liquidity else 0)
            && Accrue(d.position, d.pool.InsideA(lower, upper), d.pool.InsideB(lower, upper)) == Value(d.position)
            && 0 <= (d.pool.ilReserveA - p.ilReserveA) * 20 <= d.amountA
            && 0 <= (d.pool.ilReserveB - p.ilReserveB) * 20 <= d.amountB
            && LiquidityFromAmounts(desiredA, desiredB, SqrtAt(lower), SqrtAt(upper), p.sqrtPrice)
               == Value(d.position.liquidity)
            && AmountsForLiquidity(d.position.liquidity, SqrtAt(lower), SqrtAt(upper), p.sqrtPrice)
               == Value((d.amountA, d.amountB))
            && (ValidTick(MidTick(lower, upper)) && p.sqrtPrice == SqrtAt(MidTick(lower, upper)) ==>
                  d.pool.ilReserveA == p.ilReserveA && d.pool.ilReserveB == p.ilReserveB)
  {
    hide SqrtAt, FloorTick, LiquidityFromAmounts, AmountsForLiquidity, EstimateIlBps;
    var d := AddToPool(p, owner, lower, upper, desiredA, desiredB, minA, minB).value;
    SqrtRange(lower);
    SqrtRange(upper);
    SqrtStrictlyIncreasing(lower, upper);
    AmountsWithinDesired(desiredA, desiredB, SqrtAt(lower), SqrtAt(upper), p.sqrtPrice);
    ReserveTaken(lower, upper, p.sqrtPrice, d.amountA);
    ReserveTaken(lower, upper, p.sqrtPrice, d.amountB);
    InsideFits(p.a, p.currentTick, lower, upper);
    InsideFits(p.b, p.currentTick, lower, upper);
  }

  // ---------------------------------------------------------------------------------------
  // Removal

  datatype Removal = Removal(pool: Pool, position: Position, outA: int, outB: int, hedgeA: int, hedgeB: int)

  /** What remove_liquidity computes before it touches the pool. */
  datatype Burn = Burn(accrued: Position, outA: int, outB: int, hedgeA: int, hedgeB: int)

  /** The checks and arithmetic of remove_liquidity; the payout includes the hedge. */
  function BurnQuote(p: Pool, pos: Position, removed: int, minA: int, minB: int): (r: Result<Burn, AmmError>) {
    if removed <= 0 || removed > pos.liquidity then Err(InvalidAmount)
    else
      var accrued :- OrAbort(Accrue(pos, p.InsideA(pos.tickLower, pos.tickUpper),
                                    p.InsideB(pos.tickLower, pos.tickUpper)));
      var sqrtLower :- PriceOf(pos.tickLower);
      var sqrtUpper :- PriceOf(pos.tickUpper);
      var (a, b) :- OrAbort(AmountsForLiquidity(removed, sqrtLower, sqrtUpper, p.sqrtPrice));
      if a < minA || b < minB then Err(SlippageExceeded)
      else
        var hedgeA :- OrAbort(HedgeRelease(p.ilReserveA, removed, pos.liquidity));
        var hedgeB :- OrAbort(HedgeRelease(p.ilReserveB, removed, pos.liquidity));
        var outA :- OrAbort(Fit(a + hedgeA));
        var outB :- OrAbort(Fit(b + hedgeB));
        Ok(Burn(accrued, outA, outB, hedgeA, hedgeB))
  }

  /** remove_liquidity: the new pool and position and the payout, or the error. */
  function RemoveFromPool(p: Pool, pos: Position, removed: int, minA: int, minB: int): (r: Result<Removal, AmmError>) {
    var q :- BurnQuote(p, pos, removed, minA, minB);
    var burned := if p.InRange(pos.tickLower, pos.tickUpper) then removed else 0;
    Ok(Removal(p.(liquidity := Max(p.liquidity - burned, 0), activeLiquidity := Max(p.activeLiquidity - burned, 0),
                  ilReserveA := Max(p.ilReserveA - q.hedgeA, 0), ilReserveB := Max(p.ilReserveB - q.hedgeB, 0)),
               q.accrued.(liquidity := pos.liquidity - removed),
               q.outA, q.outB, q.hedgeA, q.hedgeB))
  }

  /** A removal leaves growth and tick alone and the position accrued, with less liquidity. */
  lemma RemovalShape(p: Pool, pos: Position, removed: int, minA: int, minB: int)
    requires RemoveFromPool(p, pos, removed, minA, minB).Ok?
    ensures var r := RemoveFromPool(p, pos, removed, minA, minB).value;
            var c := Accrue(pos, p.InsideA(pos.tickLower, pos.tickUpper), p.InsideB(pos.tickLower, pos.tickUpper));
            && r.pool.a == p.a && r.pool.b == p.b && r.pool.currentTick == p.currentTick
            && c.Value? && r.position == c.value.(liquidity := pos.liquidity - removed)
            && 0 < removed <= pos.liquidity
  {
    hide AmountsForLiquidity, HedgeRelease, PriceOf, Accrue, Pool.InsideA, Pool.InsideB;
  }

  /** A removal keeps the pool valid; the hedge it pays is exactly the drop of the reserve. */
  lemma RemovalIsSound(p: Pool, pos: Position, removed: int, minA: int, minB: int)
    requires p.Valid() && RemoveFromPool(p, pos, removed, minA, minB).Ok?
    ensures var r := RemoveFromPool(p, pos, removed, minA, minB).value;
            && r.pool.Valid()
            && r.pool.ilReserveA + r.hedgeA == p.ilReserveA && 0 <= r.hedgeA
            && r.pool.ilReserveB + r.hedgeB == p.ilReserveB && 0 <= r.hedgeB
            && (removed == pos.liquidity ==> r.pool.ilReserveA == 0 && r.pool.ilReserveB == 0)
            && r.position.liquidity == pos.liquidity - removed && 0 <= r.position.liquidity
            && r.pool.sqrtPrice == p.sqrtPrice
            && r.position.tickLower == pos.tickLower && r.position.tickUpper == pos.tickUpper
  {
    hide SqrtAt, FloorTick, AmountsForLiquidity, HedgeRelease;
    var r := RemoveFromPool(p, pos, removed, minA, minB).value;
    ReleaseWithinReserve(p.ilReserveA, removed, pos.liquidity);
    ReleaseWithinReserve(p.ilReserveB, removed, pos.liquidity);
  }

  /** Burning a fresh position undoes its deposit: the pool is back to where it was except that the
      reserve is paid out, and the principal returned is exactly what was pulled. */
  lemma DepositThenRemoval(p: Pool, owner: Address, lower: int, upper: int, desiredA: int, desiredB: int, minA: int,
                           minB: int)
    requires p.Valid() && AddToPool(p, owner, lower, upper, desiredA, desiredB, minA, minB).Ok?
    requires var d := AddToPool(p, owner, lower, upper, desiredA, desiredB, minA, minB).value;
             RemoveFromPool(d.pool, d.position, d.position.liquidity, I128_MIN, I128_MIN).Ok?
    ensures var d := AddToPool(p, owner, lower, upper, desiredA, desiredB, minA, minB).value;
            var r := RemoveFromPool(d.pool, d.position, d.position.liquidity, I128_MIN, I128_MIN).value;
            && r.pool == p.(ilReserveA := 0, ilReserveB := 0)
            && r.outA == d.amountA + d.pool.ilReserveA && r.outB == d.amountB + d.pool.ilReserveB
            && r.position == d.position.(liquidity := 0)
  {
    hide SqrtAt, FloorTick, LiquidityFromAmounts, AmountsForLiquidity, EstimateIlBps, HedgeRelease, HedgeReserve,
      Accrue;
    DepositIsSound(p, owner, lower, upper, desiredA, desiredB, minA, minB);
    var d := AddToPool(p, owner, lower, upper, desiredA, desiredB, minA, minB).value;
    RemovalIsSound(d.pool, d.position, d.position.liquidity, I128_MIN, I128_MIN);
  }

  datatype Payout = Payout(pool: Pool, position: Position, principalA: int, principalB: int, hedgeA: int, hedgeB: int)

  /** Removing the parts of a position one call after another, with no slippage bound. */
  function RemoveParts(p: Pool, pos: Position, parts: seq<int>): (r: Result<Payout, AmmError>)
    decreases |parts|
  {
    if parts == [] then Ok(Payout(p, pos, 0, 0, 0, 0))
    else
      var first :- RemoveFromPool(p, pos, parts[0], I128_MIN, I128_MIN);
      var rest :- RemoveParts(first.pool, first.position, parts[1..]);
      Ok(Payout(rest.pool, rest.position,
                first.outA - first.hedgeA + rest.principalA, first.outB - first.hedgeB + rest.principalB,
                first.hedgeA + rest.hedgeA, first.hedgeB + rest.hedgeB))
  }

  /** The principal paid over several calls is that of the separate conversions. */
  lemma {:induction false} PartsPayPrincipal(p: Pool, pos: Position, parts: seq<int>)
    requires p.Valid() && RemoveParts(p, pos, parts).Ok?
    requires ValidTick(pos.tickLower) && ValidTick(pos.tickUpper)
    ensures var r := RemoveParts(p, pos, parts).value;
            && PrincipalOfParts(parts, SqrtAt(pos.tickLower), SqrtAt(pos.tickUpper), p.sqrtPrice)
               == Value((r.principalA, r.principalB))
            && (forall i :: 0 <= i < |parts| ==> 0 < parts[i])
    decreases |parts|
  {
    hide SqrtAt, Pool.Valid, AmountsForLiquidity, HedgeRelease, Accrue;
    if parts != [] {
      var first := RemoveFromPool(p, pos, parts[0], I128_MIN, I128_MIN).value;
      RemovalIsSound(p, pos, parts[0], I128_MIN, I128_MIN);
      PartsPayPrincipal(first.pool, first.position, parts[1..]);
    }
  }

  lemma {:induction false} PartsConserveReserve(p: Pool, pos: Position, parts: seq<int>)
    requires p.Valid() && RemoveParts(p, pos, parts).Ok?
    ensures var r := RemoveParts(p, pos, parts).value;
            && r.pool.Valid()
            && r.pool.ilReserveA + r.hedgeA == p.ilReserveA && r.pool.ilReserveB + r.hedgeB == p.ilReserveB
            && r.position.liquidity == pos.liquidity - Sum(parts)
            && (parts != [] && r.position.liquidity == 0 ==> r.pool.ilReserveA == 0 && r.pool.ilReserveB == 0)
    decreases |parts|
  {
    hide RemoveFromPool, Pool.Valid;
    if parts != [] {
      var first := RemoveFromPool(p, pos, parts[0], I128_MIN, I128_MIN).value;
      RemovalIsSound(p, pos, parts[0], I128_MIN, I128_MIN);
      PartsConserveReserve(first.pool, first.position, parts[1..]);
      if parts[1..] == [] {
        assert Sum(parts) == parts[0];
      }
    }
  }

  /** Burning a position in any number of removals at one price never returns more principal than
      burning the same liquidity in one removal; the hedge paid is exactly the drop of the reserve,
      and a complete burn leaves the reserve at zero. The single removal must not saturate. */
  lemma SplitRemovalNeverGains(p: Pool, pos: Position, parts: seq<int>)
    requires p.Valid() && RemoveParts(p, pos, parts).Ok? && pos.tickLower < pos.tickUpper
    requires RemoveFromPool(p, pos, Sum(parts), I128_MIN, I128_MIN).Ok?
    requires ValidTick(pos.tickLower) && ValidTick(pos.tickUpper)
    requires var lo, hi := SqrtAt(pos.tickLower), SqrtAt(pos.tickUpper);
             0 < ClampPrice(p.sqrtPrice, lo, hi) && Unsaturated(Sum(parts), ClampPrice(p.sqrtPrice, lo, hi), hi)
    ensures var split := RemoveParts(p, pos, parts).value;
            var whole := RemoveFromPool(p, pos, Sum(parts), I128_MIN, I128_MIN).value;
            && split.principalA <= whole.outA - whole.hedgeA
            && split.principalB <= whole.outB - whole.hedgeB
            && split.pool.ilReserveA + split.hedgeA == p.ilReserveA
            && split.pool.ilReserveB + split.hedgeB == p.ilReserveB
            && 0 <= split.pool.ilReserveA && 0 <= split.pool.ilReserveB
            && (Sum(parts) == pos.liquidity ==> split.pool.ilReserveA == 0 && split.pool.ilReserveB == 0)
  {
    hide SqrtAt, RemoveParts, AmountsForLiquidity, HedgeRelease, Accrue, Unsaturated, PrincipalOfParts, FloorTick;
    PartsPayPrincipal(p, pos, parts);
    PartsConserveReserve(p, pos, parts);
    SqrtRange(pos.tickLower);
    SqrtRange(pos.tickUpper);
    SqrtStrictlyIncreasing(pos.tickLower, pos.tickUpper);
    SplitBurnNeverGains(parts, SqrtAt(pos.tickLower), SqrtAt(pos.tickUpper), p.sqrtPrice);
  }

  /** In general the split never returns more token B, and returns more token A exactly when its removals
      together pay more than the ceiling at which the single removal saturates. */
  lemma SplitRemovalGainsIff(p: Pool, pos: Position, parts: seq<int>)
    requires p.Valid() && RemoveParts(p, pos, parts).Ok? && pos.tickLower < pos.tickUpper
    requires RemoveFromPool(p, pos, Sum(parts), I128_MIN, I128_MIN).Ok?
    requires ValidTick(pos.tickLower) && ValidTick(pos.tickUpper)
    ensures 0 < SqrtAt(pos.tickLower) < SqrtAt(pos.tickUpper)
    ensures var split := RemoveParts(p, pos, parts).value;
            var whole := RemoveFromPool(p, pos, Sum(parts), I128_MIN, I128_MIN).value;
            var lo, hi := SqrtAt(pos.tickLower), SqrtAt(pos.tickUpper);
            && split.principalB <= whole.outB - whole.hedgeB
            && (split.principalA > whole.outA - whole.hedgeA <==>
                  split.principalA > Ceiling(hi, ClampPrice(p.sqrtPrice, lo, hi)))
  {
    hide SqrtAt, RemoveParts, AmountsForLiquidity, HedgeRelease, Accrue, PrincipalOfParts, FloorTick, Ceiling;
    PartsPayPrincipal(p, pos, parts);
    SqrtRange(pos.tickLower);
    SqrtRange(pos.tickUpper);
    SqrtStrictlyIncreasing(pos.tickLower, pos.tickUpper);
    SplitBurnGainsIff(parts, SqrtAt(pos.tickLower), SqrtAt(pos.tickUpper), p.sqrtPrice);
  }
}
