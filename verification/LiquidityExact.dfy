/** Exactly when deposits and removals succeed and what they do, stated from the amounts, the liquidity and
    the reserves alone (Contracts/contracts/amm/src/lib.rs, position.rs, il_hedge.rs). */
module LiquidityExact {
  import opened Arith
  import opened Wrappers
  import opened TickMath
  import opened LiquidityMath
  import opened FeeGrowth
  import opened ILHedge
  import opened AmmPool
  import opened AmmLiquidity

  /** The part of an amount that goes to the reserve: a twentieth, once the estimated loss reaches two
      percent, nothing before. */
  function Fund(il: int, amount: int): (x: int) {
    if il <= -200 then amount / 20 else 0
  }

  lemma FundExact(il: int, amount: int)
    requires -10_000 <= il <= 0 <= amount
    ensures HedgeReserve(il, amount) == if il <= -200 && amount * 500 > I128_MAX then Panic else Value(Fund(il, amount))
    ensures 0 <= Fund(il, amount) <= amount
  {
    assert amount * 500 / 10_000 == amount / 20;
  }

  /** What a deposit is asked to do. */
  datatype Ask = Ask(lower: int, upper: int, desiredA: int, desiredB: int, minA: int, minB: int)

  /** The range is proper, something is desired, and the desired amounts buy at least one unit. */
  ghost predicate Buys(p: Pool, k: Ask, minted: int) {
    && k.lower < k.upper && ValidTick(k.lower) && ValidTick(k.upper) && (0 < k.desiredA || 0 < k.desiredB)
    && LiquidityFromAmounts(k.desiredA, k.desiredB, SqrtAt(k.lower), SqrtAt(k.upper), p.sqrtPrice) == Value(minted)
    && 0 < minted
  }

  /** The amounts meet the caller's minima, and liquidity and reserves fit. */
  ghost predicate DepositFits(p: Pool, k: Ask, minted: int, a: int, b: int, il: int) {
    var added := if k.lower <= p.currentTick < k.upper then minted else 0;
    && k.minA <= a && k.minB <= b
    && p.liquidity + added <= I128_MAX && p.activeLiquidity + added <= I128_MAX
    && (il <= -200 ==> a * 500 <= I128_MAX && b * 500 <= I128_MAX)
    && p.ilReserveA + Fund(il, a) <= I128_MAX && p.ilReserveB + Fund(il, b) <= I128_MAX
  }

  lemma NoDepositWithout(p: Pool, owner: Address, k: Ask)
    requires p.Valid() && AddToPool(p, owner, k.lower, k.upper, k.desiredA, k.desiredB, k.minA, k.minB).Ok?
    ensures ValidTick(k.lower) && ValidTick(k.upper)
    ensures var m := LiquidityFromAmounts(k.desiredA, k.desiredB, SqrtAt(k.lower), SqrtAt(k.upper), p.sqrtPrice);
            m.Value? && Buys(p, k, m.value)
  {
    hide LiquidityFromAmounts, AmountsForLiquidity, EstimateIlBps, HedgeReserve, SqrtAt, Pool.Valid;
    DepositMinted(p, owner, k);
    hide AddToPool;
    DepositIsSound(p, owner, k.lower, k.upper, k.desiredA, k.desiredB, k.minA, k.minB);
  }

  lemma DepositMinted(p: Pool, owner: Address, k: Ask)
    requires AddToPool(p, owner, k.lower, k.upper, k.desiredA, k.desiredB, k.minA, k.minB).Ok?
    ensures k.lower < k.upper && (0 < k.desiredA || 0 < k.desiredB)
  {
    hide LiquidityFromAmounts, AmountsForLiquidity, EstimateIlBps, HedgeReserve, PriceOf;
  }

  /** With affordable liquidity a deposit succeeds if and only if its minima are met and the sums fit. It then
      mints exactly that liquidity, pulls exactly its amounts, and puts a twentieth of each into the reserve
      if the estimated loss is at least two percent. */
  lemma DepositSucceedsIff(p: Pool, owner: Address, k: Ask, minted: int)
    requires p.Valid() && Buys(p, k, minted)
    ensures AmountsForLiquidity(minted, SqrtAt(k.lower), SqrtAt(k.upper), p.sqrtPrice).Value?
    ensures EstimateIlBps(k.lower, k.upper, p.sqrtPrice).Value?
    ensures var d := AddToPool(p, owner, k.lower, k.upper, k.desiredA, k.desiredB, k.minA, k.minB);
            var (a, b) := AmountsForLiquidity(minted, SqrtAt(k.lower), SqrtAt(k.upper), p.sqrtPrice).value;
            var il := EstimateIlBps(k.lower, k.upper, p.sqrtPrice).value;
            var added := if k.lower <= p.currentTick < k.upper then minted else 0;
            && (d.Ok? <==> DepositFits(p, k, minted, a, b, il))
            && (d.Ok? ==>
                  && d.value.amountA == a && d.value.amountB == b
                  && d.value.position == Position(owner, k.lower, k.upper, minted, p.InsideA(k.lower, k.upper),
                                                  p.InsideB(k.lower, k.upper), 0, 0)
                  && d.value.pool == p.(liquidity := p.liquidity + added, activeLiquidity := p.activeLiquidity + added,
                                        ilReserveA := p.ilReserveA + Fund(il, a),
                                        ilReserveB := p.ilReserveB + Fund(il, b)))
  {
    hide SqrtAt, FloorTick, LiquidityFromAmounts, AmountsForLiquidity, EstimateIlBps, HedgeReserve;
    hide Growth.Inside, Growth.Bounded, Fund;
    SqrtRange(k.lower);
    SqrtStrictlyIncreasing(k.lower, k.upper);
    SqrtRange(k.upper);
    AmountsWithinDesired(k.desiredA, k.desiredB, SqrtAt(k.lower), SqrtAt(k.upper), p.sqrtPrice);
    EstimateInRange(k.lower, k.upper, p.sqrtPrice);
    var (a, b) := AmountsForLiquidity(minted, SqrtAt(k.lower), SqrtAt(k.upper), p.sqrtPrice).value;
    var il := EstimateIlBps(k.lower, k.upper, p.sqrtPrice).value;
    FundExact(il, a);
    FundExact(il, b);
  }

  // ---------------------------------------------------------------------------------------
  // Removal

  /** The share of the reserve that a removal releases. */
  function Released(reserve: int, removed: int, total: int): (x: int)
    requires 0 < total
  {
    reserve * removed / total
  }

  /** The minima are met by the principal alone, and the products and sums fit. */
  ghost predicate RemovalFits(p: Pool, pos: Position, removed: int, minA: int, minB: int, a: int, b: int)
    requires 0 < pos.liquidity
  {
    && minA <= a && minB <= b
    && p.ilReserveA * removed <= I128_MAX && p.ilReserveB * removed <= I128_MAX
    && a + Released(p.ilReserveA, removed, pos.liquidity) <= I128_MAX
    && b + Released(p.ilReserveB, removed, pos.liquidity) <= I128_MAX
  }

  lemma ReleasedExact(reserve: int, removed: int, total: int)
    requires 0 <= reserve && 0 < removed <= total
    ensures HedgeRelease(reserve, removed, total)
            == if reserve * removed > I128_MAX then Panic else Value(Released(reserve, removed, total))
    ensures 0 <= Released(reserve, removed, total) <= reserve
  {
    MulNonNeg(reserve, removed);
    FloorNonNeg(reserve * removed, total);
    MulMono(removed, total, reserve);
    assert (reserve + 1) * total == reserve * total + total;
    FloorBelow(reserve, reserve * removed, total);
  }

  /** A removal from a position whose fees can be accrued and whose part can be converted succeeds if and
      only if the part is positive and at most the position, the principal meets both minima, and the sums
      fit. It pays principal and released reserve, and takes the part off the pool if it is in range. */
  lemma RemovalSucceedsIff(p: Pool, pos: Position, removed: int, minA: int, minB: int)
    requires p.Valid() && ValidTick(pos.tickLower) && ValidTick(pos.tickUpper) && pos.tickLower < pos.tickUpper
    requires 0 < removed <= pos.liquidity
    ensures var c := Accrue(pos, p.InsideA(pos.tickLower, pos.tickUpper), p.InsideB(pos.tickLower, pos.tickUpper));
            var amounts := AmountsForLiquidity(removed, SqrtAt(pos.tickLower), SqrtAt(pos.tickUpper), p.sqrtPrice);
            var r := RemoveFromPool(p, pos, removed, minA, minB);
            var burned := if pos.tickLower <= p.currentTick < pos.tickUpper then removed else 0;
            && (r.Ok? <==>
                  c.Value? && amounts.Value?
                  && RemovalFits(p, pos, removed, minA, minB, amounts.value.0, amounts.value.1))
            && (r.Ok? ==>
                  var hedgeA := Released(p.ilReserveA, removed, pos.liquidity);
                  var hedgeB := Released(p.ilReserveB, removed, pos.liquidity);
                  && r.value.outA == amounts.value.0 + hedgeA && r.value.outB == amounts.value.1 + hedgeB
                  && r.value.hedgeA == hedgeA && r.value.hedgeB == hedgeB
                  && r.value.position == c.value.(liquidity := pos.liquidity - removed)
                  && r.value.pool == p.(liquidity := Max(p.liquidity - burned, 0),
                                        activeLiquidity := Max(p.activeLiquidity - burned, 0),
                                        ilReserveA := p.ilReserveA - hedgeA, ilReserveB := p.ilReserveB - hedgeB))
  {
    hide SqrtAt, FloorTick, AmountsForLiquidity, HedgeRelease, Accrue, Growth.Inside, Growth.Bounded, Released;
    ReleasedExact(p.ilReserveA, removed, pos.liquidity);
    ReleasedExact(p.ilReserveB, removed, pos.liquidity);
    SqrtRange(pos.tickLower);
    SqrtRange(pos.tickUpper);
    SqrtStrictlyIncreasing(pos.tickLower, pos.tickUpper);
    if AmountsForLiquidity(removed, SqrtAt(pos.tickLower), SqrtAt(pos.tickUpper), p.sqrtPrice).Value? {
      AmountsNonNeg(removed, SqrtAt(pos.tickLower), SqrtAt(pos.tickUpper), p.sqrtPrice);
    }
  }

  lemma AmountsNonNeg(liquidity: int, lower: int, upper: int, current: int)
    requires 0 <= liquidity && 0 < lower < upper <= I128_MAX
    requires AmountsForLiquidity(liquidity, lower, upper, current).Value?
    ensures var (a, b) := AmountsForLiquidity(liquidity, lower, upper, current).value; 0 <= a && 0 <= b
  {
    var cur := ClampPrice(current, lower, upper);
    if cur < upper {
      QuotSign(liquidity, upper - cur, upper);
      QuotSign(Quot(SatMul(liquidity, upper - cur), upper), Q64, cur);
    }
    if lower < cur {
      MulNonNeg(liquidity, cur - lower);
      FloorNonNeg(liquidity * (cur - lower), Q64);
    }
  }

  // ---------------------------------------------------------------------------------------
  // Accruing

  /** What growth since the last checkpoint is worth, rounded down. */
  function Worth(liquidity: int, last: int, now: int): (x: int) {
    if last < now then liquidity * (now - last) / Q64 else 0
  }

  lemma CreditExact(liquidity: int, last: int, now: int, owed: int)
    requires 0 <= liquidity && InI128(owed)
    ensures Credit(liquidity, last, now, owed)
            == if && InI128(now - last)
                  && (last < now ==> liquidity * (now - last) <= I128_MAX)
                  && owed + Worth(liquidity, last, now) <= I128_MAX
               then Value(owed + Worth(liquidity, last, now)) else Panic
    ensures 0 <= Worth(liquidity, last, now)
  {
    if last < now {
      MulNonNeg(liquidity, now - last);
      FloorNonNeg(liquidity * (now - last), Q64);
    }
  }

  /** Accruing credits both tokens with what their growth is worth, moves both checkpoints, and leaves
      owner, range and liquidity alone. */
  lemma AccrueCredits(pos: Position, insideA: int, insideB: int)
    requires 0 <= pos.liquidity && InI128(pos.owedA) && InI128(pos.owedB) && Accrue(pos, insideA, insideB).Value?
    ensures Accrue(pos, insideA, insideB).value
            == Position(pos.owner, pos.tickLower, pos.tickUpper, pos.liquidity, insideA, insideB,
                        pos.owedA + Worth(pos.liquidity, pos.insideALast, insideA),
                        pos.owedB + Worth(pos.liquidity, pos.insideBLast, insideB))
  {
    hide Credit, Worth;
    CreditExact(pos.liquidity, pos.insideALast, insideA, pos.owedA);
    CreditExact(pos.liquidity, pos.insideBLast, insideB, pos.owedB);
  }
}
