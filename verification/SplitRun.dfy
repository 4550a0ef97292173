/** A whole life of a position in which removing it in two parts pays about two thirds more than removing
    it at once, because the single removal saturates (Contracts/contracts/amm/src/lib.rs). */
module SplitRun {
  import opened Arith
  import opened Wrappers
  import opened TickMath
  import opened LiquidityMath
  import opened SplitBurn
  import opened FeeGrowth
  import opened ILHedge
  import opened AmmPool
  import opened AmmLiquidity
  import opened FeeRun

  /** A pool as create_pool stores it, at the price of tick 0 with the 30 basis point tier. */
  const Fresh: Pool := Pool(Q64, 0, 0, 0, 30, 30, Growth(0, map[]), Growth(0, map[]), 0, 0, 0)

  const LOW: int := 17_980_523_815_641_698_304
  const HIGH: int := 18_925_053_041_275_609_088
  const DESIRED: int := 8_000_000_000_000_000_000
  const MINTED: int := 316_532_690_366_703_502_468
  const FIRST: int := 200_000_000_000_000_000_000

  /** n swaps of one unit of token A each. */
  function Sales(n: nat): (events: seq<Event>) {
    if n == 0 then [] else [Swap(true, 1, 0)] + Sales(n - 1)
  }

  /** From a tick boundary, n one-unit sales move the pool down by n ticks and change nothing else that
      a position depends on. */
  lemma {:induction false} SalesMoveDown(l: Ledger, n: nat)
    requires l.pool.Valid() && 0 < l.pool.liquidity && l.pool.sqrtPrice == SqrtAt(l.pool.currentTick)
    requires MIN_TICK <= l.pool.currentTick - n && 0 <= l.pool.totalVolume && l.pool.totalVolume + n <= I128_MAX
    ensures var r := Run(l, Sales(n));
            && r.positions == l.positions
            && r.pool.currentTick == l.pool.currentTick - n && r.pool.sqrtPrice == SqrtAt(l.pool.currentTick - n)
            && r.pool.liquidity == l.pool.liquidity
            && r.pool.ilReserveA == l.pool.ilReserveA && r.pool.ilReserveB == l.pool.ilReserveB
            && forall lower, upper :: lower < upper ==>
                 && r.pool.InsideA(lower, upper) == l.pool.InsideA(lower, upper)
                 && r.pool.InsideB(lower, upper) == l.pool.InsideB(lower, upper)
    decreases n
  {
    hide SqrtAt, Pool.Valid, Growth.Inside, SwapPool;
    if n > 0 {
      OneUnitMovesDown(l.pool);
      var next := Step(l, Swap(true, 1, 0));
      SalesMoveDown(next, n - 1);
      assert Sales(n)[0] == Swap(true, 1, 0) && Sales(n)[1..] == Sales(n - 1);
      assert Run(l, Sales(n)) == Run(next, Sales(n - 1));
    }
  }

  lemma TablePrices()
    ensures SqrtAt(-512) == LOW && SqrtAt(0) == Q64 && SqrtAt(512) == HIGH
  {
  }

  lemma FreshIsValid()
    ensures Fresh.Valid()
  {
    hide FloorTick, SqrtAt;
    TablePrices();
    TickRoundTrip(0);
  }

  /** The liquidity minted over ticks [-512, 512) at tick 0 for the desired amounts. */
  lemma MintedLiquidity()
    ensures LiquidityFromAmounts(DESIRED, DESIRED, LOW, HIGH, Q64) == Value(MINTED)
    ensures AmountsForLiquidity(MINTED, LOW, HIGH, Q64)
            == Value((7_999_999_999_999_980_199, 7_999_999_999_999_999_999))
  {
  }

  /** At the price of tick -512 all of the position is in token A, and its conversion saturates. */
  lemma SaturatedPays(l: int)
    requires FIRST <= l
    ensures AmountsForLiquidity(l, LOW, HIGH, LOW) == Value((9_223_372_036_854_776_398, 0))
  {
    assert l * (HIGH - LOW) > I128_MAX;
    assert SatMul(l, HIGH - LOW) == I128_MAX;
  }

  lemma SecondPays()
    ensures AmountsForLiquidity(MINTED - FIRST, LOW, HIGH, LOW) == Value((5_966_827_064_618_374_584, 0))
  {
    var n := 110_068_531_793_098_754_102_871_892_045_035_814_912;
    var q, a := 5_816_022_367_442_716_721, 5_966_827_064_618_374_584;
    assert (MINTED - FIRST) * (HIGH - LOW) == n;
    assert n / HIGH == q && q * Q64 / LOW == a;
    assert TokenA(MINTED - FIRST, LOW, HIGH) == Value(a);
    NoTokenBAtLower(MINTED - FIRST, LOW);
    hide TokenA, TokenB;
  }

  const Deposited: Event := AddLiquidity(1, -512, 512, DESIRED, DESIRED, 0, 0)

  lemma AfterDeposit() returns (l: Ledger)
    ensures Fresh.Valid() && l == Step(Start(Fresh, []), Deposited)
    ensures l.pool == Fresh.(liquidity := MINTED, activeLiquidity := MINTED)
    ensures l.positions == [Position(1, -512, 512, MINTED, 0, 0, 0, 0)]
  {
    hide MintQuote, Pool.Valid, Growth.Inside;
    FreshIsValid();
    FreshMint();
    NoGrowthInFresh();
    l := Step(Start(Fresh, []), Deposited);
  }

  lemma FreshMint()
    ensures MintQuote(Fresh, -512, 512, DESIRED, DESIRED, 0, 0)
            == Ok(Mint(MINTED, 7_999_999_999_999_980_199, 7_999_999_999_999_999_999, MINTED, MINTED, 0, 0))
  {
    hide SqrtAt, FloorTick, LiquidityFromAmounts, AmountsForLiquidity, EstimateIlBps;
    TablePrices();
    MintedLiquidity();
    assert MidTick(-512, 512) == 0;
    EstimateZeroAtEntry(-512, 512);
  }

  /** The position minted above, once sales have taken the pool from tick 0 to tick -512: removing it in
      two parts returns all that removing it at once returns, and 5 966 827 064 618 374 584 more. */
  lemma SaturatedSplitGains()
    ensures Fresh.Valid()
    ensures var l := Run(Start(Fresh, []), [Deposited] + Sales(512));
            && |l.positions| == 1 && l.positions[0].liquidity == MINTED
            && var split := RemoveParts(l.pool, l.positions[0], [FIRST, MINTED - FIRST]);
            var whole := RemoveFromPool(l.pool, l.positions[0], MINTED, I128_MIN, I128_MIN);
            && split.Ok? && whole.Ok?
            && split.value.principalA == whole.value.outA - whole.value.hedgeA + 5_966_827_064_618_374_584
  {
    hide SqrtAt, FloorTick, Pool.Valid, Growth.Inside, RemoveFromPool, RemoveParts, Step, AmountsForLiquidity;
    var l1 := AfterDeposit();
    TablePrices();
    SalesMoveDown(l1, 512);
    var l := Run(l1, Sales(512));
    assert ([Deposited] + Sales(512))[1..] == Sales(512);
    assert Run(Start(Fresh, []), [Deposited] + Sales(512)) == l;
    NoGrowthInFresh();
    assert l1.pool.InsideA(-512, 512) == Fresh.InsideA(-512, 512);
    assert l1.pool.InsideB(-512, 512) == Fresh.InsideB(-512, 512);
    SaturatedPays(MINTED);
    SaturatedPays(FIRST);
    SecondPays();
    var pos := l.positions[0];
    RemovalOf(l.pool, pos, MINTED);
    RemovalOf(l.pool, pos, FIRST);
    var first := RemoveFromPool(l.pool, pos, FIRST, I128_MIN, I128_MIN).value;
    RemovalOf(first.pool, first.position, MINTED - FIRST);
    TwoParts(l.pool, pos, FIRST, MINTED - FIRST);
  }

  lemma NoGrowthInFresh()
    ensures forall lower, upper :: Fresh.InsideA(lower, upper) == 0 && Fresh.InsideB(lower, upper) == 0
  {
  }

  /** Removing from a position without growth and from a pool without reserve pays the bare conversion. */
  lemma RemovalOf(p: Pool, pos: Position, removed: int)
    requires p.sqrtPrice == LOW && p.ilReserveA == 0 && p.ilReserveB == 0
    requires pos == Position(1, -512, 512, pos.liquidity, 0, 0, 0, 0) && 0 < removed <= pos.liquidity
    requires p.InsideA(-512, 512) == 0 && p.InsideB(-512, 512) == 0
    requires AmountsForLiquidity(removed, LOW, HIGH, LOW).Value?
    requires var (a, b) := AmountsForLiquidity(removed, LOW, HIGH, LOW).value; 0 <= a <= I128_MAX && 0 <= b <= I128_MAX
    ensures var r := RemoveFromPool(p, pos, removed, I128_MIN, I128_MIN);
            var (a, b) := AmountsForLiquidity(removed, LOW, HIGH, LOW).value;
            && r.Ok? && r.value.outA == a && r.value.outB == b && r.value.hedgeA == 0 && r.value.hedgeB == 0
            && r.value.position == pos.(liquidity := pos.liquidity - removed)
            && r.value.pool.sqrtPrice == LOW && r.value.pool.ilReserveA == 0 && r.value.pool.ilReserveB == 0
            && r.value.pool.InsideA(-512, 512) == 0 && r.value.pool.InsideB(-512, 512) == 0
  {
    hide SqrtAt, Growth.Inside, AmountsForLiquidity;
    TablePrices();
    assert HedgeRelease(0, removed, pos.liquidity) == Value(0);
  }

  lemma TwoParts(p: Pool, pos: Position, x: int, y: int)
    requires RemoveFromPool(p, pos, x, I128_MIN, I128_MIN).Ok?
    requires var first := RemoveFromPool(p, pos, x, I128_MIN, I128_MIN).value;
             RemoveFromPool(first.pool, first.position, y, I128_MIN, I128_MIN).Ok?
    ensures RemoveParts(p, pos, [x, y]).Ok?
    ensures var first := RemoveFromPool(p, pos, x, I128_MIN, I128_MIN).value;
            var second := RemoveFromPool(first.pool, first.position, y, I128_MIN, I128_MIN).value;
            RemoveParts(p, pos, [x, y]).value.principalA
            == first.outA - first.hedgeA + (second.outA - second.hedgeA)
  {
    hide RemoveFromPool;
    assert [x, y][1..] == [y] && [y][1..] == [];
    var first := RemoveFromPool(p, pos, x, I128_MIN, I128_MIN).value;
    var second := RemoveFromPool(first.pool, first.position, y, I128_MIN, I128_MIN).value;
    assert RemoveParts(second.pool, second.position, []).Ok?;
    assert RemoveParts(first.pool, first.position, [y]).Ok?;
  }
}
