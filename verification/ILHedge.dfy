/** Impermanent-loss estimate and the hedge reserve (Contracts/contracts/amm/src/il_hedge.rs). */
module ILHedge {
  import opened Arith
  import opened Wrappers
  import opened TickMath
  import opened LiquidityMath
  import opened SplitBurn

  const SCALE: int := 1_000_000
  const HEDGE_THRESHOLD_BPS: int := 200
  const HEDGE_RATIO_BPS: int := 500

  /** The estimate as a function of the scaled square-root price ratio. */
  function IlOfRatio(sqrtR: int): (r: Checked<int>) {
    var ratio := Quot(SatMul(sqrtR, sqrtR), SCALE);
    var numerator :- Fit(2 * sqrtR);
    var denominator :- Fit(SCALE + ratio);
    var scaled :- Fit(Quot(SatMul(numerator, SCALE), Max(denominator, 1)) - SCALE);
    var bps :- Fit(scaled * 10_000);
    Value(Quot(bps, SCALE))
  }

  function MidTick(lower: int, upper: int): (t: int) {
    Quot(lower + upper, 2)
  }

  /** The middle of the range, rounded toward tick zero. */
  lemma MidTickIsMiddle(lower: int, upper: int)
    requires lower <= upper
    ensures lower <= MidTick(lower, upper) <= upper
    ensures -1 <= lower + upper - 2 * MidTick(lower, upper) <= 1
    ensures Abs(2 * MidTick(lower, upper)) <= Abs(lower + upper)
  {
  }

  /** estimate_il_bps for a position over [lower, upper) at the given pool price. */
  function EstimateIlBps(lower: int, upper: int, sqrtPrice: int): (r: Checked<int>) {
    var entry := TickToSqrtPrice(MidTick(lower, upper));
    if entry.None? || entry.value == 0 then Value(0)
    else IlOfRatio(Quot(SatMul(sqrtPrice, SCALE), entry.value))
  }

  /** The integer form of 2x <= 1 + x^2, through the floor of x^2 and the clamp of the product:
      the quotient never exceeds the scale. */
  lemma QuotientAtMostScale(s: int)
    requires 0 <= s <= I128_MAX / 2
    ensures var den := SCALE + SatMul(s, s) / SCALE;
            0 < den && 0 <= SatMul(2 * s, SCALE) / den <= SCALE
  {
    MulNonNeg(s, s);
    var square := SatMul(s, s);
    FloorBounds(square, SCALE);
    FloorNonNeg(square, SCALE);
    var den := SCALE + square / SCALE;
    var n := SatMul(2 * s, SCALE);
    assert n < (SCALE + 1) * den by {
      MulNonNegSquare(s - SCALE);
      assert (s - SCALE) * (s - SCALE) == s * s - 2 * s * SCALE + SCALE * SCALE;
      assert n <= square + SCALE * SCALE;
    }
    FloorBelow(SCALE, n, den);
    FloorNonNeg(n, den);
  }

  /** The estimate never aborts and lies in [-10000, 0] basis points. */
  lemma IlOfRatioInRange(s: int)
    requires 0 <= s <= I128_MAX / 2
    ensures IlOfRatio(s).Value? && -10_000 <= IlOfRatio(s).value <= 0
  {
    MulNonNeg(s, s);
    QuotientAtMostScale(s);
    var den := SCALE + SatMul(s, s) / SCALE;
    var q := SatMul(2 * s, SCALE) / den;
    assert IlOfRatio(s) == Value(Quot((q - SCALE) * 10_000, SCALE));
  }

  /** For every tick range and every price the estimated loss lies in [-10000, 0] basis points. */
  lemma EstimateInRange(lower: int, upper: int, sqrtPrice: int)
    requires 0 <= sqrtPrice <= I128_MAX
    ensures EstimateIlBps(lower, upper, sqrtPrice).Value?
    ensures -10_000 <= EstimateIlBps(lower, upper, sqrtPrice).value <= 0
  {
    hide IlOfRatio, SqrtAt;
    var mid := MidTick(lower, upper);
    if ValidTick(mid) {
      SqrtRange(mid);
      var n, entry := SatMul(sqrtPrice, SCALE), SqrtAt(mid);
      FloorNonNeg(n, entry);
      FloorBounds(n, entry);
      MulMono(2, entry, n / entry);
      IlOfRatioInRange(n / entry);
    }
  }

  /** The loss is zero when the price is the position's mid-tick price. */
  lemma EstimateZeroAtEntry(lower: int, upper: int)
    requires ValidTick(MidTick(lower, upper))
    ensures EstimateIlBps(lower, upper, SqrtAt(MidTick(lower, upper))) == Value(0)
  {
    hide SqrtAt;
    SqrtRange(MidTick(lower, upper));
    var entry := SqrtAt(MidTick(lower, upper));
    assert SatMul(entry, SCALE) == SCALE * entry;
    ExactDivision(SCALE, entry);
    assert IlOfRatio(SCALE) == Value(0);
  }

  /** An estimate of `loss` basis points is less than one above and less than two below the exact loss
      (s - SCALE)^2 / (SCALE^2 + s^2) at ratio s. */
  ghost predicate Tracks(loss: int, s: int) {
    var all := SCALE * SCALE + s * s;
    (loss - 1) * all < 10_000 * (s - SCALE) * (s - SCALE) < (loss + 2) * all
  }

  /** For every tick range and every price the estimate is that close to the exact loss at the scaled
      ratio of the price to the position's mid-tick price. */
  lemma EstimateTracksLoss(lower: int, upper: int, sqrtPrice: int)
    requires 0 <= sqrtPrice <= I128_MAX && ValidTick(MidTick(lower, upper))
    ensures 0 < SqrtAt(MidTick(lower, upper))
    ensures EstimateIlBps(lower, upper, sqrtPrice).Value?
    ensures Tracks(-EstimateIlBps(lower, upper, sqrtPrice).value,
                   Min(sqrtPrice * SCALE, I128_MAX) / SqrtAt(MidTick(lower, upper)))
  {
    hide IlOfRatio, SqrtAt, Tracks;
    var mid := MidTick(lower, upper);
    SqrtRange(mid);
    var n, entry := SatMul(sqrtPrice, SCALE), SqrtAt(mid);
    FloorNonNeg(n, entry);
    FloorBounds(n, entry);
    MulMono(MIN_SQRT, entry, n / entry);
    RatioTracksLoss(n / entry);
  }

  lemma RatioTracksLoss(s: int)
    requires 0 <= s && s * MIN_SQRT <= I128_MAX
    ensures IlOfRatio(s).Value? && Tracks(-IlOfRatio(s).value, s)
  {
    if s * s <= I128_MAX {
      UnsaturatedLoss(s);
    } else {
      SaturatedLoss(s);
    }
    hide IlOfRatio, Tracks;
  }

  /** Where the square saturates the quotient is zero and the estimate is total loss, which is right. */
  lemma SaturatedLoss(s: int)
    requires 0 <= s && s * MIN_SQRT <= I128_MAX && s * s > I128_MAX
    ensures IlOfRatio(s) == Value(-10_000) && Tracks(10_000, s)
  {
    assert 20_000 * SCALE < s by {
      if s <= 20_000 * SCALE {
        MulMono(s, 20_000 * SCALE, s);
        MulMono(s, 20_000 * SCALE, 20_000 * SCALE);
      }
    }
    assert Quot(SatMul(s, s), SCALE) == I128_MAX / SCALE;
    assert Quot(SatMul(2 * s, SCALE), SCALE + I128_MAX / SCALE) == 0;
    hide IlOfRatio;
    MulMono(20_000 * SCALE + 1, s, s);
  }

  lemma UnsaturatedLoss(s: int)
    requires 0 <= s && s * s <= I128_MAX && s * MIN_SQRT <= I128_MAX
    ensures IlOfRatio(s).Value? && Tracks(-IlOfRatio(s).value, s)
  {
    hide IlOfRatio;
    var den, q, loss := LossFloors(s);
    var all, square := SCALE * SCALE + s * s, (s - SCALE) * (s - SCALE);
    FractionBounds(2 * s, all, square, den, q);
    MulNonNegSquare(s);
    BasisPointBounds(all, square, q, loss);
    Swap3(10_000, s - SCALE, s - SCALE);
  }

  /** The estimate is three floors: of the square, of the quotient, of the scaling to basis points. */
  lemma LossFloors(s: int) returns (den: int, q: int, loss: int)
    requires 0 <= s && s * s <= I128_MAX && 2 * s * SCALE <= I128_MAX
    ensures IlOfRatio(s) == Value(-loss) && 0 <= q <= SCALE
    ensures SCALE * SCALE + s * s - SCALE < den * SCALE <= SCALE * SCALE + s * s
    ensures q * den <= 2 * s * SCALE < q * den + den
    ensures loss * SCALE <= (SCALE - q) * 10_000 < loss * SCALE + SCALE
  {
    MulNonNeg(s, s);
    QuotientAtMostScale(s);
    den := SCALE + s * s / SCALE;
    q := 2 * s * SCALE / den;
    loss := (SCALE - q) * 10_000 / SCALE;
    assert IlOfRatio(s) == Value(Quot((q - SCALE) * 10_000, SCALE));
    FloorBounds(s * s, SCALE);
    FloorBounds(2 * s * SCALE, den);
    FloorBounds((SCALE - q) * 10_000, SCALE);
  }

  /** The floored quotient against the exact fraction 1 - square / all. */
  lemma FractionBounds(x: int, all: int, square: int, den: int, q: int)
    requires 0 <= q && square == all - x * SCALE
    requires all - SCALE < den * SCALE <= all
    requires q * den <= x * SCALE < q * den + den
    ensures (SCALE - q - 1) * all < SCALE * square <= (SCALE - q) * all + q * SCALE
  {
    MulMono(den * SCALE, all, q + 1);
    MulMono(all - SCALE, den * SCALE, q);
    Distribute(all, q, 1);
  }

  lemma BasisPointBounds(all: int, square: int, q: int, loss: int)
    requires 0 <= q <= SCALE && SCALE * SCALE <= all
    requires (SCALE - q - 1) * all < SCALE * square <= (SCALE - q) * all + q * SCALE
    requires loss * SCALE <= (SCALE - q) * 10_000 < loss * SCALE + SCALE
    ensures (loss - 1) * all < 10_000 * square < (loss + 2) * all
  {
    var la, qa := loss * all, q * all;
    assert SCALE * la <= 10_000 * (SCALE * all - qa) by {
      MulMono(loss * SCALE, (SCALE - q) * 10_000, all);
    }
    assert 10_000 * (SCALE * all - qa) + all <= SCALE * la + SCALE * all by {
      MulMono((SCALE - q) * 10_000 + 1, loss * SCALE + SCALE, all);
    }
    ScaledBounds(all, square, q, la, qa);
  }

  lemma ScaledBounds(all: int, square: int, q: int, la: int, qa: int)
    requires 0 <= q <= SCALE && SCALE * SCALE <= all
    requires SCALE * all - qa - all < SCALE * square <= SCALE * all - qa + q * SCALE
    requires SCALE * la <= 10_000 * (SCALE * all - qa)
    requires 10_000 * (SCALE * all - qa) + all <= SCALE * la + SCALE * all
    ensures la - all < 10_000 * square < la + 2 * all
  {
  }

  // ---------------------------------------------------------------------------------------
  // Reserve

  /** compute_hedge_reserve for one token. */
  function HedgeReserve(ilBps: int, amount: int): (r: Checked<int>) {
    if Abs(ilBps) < HEDGE_THRESHOLD_BPS then Value(0)
    else
      var product :- Fit(amount * HEDGE_RATIO_BPS);
      Value(Quot(product, 10_000))
  }

  /** At the entry price no reserve is taken; otherwise at most a twentieth of the amount. */
  lemma ReserveTaken(lower: int, upper: int, sqrtPrice: int, amount: int)
    requires 0 < sqrtPrice <= I128_MAX && 0 <= amount
    requires EstimateIlBps(lower, upper, sqrtPrice).Value?
    ensures var r := HedgeReserve(EstimateIlBps(lower, upper, sqrtPrice).value, amount);
            && (r.Value? ==> 0 <= r.value && r.value * 20 <= amount)
            && (r.Value? && EstimateIlBps(lower, upper, sqrtPrice).value <= -HEDGE_THRESHOLD_BPS ==>
                  amount < (r.value + 1) * 20)
            && (ValidTick(MidTick(lower, upper)) && sqrtPrice == SqrtAt(MidTick(lower, upper)) ==> r == Value(0))
  {
    hide SqrtAt, EstimateIlBps;
    if ValidTick(MidTick(lower, upper)) && sqrtPrice == SqrtAt(MidTick(lower, upper)) {
      EstimateZeroAtEntry(lower, upper);
    }
  }

  /** compute_hedge_release for one token. */
  function HedgeRelease(reserve: int, removed: int, total: int): (r: Checked<int>) {
    if total == 0 then Value(0)
    else
      var product :- Fit(reserve * removed);
      Value(Quot(product, Max(total, 1)))
  }

  /** A release is never more than the reserve, so the clamp after it never fires; burning all of
      the position's liquidity releases the whole reserve. */
  lemma ReleaseWithinReserve(reserve: int, removed: int, total: int)
    requires 0 <= reserve && 0 < removed <= total
    requires HedgeRelease(reserve, removed, total).Value?
    ensures 0 <= HedgeRelease(reserve, removed, total).value <= reserve
    ensures removed == total ==> HedgeRelease(reserve, removed, total).value == reserve
    ensures var h := HedgeRelease(reserve, removed, total).value;
            h * total <= reserve * removed < (h + 1) * total
  {
    MulNonNeg(reserve, removed);
    FloorBounds(reserve * removed, total);
    FloorNonNeg(reserve * removed, total);
    MulMono(removed, total, reserve);
    assert (reserve + 1) * total == reserve * total + total;
    FloorBelow(reserve, reserve * removed, total);
    if removed == total {
      ExactDivision(reserve, total);
    }
  }

  datatype Burned = Burned(released: int, reserve: int, liquidity: int)

  /** Burning the parts of a position one after another, each releasing its share of the reserve
      that is left, clamped at zero as the code does. */
  function BurnParts(reserve: int, liquidity: int, parts: seq<int>): (r: Checked<Burned>)
    decreases |parts|
  {
    if parts == [] then Value(Burned(0, reserve, liquidity))
    else
      var h :- HedgeRelease(reserve, parts[0], liquidity);
      var rest :- BurnParts(Max(reserve - h, 0), liquidity - parts[0], parts[1..]);
      Value(rest.(released := h + rest.released))
  }

  /** Over any sequence of partial removals what is released is exactly what leaves the reserve,
      the reserve never goes negative, and a complete burn leaves it at zero. */
  lemma {:induction false} BurnConservesReserve(reserve: int, liquidity: int, parts: seq<int>)
    requires 0 <= reserve
    requires forall i :: 0 <= i < |parts| ==> 0 < parts[i]
    requires Sum(parts) <= liquidity
    requires BurnParts(reserve, liquidity, parts).Value?
    ensures var r := BurnParts(reserve, liquidity, parts).value;
            && r.released + r.reserve == reserve
            && 0 <= r.reserve && 0 <= r.released
            && r.liquidity == liquidity - Sum(parts)
            && (parts != [] && Sum(parts) == liquidity ==> r.reserve == 0)
    decreases |parts|
  {
    if parts != [] {
      SumNonNeg(parts[1..]);
      ReleaseWithinReserve(reserve, parts[0], liquidity);
      var h := HedgeRelease(reserve, parts[0], liquidity).value;
      BurnConservesReserve(reserve - h, liquidity - parts[0], parts[1..]);
      if Sum(parts) == liquidity && parts[1..] == [] {
        assert parts[0] == liquidity;
      }
    }
  }
}
