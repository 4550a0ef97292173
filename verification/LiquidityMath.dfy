/** Converting between token amounts and liquidity (Contracts/contracts/amm/src/pool.rs).
    Token A is priced above the current price, token B below it. */
module LiquidityMath {
  import opened Arith

  function ClampPrice(current: int, lower: int, upper: int): (c: int)
    ensures lower <= upper ==> lower <= c <= upper
    ensures lower <= current <= upper ==> c == current
    ensures lower <= upper && current < lower ==> c == lower
    ensures lower <= upper && upper < current ==> c == upper
  {
    Min(Max(current, lower), upper)
  }

  /** Token A held by `liquidity` between cur and upper. */
  function TokenA(liquidity: int, cur: int, upper: int): (r: Checked<int>) {
    if upper > cur then
      var diff :- Fit(upper - cur);
      var step1 := Quot(SatMul(liquidity, diff), Max(upper, 1));
      Value(Quot(SatMul(step1, Q64), Max(cur, 1)))
    else
      Value(0)
  }

  /** Token B held by `liquidity` between lower and cur. */
  function TokenB(liquidity: int, lower: int, cur: int): (r: Checked<int>) {
    if cur > lower then
      var diff :- Fit(cur - lower);
      var product :- Fit(liquidity * diff);
      Value(Quot(product, Q64))
    else
      Value(0)
  }

  /** amounts_for_liquidity */
  function AmountsForLiquidity(liquidity: int, lower: int, upper: int, current: int): (r: Checked<(int, int)>) {
    var cur := ClampPrice(current, lower, upper);
    var a :- TokenA(liquidity, cur, upper);
    var b :- TokenB(liquidity, lower, cur);
    Value((a, b))
  }

  /** The liquidity that amount a of token A buys; unlimited when token A is not needed. */
  function LiquidityFromA(a: int, cur: int, upper: int): (r: Checked<int>) {
    if upper > cur then
      var diff :- Fit(upper - cur);
      var step1 := Quot(SatMul(a, upper), Q64);
      Value(Quot(SatMul(step1, cur), diff))
    else
      Value(I128_MAX)
  }

  function LiquidityFromB(b: int, lower: int, cur: int): (r: Checked<int>) {
    if cur > lower then
      var diff :- Fit(cur - lower);
      var product :- Fit(b * Q64);
      Value(Quot(product, Max(diff, 1)))
    else
      Value(I128_MAX)
  }

  /** liquidity_from_amounts: the smaller of the two, never negative. */
  function LiquidityFromAmounts(a: int, b: int, lower: int, upper: int, current: int): (r: Checked<int>) {
    var cur := ClampPrice(current, lower, upper);
    var fromA :- LiquidityFromA(a, cur, upper);
    var fromB :- LiquidityFromB(b, lower, cur);
    Value(Max(Min(fromA, fromB), 0))
  }

  lemma Swap3(x: int, y: int, z: int)
    ensures x * y * z == x * z * y == x * (y * z)
  {
  }

  /** Four floors chained: each hypothesis is one floor, the conclusion cancels the prices. */
  lemma ChainedFloors(x: int, cur: int, q: int, u: int, s: int, a: int)
    requires 0 < cur && 0 < u
    requires x * cur <= q * Q64 && q * u <= s * cur && s * Q64 <= a * u
    ensures x <= a
  {
    MulMono(x * cur, q * Q64, u);
    MulMono(s * Q64, a * u, cur);
    Swap3(x, cur, u);
    Swap3(a, u, cur);
    Swap3(q, Q64, u);
    Swap3(s, cur, Q64);
    CancelFactor(x, a, cur * u);
  }

  lemma CancelFactor(x: int, a: int, k: int)
    requires 0 < k && x * k <= a * k
    ensures x <= a
  {
    if x > a {
      MulMono(a + 1, x, k);
    }
  }

  /** Token A pulled for at most the liquidity that `a` buys never exceeds `a`, even where the
      intermediate products saturate. */
  lemma TokenAWithin(a: int, liquidity: int, cur: int, upper: int)
    requires 0 <= a && 0 < cur < upper && 0 <= liquidity
    requires LiquidityFromA(a, cur, upper).Value?
    requires liquidity <= LiquidityFromA(a, cur, upper).value
    ensures TokenA(liquidity, cur, upper).Value?
    ensures 0 <= TokenA(liquidity, cur, upper).value <= a
  {
    var diff := upper - cur;
    MulNonNeg(a, upper);
    var p1 := SatMul(a, upper);
    var s := p1 / Q64;
    FloorBounds(p1, Q64);
    MulNonNeg(s, cur);
    var n := SatMul(s, cur);
    FloorBounds(n, diff);
    MulMono(liquidity, n / diff, diff);
    MulNonNeg(liquidity, diff);
    var k := liquidity * diff;
    var q := k / upper;
    FloorBounds(k, upper);
    FloorNonNeg(k, upper);
    var m := SatMul(q, Q64);
    FloorBounds(m, cur);
    ChainedFloors(m / cur, cur, q, upper, s, a);
  }

  lemma TokenBWithin(b: int, liquidity: int, lower: int, cur: int)
    requires 0 <= b && lower < cur && 0 <= liquidity
    requires LiquidityFromB(b, lower, cur).Value?
    requires liquidity <= LiquidityFromB(b, lower, cur).value
    ensures TokenB(liquidity, lower, cur).Value?
    ensures 0 <= TokenB(liquidity, lower, cur).value <= b
  {
    var diff := cur - lower;
    FloorBounds(b * Q64, diff);
    MulMono(liquidity, b * Q64 / diff, diff);
    MulNonNeg(liquidity, diff);
    FloorBounds(liquidity * diff, Q64);
  }

  /** Whatever the desired amounts, adding the computed liquidity cannot abort in the amount
      computation and pulls no more than was offered of either token; a token offered with a
      negative amount is not pulled at all. */
  lemma AmountsWithinDesired(a: int, b: int, lower: int, upper: int, current: int)
    requires 0 < lower < upper
    requires LiquidityFromAmounts(a, b, lower, upper, current).Value?
    ensures var l := LiquidityFromAmounts(a, b, lower, upper, current).value;
            var r := AmountsForLiquidity(l, lower, upper, current);
            0 <= l && r.Value? && 0 <= r.value.0 <= Max(a, 0) && 0 <= r.value.1 <= Max(b, 0)
  {
    hide TokenA, TokenB, LiquidityFromA, LiquidityFromB, ClampPrice;
    var cur := ClampPrice(current, lower, upper);
    var l := LiquidityFromAmounts(a, b, lower, upper, current).value;
    FromSigns(a, b, lower, cur, upper);
    NothingForNothing(lower, cur, upper);
    if cur == upper {
      NoTokenAAtUpper(l, upper);
    } else if 0 <= a {
      TokenAWithin(a, l, cur, upper);
    }
    if cur == lower {
      NoTokenBAtLower(l, lower);
    } else if 0 <= b {
      TokenBWithin(b, l, lower, cur);
    }
  }

  /** Where a token is needed, the liquidity it buys has the sign of the amount. */
  lemma FromSigns(a: int, b: int, lower: int, cur: int, upper: int)
    requires 0 < lower <= cur <= upper
    ensures cur < upper && LiquidityFromA(a, cur, upper).Value? ==>
              if 0 <= a then 0 <= LiquidityFromA(a, cur, upper).value else LiquidityFromA(a, cur, upper).value <= 0
    ensures lower < cur && LiquidityFromB(b, lower, cur).Value? ==>
              if 0 <= b then 0 <= LiquidityFromB(b, lower, cur).value else LiquidityFromB(b, lower, cur).value <= 0
    ensures cur < upper && LiquidityFromA(a, cur, upper).Value? ==> TokenA(0, cur, upper).Value?
    ensures lower < cur && LiquidityFromB(b, lower, cur).Value? ==> TokenB(0, lower, cur).Value?
  {
    if cur < upper {
      QuotSign(a, upper, Q64);
      QuotSign(Quot(SatMul(a, upper), Q64), cur, upper - cur);
    }
    if lower < cur && 0 <= b {
      FloorNonNeg(b * Q64, cur - lower);
    } else if lower < cur {
      FloorNonNeg(-(b * Q64), cur - lower);
    }
  }

  lemma QuotSign(x: int, y: int, d: int)
    requires 0 < y && 0 < d
    ensures 0 <= x ==> 0 <= Quot(SatMul(x, y), d)
    ensures x <= 0 ==> Quot(SatMul(x, y), d) <= 0
  {
    if 0 <= x {
      MulNonNeg(x, y);
      FloorNonNeg(SatMul(x, y), d);
    } else {
      MulNonNeg(-x, y);
      assert x * y == -(-x * y);
      FloorNonNeg(-SatMul(x, y), d);
    }
  }

  lemma NoTokenAAtUpper(l: int, upper: int)
    ensures TokenA(l, upper, upper) == Value(0)
  {
  }

  lemma NoTokenBAtLower(l: int, lower: int)
    ensures TokenB(l, lower, lower) == Value(0)
  {
  }

  lemma NothingForNothing(lower: int, cur: int, upper: int)
    ensures TokenA(0, cur, upper).Value? ==> TokenA(0, cur, upper).value == 0
    ensures TokenB(0, lower, cur).Value? ==> TokenB(0, lower, cur).value == 0
  {
    assert forall d :: 0 < d ==> Quot(0, d) == 0;
  }

  lemma InnerFloors(cur: int, u: int, q: int, l: int, s: int)
    requires s * cur < (l + 1) * (u - cur) && l * (u - cur) < (q + 1) * u
    ensures (s + 1) * cur <= (q + 2) * u
  {
    Distribute(u - cur, l, 1);
    Distribute(cur, s, 1);
    Distribute(u, q + 1, 1);
  }

  lemma OuterFloors(a: int, u: int, cur: int, m: int, n: int)
    requires 0 < u && 0 < cur && a * u < m * Q64 && m * cur <= n * u
    ensures a * cur < n * Q64
  {
    MulMono(a * u + 1, m * Q64, cur);
    Distribute(cur, a * u, 1);
    MulMono(m * cur, n * u, Q64);
    Swap3(m, Q64, cur);
    Swap3(n, u, Q64);
    Swap3(a, u, cur);
    if n * Q64 <= a * cur {
      MulMono(n * Q64, a * cur, u);
    }
  }

  /** What four chained floors lose together, at any price. */
  lemma ChainedFloorsTight(a: int, x: int, cur: int, q: int, u: int, l: int, s: int)
    requires 0 < cur < u
    requires a * u < s * Q64 + Q64 && s * cur < l * (u - cur) + (u - cur)
    requires l * (u - cur) < q * u + u && q * Q64 < x * cur + cur
    ensures (a - x - 1) * cur < 2 * Q64
  {
    Distribute(u - cur, l, 1);
    Distribute(u, q, 1);
    Distribute(cur, x, 1);
    InnerFloors(cur, u, q, l, s);
    OuterFloors(a, u, cur, s + 1, q + 2);
    Distribute(cur, a, -(x + 1));
  }

  /** Every amount of token A either buys the most liquidity that any amount can buy, because a product
      clamps, or all of it is used but a rest worth less than two units of 2^64 at the price, which is
      at most four units at table prices. */
  lemma TokenANearlyAll(a: int, cur: int, upper: int)
    requires 0 <= a <= I128_MAX && 0 < cur < upper <= I128_MAX
    ensures LiquidityFromA(a, cur, upper).Value?
    ensures var l := LiquidityFromA(a, cur, upper).value;
            && 0 <= l && TokenA(l, cur, upper).Value?
            && (|| l == LiquidityFromA(I128_MAX, cur, upper).value
                || (a - TokenA(l, cur, upper).value - 1) * cur < 2 * Q64)
  {
    var d := upper - cur;
    MulNonNeg(a, upper);
    var s := a * upper / Q64;
    FloorNonNeg(a * upper, Q64);
    MulNonNeg(s, cur);
    if a * upper <= I128_MAX && s * cur <= I128_MAX {
      UnclampedNearlyAll(a, cur, upper, s);
    } else {
      ClampedLiquidity(a, cur, upper, s);
    }
  }

  lemma UnclampedNearlyAll(a: int, cur: int, upper: int, s: int)
    requires 0 <= a && 0 < cur < upper <= I128_MAX && 0 <= a * upper <= I128_MAX
    requires s == a * upper / Q64 && 0 <= s * cur <= I128_MAX && 0 <= s
    ensures LiquidityFromA(a, cur, upper) == Value(s * cur / (upper - cur))
    ensures var l := s * cur / (upper - cur);
            0 <= l && TokenA(l, cur, upper).Value? && (a - TokenA(l, cur, upper).value - 1) * cur < 2 * Q64
  {
    var d := upper - cur;
    FloorBounds(a * upper, Q64);
    var l := s * cur / d;
    FloorBounds(s * cur, d);
    FloorNonNeg(s * cur, d);
    assert LiquidityFromA(a, cur, upper) == Value(l);
    BoughtUnsaturated(a, cur, upper, s, l);
    TokenAExact(l, cur, upper);
    var q := l * d / upper;
    FloorBounds(l * d, upper);
    FloorBounds(q * Q64, cur);
    ChainedFloorsTight(a, q * Q64 / cur, cur, q, upper, l, s);
  }

  /** Liquidity bought without a clamp is converted back without one. */
  lemma BoughtUnsaturated(a: int, cur: int, upper: int, s: int, l: int)
    requires 0 < cur < upper && 0 <= a && a * upper <= I128_MAX && s * Q64 <= a * upper
    requires 0 <= l && l * (upper - cur) <= s * cur <= I128_MAX
    ensures Unsaturated(l, cur, upper)
  {
    var q := l * (upper - cur) / upper;
    FloorBounds(l * (upper - cur), upper);
    assert q * upper <= s * cur;
    if q * Q64 > a * cur {
      MulMono(a * cur + 1, q * Q64, upper);
      MulMono(q * upper, s * cur, Q64);
      MulMono(s * Q64, a * upper, cur);
      Swap3(q, Q64, upper);
      Swap3(s, cur, Q64);
      Swap3(a, cur, upper);
    }
    MulMono(cur, upper, a);
  }

  lemma ClampedLiquidity(a: int, cur: int, upper: int, s: int)
    requires 0 <= a <= I128_MAX && 0 < cur < upper <= I128_MAX && s == a * upper / Q64 && 0 <= s
    requires a * upper > I128_MAX || s * cur > I128_MAX
    ensures LiquidityFromA(a, cur, upper) == LiquidityFromA(I128_MAX, cur, upper)
    ensures LiquidityFromA(a, cur, upper).Value? && 0 <= LiquidityFromA(a, cur, upper).value
    ensures TokenA(LiquidityFromA(a, cur, upper).value, cur, upper).Value?
  {
    var most := I128_MAX / Q64;
    MulMono(a, I128_MAX, upper);
    MulMono(1, upper, I128_MAX);
    MulNonNeg(a, upper);
    assert Quot(SatMul(I128_MAX, upper), Q64) == most;
    MulNonNeg(most, cur);
    if a * upper <= I128_MAX {
      FloorMono(a * upper, I128_MAX, Q64);
      MulMono(s, most, cur);
      MulNonNeg(s, cur);
    }
    FloorNonNeg(SatMul(most, cur), upper - cur);
    FloorNonNeg(I128_MAX, upper - cur);
  }

  /** A binding token B is used up but a rest worth less than the price range: at most one unit where the
      range is narrower than 2^64, as between any two table prices. */
  lemma TokenBNearlyAll(b: int, lower: int, cur: int)
    requires 0 <= b && lower < cur && LiquidityFromB(b, lower, cur).Value?
    ensures var l := LiquidityFromB(b, lower, cur).value;
            TokenB(l, lower, cur).Value? && (b - TokenB(l, lower, cur).value - 1) * Q64 < cur - lower
  {
    var d := cur - lower;
    FloorBounds(b * Q64, d);
    FloorNonNeg(b * Q64, d);
    var l := b * Q64 / d;
    MulNonNeg(l, d);
    FloorBounds(l * d, Q64);
  }

  /** The computed liquidity is not only affordable but the most that is: one of the tokens that the price
      calls for is used up, but for its rest, or buys no more liquidity in any amount. */
  lemma AmountsNearlyAll(a: int, b: int, lower: int, upper: int, current: int)
    requires 0 <= a <= I128_MAX && 0 <= b <= I128_MAX && 0 < lower < upper <= I128_MAX
    requires LiquidityFromAmounts(a, b, lower, upper, current).Value?
    ensures var l := LiquidityFromAmounts(a, b, lower, upper, current).value;
            var cur := ClampPrice(current, lower, upper);
            || (&& cur < upper && TokenA(l, cur, upper).Value?
                && (|| l == LiquidityFromA(I128_MAX, cur, upper).value
                    || (a - TokenA(l, cur, upper).value - 1) * cur < 2 * Q64))
            || (&& lower < cur && TokenB(l, lower, cur).Value?
                && (b - TokenB(l, lower, cur).value - 1) * Q64 < cur - lower)
  {
    hide TokenA, TokenB;
    var cur := ClampPrice(current, lower, upper);
    FromSigns(a, b, lower, cur, upper);
    var fromA, fromB := LiquidityFromA(a, cur, upper).value, LiquidityFromB(b, lower, cur).value;
    if cur < upper && (fromA <= fromB || cur == lower) {
      TokenANearlyAll(a, cur, upper);
      LiquidityFits(a, cur, upper);
    } else {
      TokenBNearlyAll(b, lower, cur);
    }
  }

  /** No liquidity exceeds the number range that stands for unlimited. */
  lemma LiquidityFits(a: int, cur: int, upper: int)
    requires 0 <= a <= I128_MAX && 0 < cur < upper <= I128_MAX
    ensures LiquidityFromA(a, cur, upper).Value? && LiquidityFromA(a, cur, upper).value <= I128_MAX
  {
    MulNonNeg(a, upper);
    var s := SatMul(a, upper) / Q64;
    FloorNonNeg(SatMul(a, upper), Q64);
    MulNonNeg(s, cur);
    var n := SatMul(s, cur);
    FloorBounds(n, upper - cur);
    FloorNonNeg(n, upper - cur);
    MulMono(1, upper - cur, n / (upper - cur));
  }

  // ---------------------------------------------------------------------------------------
  // Saturation

  /** Neither product of the token-A conversion saturates. */
  predicate Unsaturated(liquidity: int, cur: int, upper: int)
    requires 0 < cur
  {
    upper > cur ==>
      liquidity * (upper - cur) <= I128_MAX && liquidity * (upper - cur) / upper * Q64 <= I128_MAX
  }

  /** Unsaturated, token A is two nested floors. */
  lemma TokenAExact(l: int, cur: int, upper: int)
    requires 0 <= l && 0 < cur < upper <= I128_MAX
    requires Unsaturated(l, cur, upper)
    ensures TokenA(l, cur, upper) == Value(ExactA(l, cur, upper))
  {
    MulNonNeg(l, upper - cur);
    FloorNonNeg(l * (upper - cur), upper);
  }

  /** Token A of an unlimited number range: two nested floors. */
  function ExactA(l: int, cur: int, upper: int): (r: int)
    requires 0 < cur && 0 < upper
  {
    l * (upper - cur) / upper * Q64 / cur
  }

  /** The most that n / u * 2^64 / c can come to once both products are clamped. */
  function Ceiling(u: int, c: int): (r: int)
    requires 0 < u && 0 < c
  {
    Min(I128_MAX / u * Q64, I128_MAX) / c
  }

  /** Clamping both products is the same as clamping the result. */
  lemma ClampedFloors(n: int, u: int, c: int)
    requires 0 <= n && 0 < u && 0 < c
    ensures Quot(SatMul(Quot(Clamp(n), u), Q64), c) == Min(n / u * Q64 / c, Ceiling(u, c))
    ensures (n > I128_MAX || n / u * Q64 > I128_MAX) ==> Quot(SatMul(Quot(Clamp(n), u), Q64), c) == Ceiling(u, c)
  {
    var q, most := n / u, I128_MAX / u;
    FloorNonNeg(n, u);
    FloorNonNeg(I128_MAX, u);
    if n <= I128_MAX {
      FloorMono(n, I128_MAX, u);
      if q * Q64 <= I128_MAX {
        FloorMono(q * Q64, Min(most * Q64, I128_MAX), c);
      } else {
        FloorMono(I128_MAX, q * Q64, c);
      }
    } else {
      FloorMono(I128_MAX, n, u);
      FloorMono(Min(most * Q64, I128_MAX), q * Q64, c);
    }
  }

  /** For every liquidity, token A is its exact value, or the ceiling of the two prices if that is less;
      it is the ceiling whenever a product saturates. */
  lemma TokenAClamped(l: int, cur: int, upper: int)
    requires 0 <= l && 0 < cur < upper <= I128_MAX
    ensures TokenA(l, cur, upper) == Value(Min(ExactA(l, cur, upper), Ceiling(upper, cur)))
    ensures !Unsaturated(l, cur, upper) ==> TokenA(l, cur, upper) == Value(Ceiling(upper, cur))
  {
    MulNonNeg(l, upper - cur);
    ClampedFloors(l * (upper - cur), upper, cur);
  }
}
