/** Per-tick "fee growth outside" accounting for one token of a pool
    (Contracts/contracts/amm/src/pool.rs, Contracts/contracts/amm/src/fees.rs). */
module FeeGrowth {
  import opened Arith

  /** The global accumulator and the stored outside value of each tick; a tick that was never
      written reads as 0. */
  datatype Growth = Growth(global: int, outside: map<int, int>) {

    function Outside(tick: int): (r: int) {
      if tick in outside then outside[tick] else 0
    }

    function Below(current: int, lower: int): (r: int) {
      if current >= lower then Outside(lower) else global - Outside(lower)
    }

    function Above(current: int, upper: int): (r: int) {
      if current < upper then Outside(upper) else global - Outside(upper)
    }

    /** fee_growth_inside */
    function Inside(current: int, lower: int, upper: int): (r: int) {
      global - Below(current, lower) - Above(current, upper)
    }

    /** cross_tick: flip one tick's outside value around the global accumulator. */
    function Cross(tick: int): (g: Growth) {
      this.(outside := outside[tick := global - Outside(tick)])
    }

    /** Every stored value lies between zero and the accumulator, so no subtraction in
        fee_growth_inside or cross_tick can leave the i128 range. */
    ghost predicate Bounded() {
      && 0 <= global <= I128_MAX
      && forall t <- outside :: 0 <= outside[t] <= global
    }

    /** The accounting of a swap that ends in tick `after`: flip the boundary between the two
        ticks if they differ, then add the increment. */
    function AfterSwap(before: int, after: int, increment: int): (g: Growth) {
      var crossed := if before == after then this else Cross(Max(before, after));
      crossed.(global := global + increment)
    }
  }

  /** accumulate_fee_growth */
  function Increment(fee: int, liquidity: int): (r: Checked<int>) {
    if liquidity == 0 then Value(0)
    else
      var scaled :- Fit(fee * Q64);
      Value(Quot(scaled, liquidity))
  }

  /** Liquidity times the increment is the scaled fee, less a remainder below the liquidity. */
  lemma IncrementBelowFee(fee: int, liquidity: int)
    requires 0 <= fee && 0 <= liquidity
    requires Increment(fee, liquidity).Value?
    ensures 0 <= Increment(fee, liquidity).value
    ensures Increment(fee, liquidity).value * liquidity <= fee * Q64
    ensures 0 < liquidity ==> fee * Q64 < (Increment(fee, liquidity).value + 1) * liquidity
  {
    if liquidity != 0 {
      FloorBounds(fee * Q64, liquidity);
      FloorNonNeg(fee * Q64, liquidity);
    }
  }

  lemma BoundedKept(g: Growth, before: int, after: int, increment: int)
    requires g.Bounded() && 0 <= increment && g.global + increment <= I128_MAX
    ensures g.AfterSwap(before, after, increment).Bounded()
  {
  }

  /** In bounded accounting the inside value of any range fits an i128. */
  lemma InsideFits(g: Growth, current: int, lower: int, upper: int)
    requires g.Bounded()
    ensures 0 <= g.Below(current, lower) <= g.global && 0 <= g.Above(current, upper) <= g.global
    ensures InI128(g.global - g.Below(current, lower)) && InI128(g.Inside(current, lower, upper))
  {
  }

  /** Growth inside adjacent ranges adds up to the growth inside their union. */
  lemma InsideAdditive(g: Growth, current: int, lower: int, mid: int, upper: int)
    ensures g.Inside(current, lower, mid) + g.Inside(current, mid, upper) == g.Inside(current, lower, upper)
  {
  }

  /** A swap that moves at most one tick raises the inside growth of a range by exactly the
      increment when the range contains the tick it ends in, and leaves every other range
      exactly as it was. */
  lemma SwapRaisesInside(g: Growth, before: int, after: int, increment: int, lower: int, upper: int)
    requires -1 <= after - before <= 1 && lower < upper
    ensures g.AfterSwap(before, after, increment).Inside(after, lower, upper)
            == g.Inside(before, lower, upper) + (if lower <= after < upper then increment else 0)
  {
    var g' := g.AfterSwap(before, after, increment);
    assert g'.Below(after, lower) == g.Below(before, lower) + (if after < lower then increment else 0);
    assert g'.Above(after, upper) == g.Above(before, upper) + (if after >= upper then increment else 0);
  }
}
