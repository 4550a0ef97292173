/** Burning liquidity in several parts against burning it at once
    (Contracts/contracts/amm/src/pool.rs, amounts_for_liquidity). */
module SplitBurn {
  import opened Arith
  import opened LiquidityMath

  lemma ExactASuper(x: int, y: int, cur: int, upper: int)
    requires 0 < cur && 0 < upper
    ensures ExactA(x, cur, upper) + ExactA(y, cur, upper) <= ExactA(x + y, cur, upper)
  {
    var d := upper - cur;
    assert x * d + y * d == (x + y) * d;
    FloorSuper(x * d, y * d, upper);
    var qx, qy, q := x * d / upper, y * d / upper, (x + y) * d / upper;
    FloorSuper(qx * Q64, qy * Q64, cur);
    FloorMono((qx + qy) * Q64, q * Q64, cur);
  }

  lemma TokenBSuper(x: int, y: int, lower: int, cur: int)
    requires 0 <= x && 0 <= y && lower <= cur
    requires TokenB(x + y, lower, cur).Value?
    ensures TokenB(x, lower, cur).Value? && TokenB(y, lower, cur).Value?
    ensures TokenB(x, lower, cur).value + TokenB(y, lower, cur).value <= TokenB(x + y, lower, cur).value
  {
    if lower < cur {
      var d := cur - lower;
      assert x * d + y * d == (x + y) * d;
      MulNonNeg(x, d);
      MulNonNeg(y, d);
      FloorSuper(x * d, y * d, Q64);
    }
  }

  function Sum(xs: seq<int>): (s: int) {
    if xs == [] then 0 else xs[0] + Sum(xs[1..])
  }

  lemma {:induction false} SumNonNeg(xs: seq<int>)
    requires forall i :: 0 <= i < |xs| ==> 0 <= xs[i]
    ensures 0 <= Sum(xs)
  {
    if xs != [] {
      SumNonNeg(xs[1..]);
    }
  }

  /** The principal paid for burning the parts one after another at one price. */
  function PrincipalOfParts(parts: seq<int>, lower: int, upper: int, current: int): (r: Checked<(int, int)>) {
    if parts == [] then Value((0, 0)) else
      var (a, b) :- AmountsForLiquidity(parts[0], lower, upper, current);
      var (restA, restB) :- PrincipalOfParts(parts[1..], lower, upper, current);
      Value((a + restA, b + restB))
  }

  /** The parts convert without overflow, to at most what their sum is worth exactly in token A, and to
      at most what it converts to in token B. */
  lemma {:induction false} PartsBelowExact(parts: seq<int>, lower: int, upper: int, current: int)
    requires forall i :: 0 <= i < |parts| ==> 0 <= parts[i]
    requires 0 < lower < upper <= I128_MAX
    requires TokenB(Sum(parts), lower, ClampPrice(current, lower, upper)).Value?
    ensures var cur := ClampPrice(current, lower, upper);
            var split := PrincipalOfParts(parts, lower, upper, current);
            && split.Value? && 0 <= split.value.0
            && (cur == upper ==> split.value.0 == 0)
            && split.value.0 <= ExactA(Sum(parts), cur, upper)
            && split.value.1 <= TokenB(Sum(parts), lower, cur).value
  {
    hide TokenA, TokenB, ExactA, Ceiling;
    var cur := ClampPrice(current, lower, upper);
    if parts == [] {
      NothingForNothing(lower, cur, upper);
      ExactOfNothing(cur, upper);
    } else {
      var x, y := parts[0], Sum(parts[1..]);
      SumNonNeg(parts[1..]);
      PartBelowExact(x, cur, upper);
      ExactASuper(x, y, cur, upper);
      TokenBSuper(x, y, lower, cur);
      PartsBelowExact(parts[1..], lower, upper, current);
    }
  }

  lemma ExactOfNothing(cur: int, upper: int)
    requires 0 < cur && 0 < upper
    ensures ExactA(0, cur, upper) == 0
  {
    assert forall d :: 0 < d ==> 0 / d == 0;
  }

  lemma PartBelowExact(x: int, cur: int, upper: int)
    requires 0 <= x && 0 < cur <= upper <= I128_MAX
    ensures TokenA(x, cur, upper).Value?
    ensures 0 <= TokenA(x, cur, upper).value <= ExactA(x, cur, upper)
    ensures cur == upper ==> TokenA(x, cur, upper).value == 0
  {
    if cur < upper {
      TokenAClamped(x, cur, upper);
      ExactNonNeg(x, cur, upper);
      FloorNonNeg(I128_MAX, upper);
      FloorNonNeg(Min(I128_MAX / upper * Q64, I128_MAX), cur);
    } else {
      assert x * 0 == 0;
      ExactOfNothing(cur, upper);
    }
  }

  lemma ExactNonNeg(x: int, cur: int, upper: int)
    requires 0 <= x && 0 < cur <= upper
    ensures 0 <= ExactA(x, cur, upper)
  {
    MulNonNeg(x, upper - cur);
    FloorNonNeg(x * (upper - cur), upper);
    FloorNonNeg(x * (upper - cur) / upper * Q64, cur);
  }

  /** Splitting a burn into any number of removals never returns more token B than one removal, and
      returns more token A exactly when the parts together convert to more than the ceiling of the two
      prices, at which a single conversion saturates. */
  lemma SplitBurnGainsIff(parts: seq<int>, lower: int, upper: int, current: int)
    requires forall i :: 0 <= i < |parts| ==> 0 <= parts[i]
    requires 0 < lower < upper <= I128_MAX
    requires AmountsForLiquidity(Sum(parts), lower, upper, current).Value?
    ensures var whole := AmountsForLiquidity(Sum(parts), lower, upper, current).value;
            var split := PrincipalOfParts(parts, lower, upper, current);
            && split.Value? && split.value.1 <= whole.1
            && (split.value.0 > whole.0 <==>
                  split.value.0 > Ceiling(upper, ClampPrice(current, lower, upper)))
  {
    hide TokenA, TokenB, ExactA, Ceiling, PrincipalOfParts;
    var cur := ClampPrice(current, lower, upper);
    PartsBelowExact(parts, lower, upper, current);
    SumNonNeg(parts);
    if cur < upper {
      TokenAClamped(Sum(parts), cur, upper);
    } else {
      PartBelowExact(Sum(parts), cur, upper);
      CeilingNonNeg(upper, cur);
    }
  }

  lemma CeilingNonNeg(u: int, c: int)
    requires 0 < u && 0 < c
    ensures 0 <= Ceiling(u, c)
  {
    FloorNonNeg(I128_MAX, u);
    FloorNonNeg(Min(I128_MAX / u * Q64, I128_MAX), c);
  }

  /** As long as the single removal does not saturate, splitting never returns more of either token. */
  lemma SplitBurnNeverGains(parts: seq<int>, lower: int, upper: int, current: int)
    requires forall i :: 0 <= i < |parts| ==> 0 <= parts[i]
    requires 0 < lower < upper <= I128_MAX
    requires Unsaturated(Sum(parts), ClampPrice(current, lower, upper), upper)
    requires AmountsForLiquidity(Sum(parts), lower, upper, current).Value?
    ensures var whole := AmountsForLiquidity(Sum(parts), lower, upper, current).value;
            var split := PrincipalOfParts(parts, lower, upper, current);
            split.Value? && split.value.0 <= whole.0 && split.value.1 <= whole.1
  {
    hide TokenA, TokenB, ExactA, Unsaturated, PrincipalOfParts;
    var cur := ClampPrice(current, lower, upper);
    PartsBelowExact(parts, lower, upper, current);
    SumNonNeg(parts);
    if cur < upper {
      TokenAExact(Sum(parts), cur, upper);
    } else {
      PartBelowExact(Sum(parts), cur, upper);
    }
  }

  /** If one part saturates by itself, the split gains exactly when another part pays any token A: the
      single removal pays no more than the saturated part alone. */
  lemma SaturatedPartGainsIff(before: seq<int>, x: int, after: seq<int>, lower: int, upper: int, current: int)
    requires forall i :: 0 <= i < |before| ==> 0 <= before[i]
    requires 0 <= x && forall i :: 0 <= i < |after| ==> 0 <= after[i]
    requires 0 < lower < upper <= I128_MAX
    requires AmountsForLiquidity(Sum(before + [x] + after), lower, upper, current).Value?
    requires !Unsaturated(x, ClampPrice(current, lower, upper), upper)
    ensures PrincipalOfParts(before + [x] + after, lower, upper, current).Value?
    ensures PrincipalOfParts(before, lower, upper, current).Value?
    ensures PrincipalOfParts(after, lower, upper, current).Value?
    ensures var parts := before + [x] + after;
            var whole := AmountsForLiquidity(Sum(parts), lower, upper, current).value;
            var split := PrincipalOfParts(parts, lower, upper, current).value;
            var others := PrincipalOfParts(before, lower, upper, current).value.0
                          + PrincipalOfParts(after, lower, upper, current).value.0;
            && split.0 - whole.0 == others
            && (split.0 > whole.0 <==> others > 0)
  {
    hide Ceiling, AmountsForLiquidity, PrincipalOfParts, Unsaturated, Sum, ClampPrice;
    var parts := before + [x] + after;
    SplitBurnGainsIff(parts, lower, upper, current);
    PrincipalInThree(before, x, after, lower, upper, current);
    SaturatedWhole(before, x, after, lower, upper, current);
    PartsNonNeg(before, lower, upper, current);
    PartsNonNeg(after, lower, upper, current);
  }

  lemma PrincipalInThree(before: seq<int>, x: int, after: seq<int>, lower: int, upper: int, current: int)
    requires PrincipalOfParts(before + [x] + after, lower, upper, current).Value?
    ensures PrincipalOfParts(before, lower, upper, current).Value?
    ensures PrincipalOfParts(after, lower, upper, current).Value?
    ensures AmountsForLiquidity(x, lower, upper, current).Value?
    ensures PrincipalOfParts(before + [x] + after, lower, upper, current).value.0
            == PrincipalOfParts(before, lower, upper, current).value.0
               + AmountsForLiquidity(x, lower, upper, current).value.0
               + PrincipalOfParts(after, lower, upper, current).value.0
  {
    hide AmountsForLiquidity, PrincipalOfParts;
    PrincipalSplits(before + [x], after, lower, upper, current);
    PrincipalSplits(before, [x], lower, upper, current);
    PrincipalOfOne(x, lower, upper, current);
  }

  lemma PartsNonNeg(parts: seq<int>, lower: int, upper: int, current: int)
    requires forall i :: 0 <= i < |parts| ==> 0 <= parts[i]
    requires 0 < lower < upper <= I128_MAX && PrincipalOfParts(parts, lower, upper, current).Value?
    ensures 0 <= PrincipalOfParts(parts, lower, upper, current).value.0
  {
    hide TokenA, TokenB;
    if parts != [] {
      PartBelowExact(parts[0], ClampPrice(current, lower, upper), upper);
      PartsNonNeg(parts[1..], lower, upper, current);
    }
  }

  lemma PrincipalOfOne(x: int, lower: int, upper: int, current: int)
    ensures PrincipalOfParts([x], lower, upper, current) == AmountsForLiquidity(x, lower, upper, current)
  {
    assert [x][1..] == [];
    assert PrincipalOfParts([], lower, upper, current) == Value((0, 0));
  }

  lemma {:induction false} PrincipalSplits(xs: seq<int>, ys: seq<int>, lower: int, upper: int, current: int)
    requires PrincipalOfParts(xs + ys, lower, upper, current).Value?
    ensures PrincipalOfParts(xs, lower, upper, current).Value? && PrincipalOfParts(ys, lower, upper, current).Value?
    ensures PrincipalOfParts(xs + ys, lower, upper, current).value.0
            == PrincipalOfParts(xs, lower, upper, current).value.0 + PrincipalOfParts(ys, lower, upper, current).value.0
  {
    hide AmountsForLiquidity;
    if xs == [] {
      assert xs + ys == ys;
    } else {
      assert (xs + ys)[1..] == xs[1..] + ys;
      PrincipalSplits(xs[1..], ys, lower, upper, current);
    }
  }

  lemma {:induction false} SumConcat(xs: seq<int>, ys: seq<int>)
    ensures Sum(xs + ys) == Sum(xs) + Sum(ys)
  {
    if xs == [] {
      assert xs + ys == ys;
    } else {
      assert (xs + ys)[1..] == xs[1..] + ys;
      SumConcat(xs[1..], ys);
    }
  }

  /** With more liquidity than a saturated part, the conversion pays what the part pays. */
  lemma SaturatedWhole(before: seq<int>, x: int, after: seq<int>, lower: int, upper: int, current: int)
    requires forall i :: 0 <= i < |before| ==> 0 <= before[i]
    requires 0 <= x && forall i :: 0 <= i < |after| ==> 0 <= after[i]
    requires 0 < lower < upper <= I128_MAX && !Unsaturated(x, ClampPrice(current, lower, upper), upper)
    requires AmountsForLiquidity(Sum(before + [x] + after), lower, upper, current).Value?
    requires AmountsForLiquidity(x, lower, upper, current).Value?
    ensures AmountsForLiquidity(Sum(before + [x] + after), lower, upper, current).value.0
            == AmountsForLiquidity(x, lower, upper, current).value.0
  {
    hide TokenA, TokenB, Ceiling, ExactA;
    var parts, cur := before + [x] + after, ClampPrice(current, lower, upper);
    SumConcat(before + [x], after);
    SumConcat(before, [x]);
    assert Sum([x]) == x by {
      assert Sum([x][1..]) == 0;
    }
    SumNonNeg(before);
    SumNonNeg(after);
    StaysSaturated(x, Sum(parts), cur, upper);
    TokenAClamped(x, cur, upper);
    TokenAClamped(Sum(parts), cur, upper);
  }

  lemma StaysSaturated(part: int, whole: int, cur: int, upper: int)
    requires 0 <= part <= whole && 0 < cur && !Unsaturated(part, cur, upper)
    ensures !Unsaturated(whole, cur, upper) && cur < upper
  {
    MulMono(part, whole, upper - cur);
    FloorMono(part * (upper - cur), whole * (upper - cur), upper);
  }
}
