/** The volatility-driven fee: Newton's integer square root and the rolling price oracle
    (Contracts/contracts/amm/src/fees.rs). */
module DynamicFee {
  import opened Arith

  const MAX_FEE_PREMIUM_BPS: int := 50
  const VOLATILITY_DIVISOR: int := 10
  const ORACLE_PERIODS: nat := 24
  const ORACLE_PERIOD_SECS: nat := 3_600
  const TWO_32: int := 0x1_0000_0000

  /** Reference definition: count up while the next square fits. */
  function FloorSqrt(n: nat): (r: nat)
    ensures r * r <= n < (r + 1) * (r + 1)
  {
    if n == 0 then 0
    else
      var r := FloorSqrt(n - 1);
      if (r + 1) * (r + 1) <= n then
        assert (r + 2) * (r + 2) == (r + 1) * (r + 1) + 2 * r + 3;
        r + 1
      else r
  }

  lemma SquareMono(x: nat, y: nat)
    requires x <= y
    ensures x * x <= y * y
  {
    MulMono(x, y, x);
    MulMono(x, y, y);
  }

  /** The floor square root is the only number whose square interval holds n. */
  lemma FloorSqrtUnique(n: nat, r: nat)
    requires r * r <= n < (r + 1) * (r + 1)
    ensures r == FloorSqrt(n)
  {
    var s := FloorSqrt(n);
    if r < s {
      SquareMono(r + 1, s);
    } else if s < r {
      SquareMono(s + 1, r);
    }
  }

  /** x is at or above the floor square root of n. */
  predicate AboveRoot(n: nat, x: nat) {
    n < (x + 1) * (x + 1)
  }

  /** One Newton step from any positive x lands at or above the root. */
  lemma NewtonAboveRoot(n: nat, x: nat)
    requires 0 < x
    ensures AboveRoot(n, (x + n / x) / 2)
  {
    var q := n / x;
    var y := (x + q) / 2;
    FloorBounds(n, x);
    var z := y + 1;
    assert x + q + 1 <= 2 * z;
    assert n < (q + 1) * x;
    AmGm(x, q + 1, z);
  }

  /** Two factors whose sum is at most 2z have a product of at most z squared. */
  lemma AmGm(x: int, y: int, z: int)
    requires 0 <= x + y <= 2 * z
    ensures y * x <= z * z
  {
    assert 4 * (y * x) + (x - y) * (x - y) == (x + y) * (x + y);
    MulNonNegSquare(x - y);
    MulMono(x + y, 2 * z, x + y);
    MulMono(x + y, 2 * z, 2 * z);
  }

  /** isqrt: Newton's iteration stops at the floor square root of every positive number, and
      aborts exactly on the largest i128, where its first addition overflows. */
  method Isqrt(n: int) returns (r: Checked<int>)
    requires InI128(n)
    ensures r.Panic? <==> n == I128_MAX
    ensures r.Value? && n <= 0 ==> r.value == 0
    ensures r.Value? && 0 < n ==>
              r.value == FloorSqrt(n) && r.value * r.value <= n < (r.value + 1) * (r.value + 1)
  {
    hide FloorSqrt, AboveRoot;
    if n <= 0 {
      return Value(0);
    }
    if !InI128(n + 1) {
      return Panic;
    }
    var x, y := n, (n + 1) / 2;
    FirstGuess(n);
    while y < x
      invariant 0 < y && 0 < x <= n
      invariant AboveRoot(n, x) && AboveRoot(n, y)
      invariant Stepped(n, x, y)
      decreases x
    {
      x := y;
      NewtonFits(n, x);
      NewtonAboveRoot(n, x);
      y := (x + n / x) / 2;
    }
    ExitAtRoot(n, x, y);
    r := Value(x);
  }

  /** y is the Newton step from x, or the pair is the initial guess. */
  ghost predicate Stepped(n: nat, x: nat, y: nat)
    requires 0 < x
  {
    (x == n && y == (n + 1) / 2) || y == (x + n / x) / 2
  }

  lemma FirstGuess(n: nat)
    requires 0 < n
    ensures AboveRoot(n, n) && AboveRoot(n, (n + 1) / 2)
  {
    NewtonAboveRoot(n, 1);
  }

  lemma SumOfDivisors(n: nat, x: nat)
    requires 0 < x <= n
    ensures x + n / x <= n + 1
  {
    FloorBounds(n, x);
    MulNonNeg(x - 1, n / x - 1) by {
      FloorGreatest(1, n, x);
    }
  }

  /** From any guess up to n the step is positive and its sum does not overflow. */
  lemma NewtonFits(n: nat, x: nat)
    requires 0 < x <= n
    ensures 0 < (x + n / x) / 2 <= n && x + n / x <= n + 1
  {
    FloorGreatest(1, n, x);
    SumOfDivisors(n, x);
  }

  /** When the iteration stops going down, x is the root. */
  lemma ExitAtRoot(n: nat, x: nat, y: nat)
    requires 0 < x <= y
    requires Stepped(n, x, y) && AboveRoot(n, x)
    ensures x == FloorSqrt(n) && x * x <= n < (x + 1) * (x + 1)
  {
    hide FloorSqrt;
    ExitBelowRoot(n, x, y);
    FloorSqrtUnique(n, x);
  }

  lemma ExitBelowRoot(n: nat, x: nat, y: nat)
    requires 0 < x <= y && Stepped(n, x, y)
    ensures x * x <= n
  {
    if x == n && y == (n + 1) / 2 {
      assert n == 1;
    } else {
      FloorBounds(n, x);
      MulMono(x, n / x, x);
    }
  }

  // ---------------------------------------------------------------------------------------
  // The fee

  /** The first `count` oracle readings, newest period first. Periods before the first are read
      as period 0 again, as the saturating subtraction does. */
  function Readings(history: map<nat, int>, current: nat, count: nat): (s: seq<int>)
    ensures |s| <= count
    ensures forall x <- s :: x in history.Values
  {
    if count == 0 then []
    else
      var period: nat := if current >= count - 1 then current - (count - 1) else 0;
      Readings(history, current, count - 1) + (if period in history then [history[period]] else [])
  }

  /** The stored periods among the last `count`. */
  ghost function Stored(history: map<nat, int>, current: nat, count: nat): (r: set<nat>) {
    set period <- history | current - count < period <= current
  }

  /** From the 24th period on, the readings are those of the stored periods, each of them once. */
  lemma {:induction false} ReadingsExact(history: map<nat, int>, current: nat, count: nat)
    requires count <= current + 1
    ensures |Readings(history, current, count)| == |Stored(history, current, count)|
    ensures forall period <- Stored(history, current, count) ::
              history[period] in Readings(history, current, count)
  {
    if count == 0 {
      assert Stored(history, current, 0) == {};
    } else {
      ReadingsExact(history, current, count - 1);
      var period: nat := current - (count - 1);
      var before := Stored(history, current, count - 1);
      assert Stored(history, current, count) == before + (if period in history then {period} else {});
      assert period !in before;
    }
  }

  function CheckedSum(xs: seq<int>): (r: Checked<int>) {
    if xs == [] then Value(0)
    else
      var s :- CheckedSum(xs[..|xs| - 1]);
      Fit(s + xs[|xs| - 1])
  }

  function CheckedDeviations(xs: seq<int>, mean: int): (r: Checked<int>)
    ensures r.Value? ==> 0 <= r.value
  {
    if xs == [] then Value(0)
    else
      var s :- CheckedDeviations(xs[..|xs| - 1], mean);
      var diff :- Fit(xs[|xs| - 1] - mean);
      var square :- Fit(diff * diff);
      MulNonNegSquare(diff);
      Fit(s + square)
  }

  /** vol_bps is cast to u32 before it is divided. */
  function Premium(volBps: int): (p: int)
    ensures 0 <= p <= MAX_FEE_PREMIUM_BPS
  {
    Min((volBps % TWO_32) / VOLATILITY_DIVISOR, MAX_FEE_PREMIUM_BPS)
  }

  /** compute_dynamic_fee as a function of the readings. */
  function FeeOf(xs: seq<int>, base: nat): (r: Checked<int>)
    ensures r.Value? ==> base <= r.value <= base + MAX_FEE_PREMIUM_BPS
  {
    var sum :- CheckedSum(xs);
    if |xs| < 2 then Value(base)
    else
      var mean := Quot(sum, |xs|);
      if mean == 0 then Value(base)
      else
        var total :- CheckedDeviations(xs, mean);
        FloorNonNeg(total, |xs|);
        Value(base + Premium(FloorSqrt(Quot(total, |xs|)) * 10_000 / Max(mean, 1)))
  }

  lemma {:induction false} DeviationsBound(xs: seq<int>, mean: int, d: nat)
    requires CheckedDeviations(xs, mean).Value?
    requires forall i :: 0 <= i < |xs| ==> Abs(xs[i] - mean) <= d
    ensures CheckedDeviations(xs, mean).value <= |xs| * (d * d)
  {
    hide CheckedDeviations;
    DeviationsStep(xs, mean);
    if xs != [] {
      var init, x := xs[..|xs| - 1], xs[|xs| - 1];
      DeviationsBound(init, mean, d);
      SquareWithin(x - mean, d);
      Distribute(d * d, |init|, 1);
    }
  }

  lemma DeviationsStep(xs: seq<int>, mean: int)
    requires CheckedDeviations(xs, mean).Value?
    ensures xs == [] ==> CheckedDeviations(xs, mean).value == 0
    ensures xs != [] ==>
              var x := xs[|xs| - 1] - mean;
              var init := CheckedDeviations(xs[..|xs| - 1], mean);
              init.Value? && CheckedDeviations(xs, mean).value == init.value + x * x
  {
  }

  lemma SquareWithin(x: int, d: nat)
    requires Abs(x) <= d
    ensures x * x <= d * d
  {
    if x >= 0 {
      SquareMono(x, d);
    } else {
      SquareMono(-x, d);
    }
  }


  lemma VarianceBelow(total: int, n: nat, d: nat)
    requires 0 < n && 0 <= total <= n * (d * d)
    ensures 0 <= total / n && FloorSqrt(total / n) <= d
  {
    hide FloorSqrt;
    FloorNonNeg(total, n);
    assert (d * d + 1) * n == n * (d * d) + n;
    FloorBelow(d * d, total, n);
    var r := FloorSqrt(total / n);
    if d + 1 <= r {
      SquareMono(d + 1, r);
    }
  }

  lemma PremiumMono(vol: int, bound: int)
    requires 0 <= vol <= bound
    ensures Premium(vol) <= bound / VOLATILITY_DIVISOR
  {
    assert vol % TWO_32 <= vol;
    FloorMono(vol % TWO_32, bound, VOLATILITY_DIVISOR);
  }

  lemma {:induction false} DeviationsAtLeast(xs: seq<int>, mean: int, i: nat, e: nat)
    requires CheckedDeviations(xs, mean).Value? && i < |xs| && e <= Abs(xs[i] - mean)
    ensures e * e <= CheckedDeviations(xs, mean).value
    decreases |xs|
  {
    DeviationsStep(xs, mean);
    var x := xs[|xs| - 1] - mean;
    var init := xs[..|xs| - 1];
    if i < |xs| - 1 {
      MulNonNegSquare(x);
      DeviationsAtLeast(init, mean, i, e);
    } else {
      SquareMono(e, Abs(x));
      assert 0 <= CheckedDeviations(init, mean).value;
    }
  }

  lemma FloorSqrtMono(x: nat, y: nat)
    requires x <= y
    ensures FloorSqrt(x) <= FloorSqrt(y)
  {
    hide FloorSqrt;
    var r, s := FloorSqrt(x), FloorSqrt(y);
    if s + 1 <= r {
      SquareMono(s + 1, r);
    }
  }

  /** The volatility in basis points that a deviation of e in one of n readings alone accounts for. */
  function VolatilityOf(e: nat, n: nat, mean: int): (v: int)
    requires 0 < n && 0 < mean
    ensures 0 <= v
  {
    FloorNonNeg(e * e, n);
    VolatilityMono(0, FloorSqrt(e * e / n), mean);
    FloorSqrt(e * e / n) * 10_000 / mean
  }

  /** Among non-negative readings none exceeds the sum. */
  lemma {:induction false} ReadingBelowSum(xs: seq<int>, i: nat)
    requires CheckedSum(xs).Value? && i < |xs| && forall j :: 0 <= j < |xs| ==> 0 <= xs[j]
    ensures 0 <= xs[i] <= CheckedSum(xs).value
    decreases |xs|
  {
    var init := xs[..|xs| - 1];
    if i < |init| {
      ReadingBelowSum(init, i);
    } else if init != [] {
      ReadingBelowSum(init, 0);
    }
  }

  /** Up to 24 non-negative readings never stray so far from their mean that the volatility does not fit
      the 32 bits it is cast to. */
  lemma CastNeverTruncates(xs: seq<int>, mean: int, d: nat)
    requires CheckedSum(xs).Value? && 2 <= |xs| <= ORACLE_PERIODS && forall j :: 0 <= j < |xs| ==> 0 <= xs[j]
    requires mean == Quot(CheckedSum(xs).value, |xs|) && 0 < mean && d == 2 * |xs| * mean
    ensures forall j :: 0 <= j < |xs| ==> Abs(xs[j] - mean) <= d
    ensures d * 10_000 / mean < TWO_32
  {
    hide CheckedSum;
    var n, sum := |xs|, CheckedSum(xs).value;
    ReadingBelowSum(xs, 0);
    SpreadBound(sum, n, mean, d);
    forall j | 0 <= j < |xs| ensures Abs(xs[j] - mean) <= d {
      ReadingBelowSum(xs, j);
    }
  }

  lemma SpreadBound(sum: int, n: nat, mean: int, d: nat)
    requires 0 <= sum && 2 <= n <= ORACLE_PERIODS && mean == sum / n && 0 < mean && d == 2 * n * mean
    ensures sum <= d && mean <= d && d * 10_000 / mean < TWO_32
  {
    FloorBounds(sum, n);
    MulMono(1, mean, n);
    MulMono(1, n, mean);
    assert d == 2 * (n * mean);
    assert d * 10_000 == (20_000 * n) * mean;
    ExactDivision(20_000 * n, mean);
  }

  /** A reading that strays by e from the mean raises the fee by at least the premium that e alone
      accounts for, up to the cap, for all readings that prices can leave. */
  lemma FeeRisesWithDeviation(xs: seq<int>, base: nat, i: nat, e: nat)
    requires FeeOf(xs, base).Value? && CheckedSum(xs).Value? && 2 <= |xs| <= ORACLE_PERIODS
    requires forall j :: 0 <= j < |xs| ==> 0 <= xs[j]
    requires var mean := Quot(CheckedSum(xs).value, |xs|); 0 < mean && i < |xs| && e <= Abs(xs[i] - mean)
    ensures var mean := Quot(CheckedSum(xs).value, |xs|);
            base + Min(VolatilityOf(e, |xs|, mean) / VOLATILITY_DIVISOR, MAX_FEE_PREMIUM_BPS) <= FeeOf(xs, base).value
  {
    hide FeeOf, FloorSqrt, Premium, VolatilityOf, CheckedSum;
    var n, mean := |xs|, Quot(CheckedSum(xs).value, |xs|);
    var total := FeeFormula(xs, base, mean);
    var d := 2 * n * mean;
    MulNonNeg(2 * n, mean);
    CastNeverTruncates(xs, mean, d);
    DeviationsBound(xs, mean, d);
    VarianceBelow(total, n, d);
    DeviationsAtLeast(xs, mean, i, e);
    VolatilityMono(FloorSqrt(total / n), d, mean);
    VolatilityAtLeast(e, n, mean, total);
    PremiumAtLeast(VolatilityOf(e, n, mean), FloorSqrt(total / n) * 10_000 / mean);
  }

  lemma VolatilityAtLeast(e: nat, n: nat, mean: int, total: int)
    requires 0 < n && 0 < mean && e * e <= total && 0 <= total / n
    ensures VolatilityOf(e, n, mean) <= FloorSqrt(total / n) * 10_000 / mean
  {
    hide FloorSqrt;
    FloorNonNeg(e * e, n);
    FloorMono(e * e, total, n);
    FloorSqrtMono(e * e / n, total / n);
    VolatilityMono(FloorSqrt(e * e / n), FloorSqrt(total / n), mean);
  }

  lemma FeeFormula(xs: seq<int>, base: nat, mean: int) returns (total: int)
    requires FeeOf(xs, base).Value? && CheckedSum(xs).Value? && 2 <= |xs|
    requires mean == Quot(CheckedSum(xs).value, |xs|) && 0 < mean
    ensures CheckedDeviations(xs, mean) == Value(total) && 0 <= total && 0 <= total / |xs|
    ensures FeeOf(xs, base).value == base + Premium(FloorSqrt(total / |xs|) * 10_000 / mean)
  {
    hide FloorSqrt, Premium, CheckedDeviations, CheckedSum;
    total := CheckedDeviations(xs, mean).value;
    FloorNonNeg(total, |xs|);
  }

  lemma VolatilityMono(low: nat, high: nat, mean: int)
    requires low <= high && 0 < mean
    ensures 0 <= low * 10_000 / mean <= high * 10_000 / mean
  {
    FloorNonNeg(low * 10_000, mean);
    FloorMono(low * 10_000, high * 10_000, mean);
  }

  lemma PremiumAtLeast(low: int, vol: int)
    requires 0 <= low <= vol < TWO_32
    ensures Min(low / VOLATILITY_DIVISOR, MAX_FEE_PREMIUM_BPS) <= Premium(vol)
  {
    FloorMono(low, vol, VOLATILITY_DIVISOR);
  }

  // ---------------------------------------------------------------------------------------
  // The fee in an unlimited number range

  function SumOf(xs: seq<int>): (s: int) {
    if xs == [] then 0 else SumOf(xs[..|xs| - 1]) + xs[|xs| - 1]
  }

  function SquaresOf(xs: seq<int>, mean: int): (s: int) {
    if xs == [] then 0
    else SquaresOf(xs[..|xs| - 1], mean) + (xs[|xs| - 1] - mean) * (xs[|xs| - 1] - mean)
  }

  lemma {:induction false} SumExact(xs: seq<int>)
    requires forall j :: 0 <= j < |xs| ==> 0 <= xs[j]
    ensures 0 <= SumOf(xs)
    ensures CheckedSum(xs) == if SumOf(xs) <= I128_MAX then Value(SumOf(xs)) else Panic
  {
    if xs != [] {
      SumExact(xs[..|xs| - 1]);
    }
  }

  lemma {:induction false} DeviationsExact(xs: seq<int>, mean: int)
    requires 0 <= mean <= I128_MAX && forall j :: 0 <= j < |xs| ==> 0 <= xs[j] <= I128_MAX
    ensures 0 <= SquaresOf(xs, mean)
    ensures CheckedDeviations(xs, mean) == if SquaresOf(xs, mean) <= I128_MAX then Value(SquaresOf(xs, mean)) else Panic
  {
    if xs != [] {
      DeviationsExact(xs[..|xs| - 1], mean);
      MulNonNegSquare(xs[|xs| - 1] - mean);
    }
  }

  /** The fee of non-negative readings, without clamps and casts: the base for fewer than two readings or a
      mean of zero; otherwise the base and a tenth of the volatility in basis points, at most fifty. It is
      refused exactly when the sum of the readings or of their squared deviations does not fit. */
  lemma FeeExact(xs: seq<int>, base: nat)
    requires |xs| <= 24 && forall j :: 0 <= j < |xs| ==> 0 <= xs[j] <= I128_MAX
    ensures SumOf(xs) > I128_MAX ==> FeeOf(xs, base) == Panic
    ensures SumOf(xs) <= I128_MAX && |xs| < 2 ==> FeeOf(xs, base) == Value(base)
    ensures SumOf(xs) <= I128_MAX && 2 <= |xs| ==>
              var n, mean := |xs|, SumOf(xs) / |xs|;
              && (mean == 0 ==> FeeOf(xs, base) == Value(base))
              && (mean > 0 && SquaresOf(xs, mean) > I128_MAX ==> FeeOf(xs, base) == Panic)
              && (mean > 0 && SquaresOf(xs, mean) <= I128_MAX ==>
                    && 0 <= SquaresOf(xs, mean) / n
                    && FeeOf(xs, base)
                       == Value(base + Min(FloorSqrt(SquaresOf(xs, mean) / n) * 10_000 / mean / 10, 50)))
  {
    hide FloorSqrt;
    SumExact(xs);
    if SumOf(xs) <= I128_MAX && 2 <= |xs| {
      var n, mean := |xs|, SumOf(xs) / |xs|;
      FloorNonNeg(SumOf(xs), n);
      FloorBounds(SumOf(xs), n);
      MulMono(1, n, mean);
      DeviationsExact(xs, mean);
      if mean > 0 && SquaresOf(xs, mean) <= I128_MAX {
        VolatilityFits(xs, mean);
        FeeFits(xs, base, mean, FloorSqrt(SquaresOf(xs, mean) / n));
      }
    }
  }

  lemma {:induction false} SquareWithinSum(xs: seq<int>, mean: int, i: nat)
    requires i < |xs|
    ensures (xs[i] - mean) * (xs[i] - mean) <= SquaresOf(xs, mean)
    decreases |xs|
  {
    var init := xs[..|xs| - 1];
    MulNonNegSquare(xs[|xs| - 1] - mean);
    if i < |init| {
      SquareWithinSum(init, mean, i);
    } else {
      SquaresNonNeg(init, mean);
    }
  }

  lemma {:induction false} SquaresNonNeg(xs: seq<int>, mean: int)
    ensures 0 <= SquaresOf(xs, mean)
  {
    if xs != [] {
      SquaresNonNeg(xs[..|xs| - 1], mean);
      MulNonNegSquare(xs[|xs| - 1] - mean);
    }
  }

  /** One reading whose squared distance from the mean does not fit is enough for the fee to be refused. */
  lemma StrayReadingRefused(xs: seq<int>, base: nat, i: nat)
    requires 2 <= |xs| <= 24 && i < |xs| && SumOf(xs) <= I128_MAX
    requires forall j :: 0 <= j < |xs| ==> 0 <= xs[j] <= I128_MAX
    requires var mean := SumOf(xs) / |xs|; 0 < mean && (xs[i] - mean) * (xs[i] - mean) > I128_MAX
    ensures FeeOf(xs, base) == Panic
  {
    hide FeeOf, SquaresOf;
    FeeExact(xs, base);
    SquareWithinSum(xs, SumOf(xs) / |xs|, i);
  }

  lemma FeeFits(xs: seq<int>, base: nat, mean: int, root: nat)
    requires CheckedSum(xs).Value? && 2 <= |xs| && mean == Quot(CheckedSum(xs).value, |xs|) && 0 < mean
    requires CheckedDeviations(xs, mean).Value? && 0 <= CheckedDeviations(xs, mean).value / |xs|
    requires root == FloorSqrt(CheckedDeviations(xs, mean).value / |xs|) && 0 <= root * 10_000 / mean < TWO_32
    ensures FeeOf(xs, base) == Value(base + Min(root * 10_000 / mean / 10, 50))
  {
    hide FloorSqrt, CheckedSum, CheckedDeviations, Premium;
    FloorNonNeg(CheckedDeviations(xs, mean).value, |xs|);
    PremiumFits(root * 10_000 / mean);
  }

  lemma PremiumFits(vol: int)
    requires 0 <= vol < TWO_32
    ensures Premium(vol) == Min(vol / 10, 50)
  {
  }

  lemma VolatilityFits(xs: seq<int>, mean: int)
    requires CheckedSum(xs).Value? && 2 <= |xs| <= ORACLE_PERIODS && forall j :: 0 <= j < |xs| ==> 0 <= xs[j]
    requires mean == Quot(CheckedSum(xs).value, |xs|) && 0 < mean && CheckedDeviations(xs, mean).Value?
    ensures var total := CheckedDeviations(xs, mean).value;
            0 <= total / |xs| && 0 <= FloorSqrt(total / |xs|) * 10_000 / mean < TWO_32
  {
    hide FloorSqrt, CheckedSum, CheckedDeviations;
    var n, total := |xs|, CheckedDeviations(xs, mean).value;
    var d := 2 * n * mean;
    MulNonNeg(2 * n, mean);
    CastNeverTruncates(xs, mean, d);
    DeviationsBound(xs, mean, d);
    VarianceBelow(total, n, d);
    VolatilityMono(FloorSqrt(total / n), d, mean);
  }

  /** If every reading lies within d of the mean, the volatility in basis points is at most
      d * 10000 / mean, and the fee rises by at most a tenth of that. */
  lemma FeeBoundedByDeviation(xs: seq<int>, base: nat, d: nat)
    requires FeeOf(xs, base).Value? && CheckedSum(xs).Value? && 2 <= |xs|
    requires var mean := Quot(CheckedSum(xs).value, |xs|);
             0 < mean && forall i :: 0 <= i < |xs| ==> Abs(xs[i] - mean) <= d
    ensures var mean := Quot(CheckedSum(xs).value, |xs|);
            FeeOf(xs, base).value <= base + d * 10_000 / mean / VOLATILITY_DIVISOR
  {
    var n, mean := |xs|, Quot(CheckedSum(xs).value, |xs|);
    var total := CheckedDeviations(xs, mean).value;
    DeviationsBound(xs, mean, d);
    VarianceBelow(total, n, d);
    var root := FloorSqrt(total / n);
    FloorMono(root * 10_000, d * 10_000, mean);
    FloorNonNeg(root * 10_000, mean);
    PremiumMono(root * 10_000 / mean, d * 10_000 / mean);
  }

  /** The first pass: gather the readings into the buffer and add them up. */
  method CollectSamples(history: map<nat, int>, current: nat, samples: array<int>)
    returns (sum: Checked<int>, count: nat)
    requires samples.Length == ORACLE_PERIODS
    modifies samples
    ensures count <= ORACLE_PERIODS
    ensures sum == CheckedSum(Readings(history, current, ORACLE_PERIODS))
    ensures sum.Value? ==> samples[..count] == Readings(history, current, ORACLE_PERIODS)
  {
    hide Readings, CheckedSum;
    var s := 0;
    count := 0;
    SumSnoc([], 0);
    ReadingsSnoc(history, current, 0);
    for i := 0 to ORACLE_PERIODS
      invariant count <= i
      invariant samples[..count] == Readings(history, current, i)
      invariant CheckedSum(samples[..count]) == Value(s)
    {
      ReadingsSnoc(history, current, i);
      var period: nat := if current >= i then current - i else 0;
      if period in history {
        ghost var was := samples[..count];
        samples[count] := history[period];
        assert samples[..count + 1] == was + [history[period]];
        SumSnoc(was, samples[count]);
        if !InI128(s + samples[count]) {
          SumAborts(history, current, i + 1, ORACLE_PERIODS);
          return Panic, count;
        }
        s := s + samples[count];
        count := count + 1;
      }
    }
    sum := Value(s);
  }

  lemma SumSnoc(xs: seq<int>, x: int)
    ensures CheckedSum([]) == Value(0)
    ensures CheckedSum(xs + [x]) == if CheckedSum(xs).Value? then Fit(CheckedSum(xs).value + x) else Panic
  {
    assert (xs + [x])[..|xs|] == xs;
  }

  lemma ReadingsSnoc(history: map<nat, int>, current: nat, i: nat)
    ensures Readings(history, current, 0) == []
    ensures var period: nat := if current >= i then current - i else 0;
            Readings(history, current, i + 1)
            == Readings(history, current, i) + (if period in history then [history[period]] else [])
  {
  }

  /** The second pass: add up the squared deviations from the mean. */
  method SumDeviations(xs: seq<int>, mean: int) returns (total: Checked<int>)
    ensures total == CheckedDeviations(xs, mean)
  {
    var s := 0;
    for i := 0 to |xs|
      invariant CheckedDeviations(xs[..i], mean) == Value(s)
    {
      assert xs[..i + 1][..i] == xs[..i] && xs[..i + 1][i] == xs[i];
      var diff := xs[i] - mean;
      if !InI128(diff) || !InI128(diff * diff) || !InI128(s + diff * diff) {
        DeviationsAbort(xs, mean, i + 1);
        return Panic;
      }
      s := s + diff * diff;
    }
    assert xs[..|xs|] == xs;
    total := Value(s);
  }

  /** compute_dynamic_fee: the two passes over the sample buffer compute FeeOf of the readings.
      The square root cannot abort here: a variance is at most half of the largest i128. */
  method ComputeDynamicFee(history: map<nat, int>, now: nat, base: nat) returns (fee: Checked<int>, count: nat)
    ensures fee == FeeOf(Readings(history, now / ORACLE_PERIOD_SECS, ORACLE_PERIODS), base)
    ensures fee.Value? ==> count == |Readings(history, now / ORACLE_PERIOD_SECS, ORACLE_PERIODS)|
    ensures fee.Value? ==> base <= fee.value <= base + MAX_FEE_PREMIUM_BPS
  {
    hide FloorSqrt, Readings, CheckedSum, CheckedDeviations;
    var samples := new int[ORACLE_PERIODS];
    var sum;
    sum, count := CollectSamples(history, now / ORACLE_PERIOD_SECS, samples);
    if sum.Panic? {
      return Panic, count;
    }
    if count < 2 {
      return Value(base), count;
    }
    var mean := Quot(sum.value, count);
    if mean == 0 {
      return Value(base), count;
    }
    var total := SumDeviations(samples[..count], mean);
    if total.Panic? {
      return Panic, count;
    }
    CheckedDeviationsFit(samples[..count], mean);
    HalfTheRange(total.value, count);
    var root := Isqrt(total.value / count);
    if total.value / count == 0 {
      FloorSqrtUnique(0, 0);
    }
    fee := Value(base + Premium(root.value * 10_000 / Max(mean, 1)));
  }

  lemma CheckedDeviationsFit(xs: seq<int>, mean: int)
    requires CheckedDeviations(xs, mean).Value?
    ensures CheckedDeviations(xs, mean).value <= I128_MAX
  {
  }

  lemma HalfTheRange(total: int, count: int)
    requires 0 <= total <= I128_MAX && 2 <= count
    ensures 0 <= total / count < I128_MAX
  {
    FloorNonNeg(total, count);
    FloorBounds(total, count);
    MulMono(2, count, total / count);
  }

  /** A sum that aborts on a prefix of the readings aborts on all of them. */
  lemma {:induction false} SumAborts(history: map<nat, int>, current: nat, i: nat, n: nat)
    requires i <= n && CheckedSum(Readings(history, current, i)).Panic?
    ensures CheckedSum(Readings(history, current, n)).Panic?
    decreases n - i
  {
    if i < n {
      var was, next := Readings(history, current, i), Readings(history, current, i + 1);
      if next != was {
        assert next[..|next| - 1] == was;
      }
      SumAborts(history, current, i + 1, n);
    }
  }

  lemma {:induction false} DeviationsAbort(xs: seq<int>, mean: int, i: nat)
    requires i <= |xs| && CheckedDeviations(xs[..i], mean).Panic?
    ensures CheckedDeviations(xs, mean).Panic?
    decreases |xs| - i
  {
    if i < |xs| {
      assert xs[..i + 1][..i] == xs[..i];
      DeviationsAbort(xs, mean, i + 1);
    } else {
      assert xs[..i] == xs;
    }
  }
}
