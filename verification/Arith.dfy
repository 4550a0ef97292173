/** Rust's i128 arithmetic as the contracts use it: plain operators abort the call when the
    result does not fit, `saturating_*` operators clamp, and `/` truncates toward zero. */
module Arith {

  const I128_MAX: int := 0x7fff_ffff_ffff_ffff_ffff_ffff_ffff_ffff
  const I128_MIN: int := -0x8000_0000_0000_0000_0000_0000_0000_0000
  const U64_MAX: int := 0xffff_ffff_ffff_ffff
  const U128_MAX: int := 0xffff_ffff_ffff_ffff_ffff_ffff_ffff_ffff

  /** 2^64, the fixed-point scale of prices and fee growth. */
  const Q64: int := 0x1_0000_0000_0000_0000

  predicate InI128(x: int) {
    I128_MIN <= x <= I128_MAX
  }

  /** The result of an expression that may abort the contract call. */
  datatype Checked<+T> = Value(value: T) | Panic {
    predicate IsFailure() {
      Panic?
    }
    function PropagateFailure<U>(): Checked<U>
      requires Panic?
    {
      Panic
    }
    function Extract(): T
      requires Value?
    {
      value
    }
  }

  function Fit(x: int): (r: Checked<int>) {
    if InI128(x) then Value(x) else Panic
  }

  function Clamp(x: int): (r: int)
    ensures InI128(r)
    ensures InI128(x) ==> r == x
    ensures x >= 0 ==> 0 <= r <= x
  {
    if x > I128_MAX then I128_MAX else if x < I128_MIN then I128_MIN else x
  }

  function SatMul(x: int, y: int): (r: int) {
    Clamp(x * y)
  }

  function SatAdd(x: int, y: int): (r: int) {
    Clamp(x + y)
  }

  function Max(x: int, y: int): (r: int) {
    if x >= y then x else y
  }

  function Min(x: int, y: int): (r: int) {
    if x <= y then x else y
  }

  function Abs(x: int): (r: int) {
    if x < 0 then -x else x
  }

  /** Division truncating toward zero. Dafny's own `/` is Euclidean and agrees with it only
      on a non-negative numerator. */
  function Quot(x: int, y: int): (r: int)
    requires y != 0
    ensures x >= 0 && y > 0 ==> r == x / y
  {
    if x >= 0 then x / y else -((-x) / y)
  }

  lemma MulMono(x: int, y: int, k: int)
    requires x <= y && 0 <= k
    ensures x * k <= y * k
    ensures k * x <= k * y
  {
  }

  lemma MulNonNeg(x: int, y: int)
    requires 0 <= x && 0 <= y
    ensures 0 <= x * y
  {
  }

  lemma Distribute(k: int, x: int, y: int)
    ensures k * (x + y) == k * x + k * y
  {
  }

  /** The defining bounds of a floor. */
  lemma FloorBounds(n: int, d: int)
    requires 0 < d
    ensures n / d * d <= n < n / d * d + d
  {
  }

  /** A floor is the greatest integer whose product with the divisor fits. */
  lemma FloorGreatest(q: int, n: int, d: int)
    requires 0 < d
    requires q * d <= n
    ensures q <= n / d
  {
    FloorBounds(n, d);
    if q > n / d {
      MulMono(n / d + 1, q, d);
    }
  }

  /** A floor lies below every integer whose next multiple exceeds the numerator. */
  lemma FloorBelow(q: int, n: int, d: int)
    requires 0 < d
    requires n < (q + 1) * d
    ensures n / d <= q
  {
    FloorBounds(n, d);
    if n / d > q {
      MulMono(q + 1, n / d, d);
    }
  }

  lemma FloorMono(n: int, m: int, d: int)
    requires 0 < d && n <= m
    ensures n / d <= m / d
  {
    FloorBounds(n, d);
    FloorGreatest(n / d, m, d);
  }

  lemma FloorNonNeg(n: int, d: int)
    requires 0 < d && 0 <= n
    ensures 0 <= n / d
  {
    FloorGreatest(0, n, d);
  }

  /** Floors are superadditive: rounding the parts down never exceeds rounding the whole down. */
  lemma FloorSuper(n: int, m: int, d: int)
    requires 0 < d
    ensures n / d + m / d <= (n + m) / d
  {
    FloorBounds(n, d);
    FloorBounds(m, d);
    assert (n / d + m / d) * d == n / d * d + m / d * d;
    FloorGreatest(n / d + m / d, n + m, d);
  }

  lemma ExactDivision(q: int, d: int)
    requires 0 < d
    ensures q * d / d == q
  {
    FloorBounds(q * d, d);
    FloorGreatest(q, q * d, d);
    FloorBelow(q, q * d, d);
  }

  lemma MulNonNegSquare(x: int)
    ensures 0 <= x * x
  {
  }
}
