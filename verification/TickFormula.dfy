/** The price table follows its formula: one tick is a price ratio of 1.0001, so 512 ticks are a square-root
    price ratio of 1.0001 to the power of 256 (Contracts/contracts/amm/src/pool.rs). */
module TickFormula {
  import opened Arith
  import opened TickMath

  function Power(x: real, n: nat): (r: real) {
    if n == 0 then 1.0 else x * Power(x, n - 1)
  }

  lemma {:induction false} PowerAdds(x: real, m: nat, n: nat)
    ensures Power(x, m + n) == Power(x, m) * Power(x, n)
  {
    if m > 0 {
      PowerAdds(x, m - 1, n);
      assert Power(x, m + n) == x * Power(x, (m - 1) + n);
    }
  }

  /** Bounds of a power give bounds of its square. */
  lemma Squared(n: nat, low: real, high: real, lowSquare: real, highSquare: real)
    requires 0.0 < low <= Power(1.0001, n) <= high
    requires lowSquare <= low * low && high * high <= highSquare
    ensures lowSquare <= Power(1.0001, 2 * n) <= highSquare
  {
    PowerAdds(1.0001, n, n);
    var p := Power(1.0001, n);
    assert low * low <= low * p <= p * p <= high * p <= high * high;
  }

  lemma FirstPower()
    ensures Power(1.0001, 1) == 1.0001
  {
    assert Power(1.0001, 1) == 1.0001 * Power(1.0001, 0);
  }

  const LOW: real := 1.0259291810877293436564
  const HIGH: real := 1.0259291810877293436628

  /** 1.0001 to the power of 256, to twenty digits. */
  lemma Ratio()
    ensures LOW <= Power(1.0001, 256) <= HIGH
  {
    hide Power;
    FirstPower();
    Squared(1, 1.0001, 1.0001, 1.0002000100000000000000, 1.0002000100000000000000);
    Squared(2, 1.0002000100000000000000, 1.0002000100000000000000, 1.0004000600040001000000, 1.0004000600040001000000);
    Squared(4, 1.0004000600040001000000, 1.0004000600040001000000, 1.0008002800560070005600, 1.0008002800560070005601);
    Squared(8, 1.0008002800560070005600, 1.0008002800560070005601, 1.0016012005601820436879, 1.0016012005601820436882);
    Squared(16, 1.0016012005601820436879, 1.0016012005601820436882, 1.0032049649635980146663, 1.0032049649635980146670);
    Squared(32, 1.0032049649635980146663, 1.0032049649635980146670, 1.0064202017276139201560, 1.0064202017276139201575);
    Squared(64, 1.0064202017276139201560, 1.0064202017276139201575, 1.0128816224454510970770, 1.0128816224454510970801);
    Squared(128, 1.0128816224454510970770, 1.0128816224454510970801, LOW, HIGH);
  }

  lemma SegmentRatio(k: nat)
    requires k < 32
    ensures 0 < PriceEntry(k) && PriceEntry(k) % 2048 == 0 == PriceEntry(k + 1) % 2048
    ensures PriceEntry(k) as real * (LOW * 0.9999999999999916) <= PriceEntry(k + 1) as real
    ensures PriceEntry(k + 1) as real <= PriceEntry(k) as real * (HIGH * 0.99999999999999205)
  {
  }

  /** The table starts from a price of one at tick 0, and from each entry to the next, 512 ticks later, the
      square-root price grows by the ratio of the formula, short of it by about eight parts in 10^15. The
      entries are double-precision numbers: multiples of 2048. */
  lemma TableFollowsFormula(k: nat)
    requires k < 32
    ensures PriceEntry(16) == Q64 && TickEntry(16) == 0 && PriceEntry(k) % 2048 == 0 == PriceEntry(k + 1) % 2048
    ensures var ratio := Power(1.0001, 256);
            && PriceEntry(k) as real * (ratio * 0.9999999999999915) <= PriceEntry(k + 1) as real
            && PriceEntry(k + 1) as real <= PriceEntry(k) as real * (ratio * 0.9999999999999921)
  {
    Ratio();
    hide Power;
    SegmentRatio(k);
    Middle();
    hide PriceEntry, TickEntry;
    var ratio := Power(1.0001, 256);
    Times(PriceEntry(k) as real, ratio * 0.9999999999999915, LOW * 0.9999999999999916);
    Times(PriceEntry(k) as real, HIGH * 0.99999999999999205, ratio * 0.9999999999999921);
  }

  lemma Middle()
    ensures PriceEntry(16) == Q64 && TickEntry(16) == 0
  {
  }

  lemma Times(x: real, a: real, b: real)
    requires 0.0 < x && a <= b
    ensures x * a <= x * b
  {
  }
}
