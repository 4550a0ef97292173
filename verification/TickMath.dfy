/** Ticks and square-root prices: linear interpolation in a 33-entry table and its inverse
    (Contracts/contracts/amm/src/pool.rs). */
module TickMath {
  import opened Arith
  import opened Wrappers

  const MIN_TICK: int := -8192
  const MAX_TICK: int := 8192

  /** (tick, square-root price scaled by 2^64), every 512 ticks. */
  const TICK_SQRT_TABLE: seq<(int, int)> := [
    (-8192, 12_247_334_978_884_438_016),
    (-7680, 12_564_898_345_393_909_760),
    (-7168, 12_890_695_869_940_434_944),
    (-6656, 13_224_941_057_498_855_424),
    (-6144, 13_567_852_949_053_179_904),
    (-5632, 13_919_656_265_140_750_336),
    (-5120, 14_280_581_553_118_414_848),
    (-4608, 14_650_865_338_247_188_480),
    (-4096, 15_030_750_278_694_412_288),
    (-3584, 15_420_485_324_554_993_664),
    (-3072, 15_820_325_880_995_923_968),
    (-2560, 16_230_533_975_631_024_128),
    (-2048, 16_651_378_430_235_568_128),
    (-1536, 17_083_135_036_913_317_888),
    (-1024, 17_526_086_738_831_433_728),
    (-512, 17_980_523_815_641_698_304),
    (0, 18_446_744_073_709_551_616),
    (512, 18_925_053_041_275_609_088),
    (1024, 19_415_764_168_677_568_512),
    (1536, 19_919_199_033_763_692_544),
    (2048, 20_435_687_552_632_508_416),
    (2560, 20_965_568_195_836_801_024),
    (3072, 21_509_188_210_193_616_896),
    (3584, 22_066_903_846_345_601_024),
    (4096, 22_639_080_592_222_822_400),
    (4608, 23_226_093_412_558_073_856),
    (5120, 23_828_326_994_612_617_216),
    (5632, 24_446_176_000_273_354_752),
    (6144, 25_080_045_324_686_745_600),
    (6656, 25_730_350_361_598_795_776),
    (7168, 26_397_517_275_575_197_696),
    (7680, 27_081_983_281_279_832_064),
    (8192, 27_784_196_929_994_764_288)
  ]

  const MIN_SQRT: int := 12_247_334_978_884_438_016
  const MAX_SQRT: int := 27_784_196_929_994_764_288

  function TickEntry(k: nat): (t: int)
    requires k <= 32
  {
    TICK_SQRT_TABLE[k].0
  }

  function PriceEntry(k: nat): (s: int)
    requires k <= 32
  {
    TICK_SQRT_TABLE[k].1
  }

  /** What the proofs use of the table: evenly spaced ticks, prices that increase strictly and
      differ by a multiple of 512. */
  lemma TableFacts(k: nat)
    requires k < 32
    ensures TickEntry(k) == MIN_TICK + 512 * k
    ensures TickEntry(k + 1) == MIN_TICK + 512 * (k + 1)
    ensures PriceEntry(k) < PriceEntry(k + 1)
    ensures (PriceEntry(k + 1) - PriceEntry(k)) % 512 == 0
    ensures k == 0 ==> PriceEntry(k) == MIN_SQRT
    ensures k == 31 ==> PriceEntry(k + 1) == MAX_SQRT
  {
    hide TickEntry, PriceEntry;
    TickFacts(k);
    TickFacts(k + 1);
    PriceFacts(k);
    PriceEnds();
  }

  lemma TickFacts(k: nat)
    requires k <= 32
    ensures TickEntry(k) == MIN_TICK + 512 * k
  {
  }

  lemma PriceFacts(k: nat)
    requires k < 32
    ensures PriceEntry(k) < PriceEntry(k + 1)
    ensures (PriceEntry(k + 1) - PriceEntry(k)) % 512 == 0
  {
  }

  lemma PriceEnds()
    ensures PriceEntry(0) == MIN_SQRT && PriceEntry(32) == MAX_SQRT
  {
  }

  /** The tick range is an inclusive interval; everything outside is an invalid tick range. */
  predicate ValidTick(tick: int) {
    MIN_TICK <= tick <= MAX_TICK
  }

  /** tick_to_sqrt_price on a valid tick. */
  function SqrtAt(tick: int): (r: int)
    requires ValidTick(tick)
  {
    var k := Min((tick - MIN_TICK) / 512, 31);
    TableFacts(k);
    PriceEntry(k) + Quot((PriceEntry(k + 1) - PriceEntry(k)) * (tick - TickEntry(k)), TickEntry(k + 1) - TickEntry(k))
  }

  /** tick_to_sqrt_price: None stands for the InvalidTickRange error. */
  function TickToSqrtPrice(tick: int): (r: Option<int>) {
    if tick < MIN_TICK || tick > MAX_TICK then None else Some(SqrtAt(tick))
  }

  /** The price gained per tick inside table segment k. */
  function Slope(k: nat): (d: int)
    requires k < 32
    ensures 0 < d
    ensures PriceEntry(k + 1) - PriceEntry(k) == d * 512
  {
    TableFacts(k);
    (PriceEntry(k + 1) - PriceEntry(k)) / 512
  }

  lemma Interpolate(tick: int, k: nat, j: nat)
    requires ValidTick(tick) && k < 32
    requires tick == MIN_TICK + 512 * k + j && (j < 512 || (j == 512 && k == 31))
    ensures SqrtAt(tick) == PriceEntry(k) + Quot(Slope(k) * 512 * j, 512)
  {
    hide PriceEntry, TickEntry, Slope;
    TableFacts(k);
    assert Min((tick - MIN_TICK) / 512, 31) == k;
  }

  /** Interpolation is exact: no price is lost to rounding, at either end of a segment. */
  lemma SqrtOnSegment(k: nat, j: nat)
    requires k < 32 && j <= 512
    ensures SqrtAt(MIN_TICK + 512 * k + j) == PriceEntry(k) + Slope(k) * j
  {
    hide SqrtAt, PriceEntry, Slope;
    if j < 512 || k == 31 {
      Interpolate(MIN_TICK + 512 * k + j, k, j);
      assert Slope(k) * 512 * j == Slope(k) * j * 512;
      MulNonNeg(Slope(k), j);
      ExactDivision(Slope(k) * j, 512);
    } else {
      Interpolate(MIN_TICK + 512 * k + j, k + 1, 0);
    }
  }

  lemma SqrtStep(tick: int)
    requires MIN_TICK <= tick < MAX_TICK
    ensures SqrtAt(tick) < SqrtAt(tick + 1)
  {
    hide SqrtAt, PriceEntry, Slope;
    var k, j := (tick - MIN_TICK) / 512, (tick - MIN_TICK) % 512;
    SqrtOnSegment(k, j);
    SqrtOnSegment(k, j + 1);
    assert Slope(k) * (j + 1) == Slope(k) * j + Slope(k);
  }

  /** tick_to_sqrt_price is strictly increasing over all ticks. */
  lemma {:induction false} SqrtStrictlyIncreasing(lo: int, hi: int)
    requires MIN_TICK <= lo < hi <= MAX_TICK
    ensures SqrtAt(lo) < SqrtAt(hi)
    decreases hi - lo
  {
    hide SqrtAt;
    SqrtStep(hi - 1);
    if lo < hi - 1 {
      SqrtStrictlyIncreasing(lo, hi - 1);
    }
  }

  lemma SqrtRange(tick: int)
    requires ValidTick(tick)
    ensures MIN_SQRT <= SqrtAt(tick) <= MAX_SQRT
    ensures SqrtAt(MIN_TICK) == MIN_SQRT && SqrtAt(MAX_TICK) == MAX_SQRT
  {
    hide SqrtAt, PriceEntry, Slope;
    TableFacts(0);
    TableFacts(31);
    SqrtOnSegment(0, 0);
    SqrtOnSegment(31, 512);
    if MIN_TICK < tick {
      SqrtStrictlyIncreasing(MIN_TICK, tick);
    }
    if tick < MAX_TICK {
      SqrtStrictlyIncreasing(tick, MAX_TICK);
    }
  }

  /** The greatest tick at or below `top` whose price does not exceed p, or MIN_TICK. */
  function GreatestTickUpTo(p: int, top: int): (t: int)
    requires ValidTick(top)
    ensures MIN_TICK <= t <= top
    decreases top - MIN_TICK
  {
    if top == MIN_TICK || SqrtAt(top) <= p then top else GreatestTickUpTo(p, top - 1)
  }

  lemma {:induction false} GreatestTickIsFloor(p: int, top: int)
    requires ValidTick(top)
    ensures var t := GreatestTickUpTo(p, top);
            (t == MIN_TICK || SqrtAt(t) <= p) && (t < top ==> p < SqrtAt(t + 1))
    decreases top - MIN_TICK
  {
    hide SqrtAt;
    if top != MIN_TICK && SqrtAt(top) > p {
      GreatestTickIsFloor(p, top - 1);
    }
  }

  /** Reference definition of the tick of a price: the floor, clamped to the tick range. */
  function FloorTick(p: int): (t: int)
    ensures ValidTick(t)
  {
    GreatestTickUpTo(p, MAX_TICK)
  }

  /** p lies in the half-open price interval of tick t (closed at the top tick). */
  predicate InTick(p: int, t: int)
    requires ValidTick(t)
  {
    SqrtAt(t) <= p && (t < MAX_TICK ==> p < SqrtAt(t + 1))
  }

  /** The floor tick is the only tick whose price interval holds p. */
  lemma FloorTickUnique(p: int, t: int)
    requires ValidTick(t) && MIN_SQRT <= p
    ensures t == FloorTick(p) <==> InTick(p, t)
  {
    hide SqrtAt;
    var f := FloorTick(p);
    GreatestTickIsFloor(p, MAX_TICK);
    SqrtRange(f);
    if InTick(p, t) {
      if t + 1 < f {
        SqrtStrictlyIncreasing(t + 1, f);
      } else if f + 1 < t {
        SqrtStrictlyIncreasing(f + 1, t);
      }
    }
  }

  lemma FloorTickBelowTable(p: int)
    requires p < MIN_SQRT
    ensures FloorTick(p) == MIN_TICK
  {
    hide SqrtAt;
    GreatestTickIsFloor(p, MAX_TICK);
    SqrtRange(FloorTick(p));
  }

  /** Converting a tick to a price and back loses nothing. */
  lemma TickRoundTrip(t: int)
    requires ValidTick(t)
    ensures FloorTick(SqrtAt(t)) == t
  {
    hide SqrtAt, FloorTick;
    SqrtRange(t);
    if t < MAX_TICK {
      SqrtStep(t);
    }
    FloorTickUnique(SqrtAt(t), t);
  }

  /** Scaling numerator and divisor alike does not change a floor. */
  lemma FloorScaled(x: int, d: int)
    requires 0 < d
    ensures x * 512 / (d * 512) == x / d
  {
    var j := x / d;
    FloorBounds(x, d);
    assert j * (d * 512) == j * d * 512;
    FloorGreatest(j, x * 512, d * 512);
    assert (j + 1) * (d * 512) == (j * d + d) * 512;
    FloorBelow(j, x * 512, d * 512);
  }

  /** Within segment k, the interpolated fraction is the floor of the distance over the slope. */
  lemma SegmentFraction(k: nat, p: int)
    requires k < 32
    requires PriceEntry(k) <= p < PriceEntry(k + 1)
    ensures FloorTick(p) == MIN_TICK + 512 * k + (p - PriceEntry(k)) * 512 / (PriceEntry(k + 1) - PriceEntry(k))
  {
    hide SqrtAt, PriceEntry, TickEntry, Slope, FloorTick;
    var d, x := Slope(k), p - PriceEntry(k);
    var j := x / d;
    FloorScaled(x, d);
    FloorBounds(x, d);
    FloorNonNeg(x, d);
    FloorBelow(511, x, d);
    SqrtOnSegment(k, j);
    SqrtOnSegment(k, j + 1);
    assert d * (j + 1) == j * d + d && d * j == j * d;
    SqrtRange(MIN_TICK + 512 * k);
    SqrtOnSegment(k, 0);
    FloorTickUnique(p, MIN_TICK + 512 * k + j);
  }

  /** sqrt_price_to_tick: the table scan computes the floor tick of every price, whether it lies
      below, inside or above the table. */
  method SqrtPriceToTick(sqrtPrice: int) returns (tick: int)
    ensures ValidTick(tick) && tick == FloorTick(sqrtPrice)
    ensures MIN_SQRT <= sqrtPrice ==> InTick(sqrtPrice, tick)
  {
    hide SqrtAt, FloorTick;
    hide PriceEntry, TickEntry;
    TableFacts(0);
    for i := 0 to 32
      invariant sqrtPrice < MIN_SQRT || PriceEntry(i) <= sqrtPrice
      invariant sqrtPrice < MIN_SQRT ==> sqrtPrice < PriceEntry(i)
    {
      TableFacts(i);
      var (t0, s0) := (TickEntry(i), PriceEntry(i));
      var s1 := PriceEntry(i + 1);
      if s0 <= sqrtPrice < s1 {
        SegmentFraction(i, sqrtPrice);
        tick := t0 + (sqrtPrice - s0) * 512 / Max(s1 - s0, 1);
        FloorTickUnique(sqrtPrice, tick);
        return;
      }
    }
    TableFacts(31);
    SqrtRange(MIN_TICK);
    if sqrtPrice <= PriceEntry(0) {
      tick := MIN_TICK;
    } else {
      tick := MAX_TICK;
    }
    if sqrtPrice < MIN_SQRT {
      FloorTickBelowTable(sqrtPrice);
    } else {
      SqrtStep(MIN_TICK);
      FloorTickUnique(sqrtPrice, tick);
    }
  }
}
