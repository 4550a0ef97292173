/** Whole runs of a pool: swaps, accruals, fee collections, deposits and removals. The fees credited never
    exceed the fees paid (Contracts/contracts/amm/src/lib.rs). */
module FeeRun {
  import opened Arith
  import opened Wrappers
  import opened TickMath
  import opened LiquidityMath
  import opened SwapMath
  import opened FeeGrowth
  import opened AmmPool
  import opened AmmLiquidity
  import opened ILHedge

  datatype Token = A | B

  /** The pool, its positions, and running totals per token: the fees paid in by traders, the fees
      already paid out to owners, and the fees that were owed to positions when they were deleted. */
  datatype Ledger = Ledger(
    pool: Pool,
    positions: seq<Position>,
    feesA: int, feesB: int,
    paidA: int, paidB: int,
    lostA: int, lostB: int)

  datatype Event =
    | Swap(zeroForOne: bool, amountIn: int, minOut: int)
    | AccrueFees(index: nat)
    | CollectFees(index: nat)
    | AddLiquidity(owner: Address, lower: int, upper: int, desiredA: int, desiredB: int, minA: int, minB: int)
    | RemoveLiquidity(index: nat, removed: int, minA: int, minB: int)

  function Start(pool: Pool, positions: seq<Position>): (l: Ledger) {
    Ledger(pool, positions, 0, 0, 0, 0, 0, 0)
  }

  function Owed(pos: Position, t: Token): (r: int) {
    if t.A? then pos.owedA else pos.owedB
  }

  function Last(pos: Position, t: Token): (r: int) {
    if t.A? then pos.insideALast else pos.insideBLast
  }

  function Inside(p: Pool, pos: Position, t: Token): (r: int) {
    InsideOf(p, pos.tickLower, pos.tickUpper, t)
  }

  function InsideOf(p: Pool, lower: int, upper: int, t: Token): (r: int) {
    if t.A? then p.InsideA(lower, upper) else p.InsideB(lower, upper)
  }

  function Fees(l: Ledger, t: Token): (r: int) {
    if t.A? then l.feesA else l.feesB
  }

  function Paid(l: Ledger, t: Token): (r: int) {
    if t.A? then l.paidA else l.paidB
  }

  function Lost(l: Ledger, t: Token): (r: int) {
    if t.A? then l.lostA else l.lostB
  }

  /** One event; an event that fails leaves everything as it was. */
  function Step(l: Ledger, e: Event): (r: Ledger)
    requires l.pool.Valid()
    ensures r.pool.Valid()
  {
    match e
    case Swap(zeroForOne, amountIn, minOut) =>
      var s := SwapPool(l.pool, zeroForOne, amountIn, minOut);
      if s.Err? then l
      else
        SwapStepsOneTick(l.pool, zeroForOne, amountIn, minOut);
        var (q, step) := s.value;
        l.(pool := q,
           feesA := l.feesA + (if zeroForOne then step.feePaid else 0),
           feesB := l.feesB + (if zeroForOne then 0 else step.feePaid))
    case AccrueFees(i) =>
      var next := Accrued(l, i);
      if next.None? then l else l.(positions := l.positions[i := next.value])
    case CollectFees(i) =>
      var next := Accrued(l, i);
      if next.None? then l
      else
        var pos := next.value;
        l.(positions := l.positions[i := pos.(owedA := if pos.owedA > 0 then 0 else pos.owedA,
                                              owedB := if pos.owedB > 0 then 0 else pos.owedB)],
           paidA := l.paidA + Max(pos.owedA, 0),
           paidB := l.paidB + Max(pos.owedB, 0))
    case AddLiquidity(owner, lower, upper, desiredA, desiredB, minA, minB) =>
      var d := AddToPool(l.pool, owner, lower, upper, desiredA, desiredB, minA, minB);
      if d.Err? then l
      else
        DepositIsSound(l.pool, owner, lower, upper, desiredA, desiredB, minA, minB);
        l.(pool := d.value.pool, positions := l.positions + [d.value.position])
    case RemoveLiquidity(i, removed, minA, minB) =>
      if i >= |l.positions| then l
      else
        var r := RemoveFromPool(l.pool, l.positions[i], removed, minA, minB);
        if r.Err? then l
        else
          RemovalIsSound(l.pool, l.positions[i], removed, minA, minB);
          Burned(l.(pool := r.value.pool), i, r.value.position)
  }

  /** A position without liquidity is deleted, together with whatever it is still owed. */
  function Burned(l: Ledger, i: nat, pos: Position): (r: Ledger)
    requires i < |l.positions|
    ensures r.pool == l.pool
  {
    if pos.liquidity == 0 then
      l.(positions := l.positions[..i] + l.positions[i + 1..],
         lostA := l.lostA + pos.owedA,
         lostB := l.lostB + pos.owedB)
    else
      l.(positions := l.positions[i := pos])
  }

  /** Position i after accruing, if there is such a position and the arithmetic fits. */
  function Accrued(l: Ledger, i: nat): (r: Option<Position>)
    ensures r.Some? ==> i < |l.positions|
  {
    if i >= |l.positions| then None
    else
      var pos := l.positions[i];
      var c := Accrue(pos, Inside(l.pool, pos, A), Inside(l.pool, pos, B));
      if c.Value? then Some(c.value) else None
  }

  /** Liquidity of the positions whose range holds the tick. */
  function Covering(ps: seq<Position>, tick: int): (r: int) {
    if ps == [] then 0
    else (if ps[0].tickLower <= tick < ps[0].tickUpper then ps[0].liquidity else 0) + Covering(ps[1..], tick)
  }

  /** Scaled value of a position in token t: what it is owed plus what it has yet to accrue. */
  function Weight(p: Pool, pos: Position, t: Token): (r: int) {
    Q64 * Owed(pos, t) + pos.liquidity * (Inside(p, pos, t) - Last(pos, t))
  }

  function TotalWeight(p: Pool, ps: seq<Position>, t: Token): (r: int) {
    if ps == [] then 0 else Weight(p, ps[0], t) + TotalWeight(p, ps[1..], t)
  }

  function TotalOwed(ps: seq<Position>, t: Token): (r: int) {
    if ps == [] then 0 else Owed(ps[0], t) + TotalOwed(ps[1..], t)
  }

  ghost predicate SoundPosition(p: Pool, pos: Position, t: Token) {
    && pos.tickLower < pos.tickUpper && 0 <= pos.liquidity
    && 0 <= Owed(pos, t) && Last(pos, t) <= Inside(p, pos, t)
  }

  ghost predicate Sound(l: Ledger, t: Token) {
    && l.pool.Valid()
    && (forall i :: 0 <= i < |l.positions| ==> SoundPosition(l.pool, l.positions[i], t))
    && TotalWeight(l.pool, l.positions, t) + Q64 * (Paid(l, t) + Lost(l, t)) <= Q64 * Fees(l, t)
  }

  /** The hypothesis of the run theorem: whenever a swap succeeds, the positions covering the tick
      it ends in do not sum to more than the pool's liquidity. */
  ghost predicate NeverOverstated(l: Ledger, events: seq<Event>)
    requires l.pool.Valid()
    decreases |events|
  {
    events == [] ||
    (var next := Step(l, events[0]);
     && (events[0].Swap? && next.pool != l.pool ==>
           Covering(l.positions, next.pool.currentTick) <= l.pool.liquidity)
     && NeverOverstated(next, events[1..]))
  }

  function Run(l: Ledger, events: seq<Event>): (r: Ledger)
    requires l.pool.Valid()
    ensures r.pool.Valid()
    decreases |events|
  {
    if events == [] then l else Run(Step(l, events[0]), events[1..])
  }

  lemma {:induction false} SwapWeighs(p: Pool, q: Pool, ps: seq<Position>, t: Token, inc: int)
    requires forall i :: 0 <= i < |ps| ==> ps[i].tickLower < ps[i].tickUpper
    requires forall i :: 0 <= i < |ps| ==>
               Inside(q, ps[i], t)
               == Inside(p, ps[i], t) + (if q.InRange(ps[i].tickLower, ps[i].tickUpper) then inc else 0)
    ensures TotalWeight(q, ps, t) == TotalWeight(p, ps, t) + inc * Covering(ps, q.currentTick)
  {
    if ps != [] {
      hide Weight, Inside;
      SwapWeighs(p, q, ps[1..], t, inc);
      var held := if q.InRange(ps[0].tickLower, ps[0].tickUpper) then ps[0].liquidity else 0;
      WeightGain(p, q, ps[0], t, if q.InRange(ps[0].tickLower, ps[0].tickUpper) then inc else 0);
      Distribute(inc, held, Covering(ps[1..], q.currentTick));
    }
  }

  lemma WeightGain(p: Pool, q: Pool, pos: Position, t: Token, gain: int)
    requires Inside(q, pos, t) == Inside(p, pos, t) + gain
    ensures Weight(q, pos, t) == Weight(p, pos, t) + gain * pos.liquidity
  {
    hide Inside;
    Distribute(pos.liquidity, Inside(p, pos, t) - Last(pos, t), gain);
  }

  lemma {:induction false} ReplaceWeighs(p: Pool, ps: seq<Position>, i: nat, pos: Position, t: Token)
    requires i < |ps|
    ensures TotalWeight(p, ps[i := pos], t) == TotalWeight(p, ps, t) - Weight(p, ps[i], t) + Weight(p, pos, t)
  {
    if i == 0 {
      assert ps[i := pos][1..] == ps[1..];
    } else {
      assert ps[i := pos][1..] == ps[1..][i - 1 := pos];
      ReplaceWeighs(p, ps[1..], i - 1, pos, t);
    }
  }

  lemma SwapKeepsSound(l: Ledger, e: Event, t: Token)
    requires Sound(l, t) && e.Swap?
    requires var next := Step(l, e);
             next.pool != l.pool ==> Covering(l.positions, next.pool.currentTick) <= l.pool.liquidity
    ensures Sound(Step(l, e), t)
  {
    hide SwapPool, Pool.Valid, Growth.Inside, Q64;
    var s := SwapPool(l.pool, e.zeroForOne, e.amountIn, e.minOut);
    if s.Ok? {
      var (q, step) := s.value;
      SwapStepsOneTick(l.pool, e.zeroForOne, e.amountIn, e.minOut);
      var earns := e.zeroForOne == t.A?;
      var inc := if earns then SwapIncrement(l.pool, step) else 0;
      forall i | 0 <= i < |l.positions|
        ensures Inside(q, l.positions[i], t) == Inside(l.pool, l.positions[i], t)
                + (if q.InRange(l.positions[i].tickLower, l.positions[i].tickUpper) then inc else 0)
      {
        assert SoundPosition(l.pool, l.positions[i], t);
        SwapFeesGoToEndTick(l.pool, e.zeroForOne, e.amountIn, e.minOut,
                            l.positions[i].tickLower, l.positions[i].tickUpper);
      }
      SwapWeighs(l.pool, q, l.positions, t, inc);
      assert inc * Covering(l.positions, q.currentTick) <= (if earns then step.feePaid * Q64 else 0) by {
        if earns && q != l.pool {
          MulMono(Covering(l.positions, q.currentTick), l.pool.liquidity, inc);
        } else if earns {
          assert inc == 0;
        }
      }
      assert Q64 * (Fees(l, t) + step.feePaid) == Q64 * Fees(l, t) + step.feePaid * Q64;
    }
  }

  /** Accruing keeps a position sound and never raises its weight. */
  lemma AccrueKeepsWeight(l: Ledger, i: nat, t: Token)
    requires Sound(l, t) && Accrued(l, i).Some?
    ensures var pos := Accrued(l, i).value;
            SoundPosition(l.pool, pos, t) && Weight(l.pool, pos, t) <= Weight(l.pool, l.positions[i], t)
  {
    hide Credit, Pool.Valid, Growth.Inside;
    var was := l.positions[i];
    var pos := Accrued(l, i).value;
    assert SoundPosition(l.pool, was, t);
    assert Inside(l.pool, pos, t) == Inside(l.pool, was, t) == Last(pos, t);
    CreditBelowGrowth(was.liquidity, Last(was, t), Inside(l.pool, was, t), Owed(was, t));
  }

  lemma AccrualKeepsSound(l: Ledger, e: Event, t: Token)
    requires Sound(l, t) && (e.AccrueFees? || e.CollectFees?)
    ensures Sound(Step(l, e), t)
  {
    hide Accrued, Pool.Valid, Inside, TotalWeight;
    if Accrued(l, e.index).Some? {
      AccrueKeepsWeight(l, e.index, t);
      var pos := Accrued(l, e.index).value;
      var kept := Step(l, e).positions[e.index];
      InsideIgnoresOwed(l.pool, pos, kept, t);
      assert SoundPosition(l.pool, kept, t);
      ReplaceWeighs(l.pool, l.positions, e.index, kept, t);
      assert Weight(l.pool, kept, t) + Q64 * (Paid(Step(l, e), t) - Paid(l, t)) == Weight(l.pool, pos, t);
    }
  }

  lemma InsideIgnoresOwed(p: Pool, x: Position, y: Position, t: Token)
    requires x.tickLower == y.tickLower && x.tickUpper == y.tickUpper
    ensures Inside(p, x, t) == Inside(p, y, t)
  {
  }

  /** Growth accounting and current tick are the same. */
  ghost predicate SameGrowth(p: Pool, q: Pool) {
    p.a == q.a && p.b == q.b && p.currentTick == q.currentTick
  }

  lemma {:induction false} SameGrowthWeighs(p: Pool, q: Pool, ps: seq<Position>, t: Token)
    requires SameGrowth(p, q)
    ensures TotalWeight(q, ps, t) == TotalWeight(p, ps, t)
    ensures forall i :: 0 <= i < |ps| ==> Inside(q, ps[i], t) == Inside(p, ps[i], t)
  {
    hide Growth.Inside;
    if ps != [] {
      SameGrowthWeighs(p, q, ps[1..], t);
    }
  }

  lemma {:induction false} ConcatWeighs(p: Pool, ps: seq<Position>, qs: seq<Position>, t: Token)
    ensures TotalWeight(p, ps + qs, t) == TotalWeight(p, ps, t) + TotalWeight(p, qs, t)
  {
    hide Weight;
    if ps == [] {
      assert ps + qs == qs;
    } else {
      assert (ps + qs)[1..] == ps[1..] + qs;
      ConcatWeighs(p, ps[1..], qs, t);
    }
  }

  lemma OneWeighs(p: Pool, pos: Position, t: Token)
    ensures TotalWeight(p, [pos], t) == Weight(p, pos, t)
  {
    assert TotalWeight(p, [pos][1..], t) == 0;
  }

  /** A new position weighs nothing. */
  lemma MintKeepsSound(l: Ledger, e: Event, t: Token)
    requires Sound(l, t) && e.AddLiquidity?
    ensures Sound(Step(l, e), t)
  {
    hide TotalWeight, Pool.Valid;
    var d := AddToPool(l.pool, e.owner, e.lower, e.upper, e.desiredA, e.desiredB, e.minA, e.minB);
    if d.Ok? {
      MintedFresh(l.pool, e, t);
      hide AddToPool, Inside;
      var pos := d.value.position;
      SameGrowthWeighs(l.pool, d.value.pool, l.positions, t);
      ConcatWeighs(d.value.pool, l.positions, [pos], t);
      OneWeighs(d.value.pool, pos, t);
      forall i | 0 <= i < |l.positions| ensures SoundPosition(d.value.pool, l.positions[i], t) {
        assert SoundPosition(l.pool, l.positions[i], t);
      }
    }
  }

  lemma MintedFresh(p: Pool, e: Event, t: Token)
    requires p.Valid() && e.AddLiquidity?
    requires AddToPool(p, e.owner, e.lower, e.upper, e.desiredA, e.desiredB, e.minA, e.minB).Ok?
    ensures var d := AddToPool(p, e.owner, e.lower, e.upper, e.desiredA, e.desiredB, e.minA, e.minB).value;
            && SameGrowth(p, d.pool) && d.pool.Valid()
            && SoundPosition(d.pool, d.position, t) && Weight(d.pool, d.position, t) == 0
  {
    hide AddToPool, Pool.Valid, Growth.Inside, Accrue, SqrtAt, LiquidityFromAmounts, AmountsForLiquidity, Weight;
    DepositIsSound(p, e.owner, e.lower, e.upper, e.desiredA, e.desiredB, e.minA, e.minB);
    MintShape(p, e);
    var d := AddToPool(p, e.owner, e.lower, e.upper, e.desiredA, e.desiredB, e.minA, e.minB).value;
    FreshWeight(d.pool, d.position, t);
  }

  lemma FreshWeight(p: Pool, pos: Position, t: Token)
    requires Owed(pos, t) == 0 && Last(pos, t) == Inside(p, pos, t)
    ensures Weight(p, pos, t) == 0
  {
    hide Inside;
  }

  lemma MintShape(p: Pool, e: Event)
    requires e.AddLiquidity?
    requires AddToPool(p, e.owner, e.lower, e.upper, e.desiredA, e.desiredB, e.minA, e.minB).Ok?
    ensures var d := AddToPool(p, e.owner, e.lower, e.upper, e.desiredA, e.desiredB, e.minA, e.minB).value;
            && SameGrowth(p, d.pool)
            && d.position == Position(e.owner, e.lower, e.upper, d.position.liquidity,
                                      p.InsideA(e.lower, e.upper), p.InsideB(e.lower, e.upper), 0, 0)
  {
    hide Growth.Inside, MintQuote;
  }

  /** A removal accrues the position and takes its liquidity away afterwards, which weighs nothing. */
  lemma BurnKeepsSound(l: Ledger, e: Event, t: Token)
    requires Sound(l, t) && e.RemoveLiquidity?
    ensures Sound(Step(l, e), t)
  {
    hide TotalWeight, Pool.Valid, Inside, Weight, RemoveFromPool, Burned, Q64;
    if e.index < |l.positions| && RemoveFromPool(l.pool, l.positions[e.index], e.removed, e.minA, e.minB).Ok? {
      var was := l.positions[e.index];
      var r := RemoveFromPool(l.pool, was, e.removed, e.minA, e.minB).value;
      RemovalIsSound(l.pool, was, e.removed, e.minA, e.minB);
      RemovalAccrues(l, e, t);
      SameGrowthWeighs(l.pool, r.pool, l.positions, t);
      var moved := l.(pool := r.pool);
      forall i | 0 <= i < |l.positions| ensures SoundPosition(r.pool, l.positions[i], t) {
        assert SoundPosition(l.pool, l.positions[i], t);
      }
      BurnedKeepsSound(moved, e.index, r.position, t);
    }
  }

  lemma BurnedKeepsSound(l: Ledger, i: nat, pos: Position, t: Token)
    requires Sound(l, t) && i < |l.positions| && SoundPosition(l.pool, pos, t)
    requires Weight(l.pool, pos, t) == Q64 * Owed(pos, t) && Weight(l.pool, pos, t) <= Weight(l.pool, l.positions[i], t)
    ensures Sound(Burned(l, i, pos), t)
  {
    hide TotalWeight, Pool.Valid, Inside, Weight, Q64;
    if pos.liquidity == 0 {
      DropWeighs(l.pool, l.positions, i, t);
      Distribute(Q64, Paid(l, t) + Lost(l, t), Owed(pos, t));
    } else {
      ReplaceWeighs(l.pool, l.positions, i, pos, t);
    }
  }

  lemma DropWeighs(p: Pool, ps: seq<Position>, i: nat, t: Token)
    requires i < |ps|
    ensures TotalWeight(p, ps[..i] + ps[i + 1..], t) == TotalWeight(p, ps, t) - Weight(p, ps[i], t)
  {
    hide TotalWeight, Weight;
    assert ps == ps[..i] + ([ps[i]] + ps[i + 1..]);
    ConcatWeighs(p, ps[..i], [ps[i]] + ps[i + 1..], t);
    ConcatWeighs(p, [ps[i]], ps[i + 1..], t);
    ConcatWeighs(p, ps[..i], ps[i + 1..], t);
    OneWeighs(p, ps[i], t);
  }

  lemma RemovalAccrues(l: Ledger, e: Event, t: Token)
    requires Sound(l, t) && e.RemoveLiquidity? && e.index < |l.positions|
    requires RemoveFromPool(l.pool, l.positions[e.index], e.removed, e.minA, e.minB).Ok?
    ensures var was := l.positions[e.index];
            var r := RemoveFromPool(l.pool, was, e.removed, e.minA, e.minB).value;
            && SameGrowth(l.pool, r.pool) && SoundPosition(r.pool, r.position, t)
            && Weight(r.pool, r.position, t) == Q64 * Owed(r.position, t)
            && Weight(r.pool, r.position, t) <= Weight(r.pool, was, t)
  {
    hide Pool.Valid, Inside, RemoveFromPool, Accrued, Weight, Sound;
    var was := l.positions[e.index];
    var r := RemoveFromPool(l.pool, was, e.removed, e.minA, e.minB).value;
    SoundIsValid(l, t);
    AccruedByRemoval(l, e);
    AccrueKeepsWeight(l, e.index, t);
    var pos := Accrued(l, e.index).value;
    InsideIgnoresOwed(l.pool, was, pos, t);
    SettledWeight(l.pool, r.pool, pos, r.position, t);
    SameGrowthWeighs(l.pool, r.pool, [was], t);
    OneWeighs(l.pool, was, t);
    OneWeighs(r.pool, was, t);
  }

  lemma SoundIsValid(l: Ledger, t: Token)
    requires Sound(l, t)
    ensures l.pool.Valid()
  {
  }

  /** A position that has just accrued weighs what it is owed, whatever its liquidity. */
  lemma SettledWeight(p: Pool, q: Pool, pos: Position, r: Position, t: Token)
    requires SameGrowth(p, q) && SoundPosition(p, pos, t) && Last(pos, t) == Inside(p, pos, t)
    requires 0 <= r.liquidity && r == pos.(liquidity := r.liquidity)
    ensures SoundPosition(q, r, t) && Weight(q, r, t) == Weight(p, pos, t) == Q64 * Owed(r, t)
  {
    hide Growth.Inside;
  }

  lemma AccruedByRemoval(l: Ledger, e: Event)
    requires l.pool.Valid() && e.RemoveLiquidity? && e.index < |l.positions|
    requires RemoveFromPool(l.pool, l.positions[e.index], e.removed, e.minA, e.minB).Ok?
    ensures Accrued(l, e.index).Some?
    ensures var was := l.positions[e.index];
            var pos := Accrued(l, e.index).value;
            var r := RemoveFromPool(l.pool, was, e.removed, e.minA, e.minB).value;
            && SameGrowth(l.pool, r.pool) && 0 <= was.liquidity - e.removed
            && r.position == pos.(liquidity := was.liquidity - e.removed)
            && pos.tickLower == was.tickLower && pos.tickUpper == was.tickUpper
            && Last(pos, A) == Inside(l.pool, was, A) && Last(pos, B) == Inside(l.pool, was, B)
  {
    hide RemoveFromPool, Growth.Inside, Credit;
    RemovalShape(l.pool, l.positions[e.index], e.removed, e.minA, e.minB);
  }

  lemma StepKeepsSound(l: Ledger, e: Event, t: Token)
    requires Sound(l, t)
    requires var next := Step(l, e);
             e.Swap? && next.pool != l.pool ==> Covering(l.positions, next.pool.currentTick) <= l.pool.liquidity
    ensures Sound(Step(l, e), t)
  {
    hide Step, Sound;
    match e
    case Swap(_, _, _) => SwapKeepsSound(l, e, t);
    case AddLiquidity(_, _, _, _, _, _, _) => MintKeepsSound(l, e, t);
    case RemoveLiquidity(_, _, _, _) => BurnKeepsSound(l, e, t);
    case _ => AccrualKeepsSound(l, e, t);
  }

  lemma {:induction false} RunKeepsSound(l: Ledger, events: seq<Event>, t: Token)
    requires Sound(l, t) && NeverOverstated(l, events)
    ensures Sound(Run(l, events), t)
    decreases |events|
  {
    if events != [] {
      hide Step, Pool.Valid;
      StepKeepsSound(l, events[0], t);
      RunKeepsSound(Step(l, events[0]), events[1..], t);
    }
  }

  lemma {:induction false} OwedBelowWeight(p: Pool, ps: seq<Position>, t: Token)
    requires forall i :: 0 <= i < |ps| ==> SoundPosition(p, ps[i], t)
    ensures Q64 * TotalOwed(ps, t) <= TotalWeight(p, ps, t)
  {
    if ps != [] {
      hide Inside;
      OwedBelowWeight(p, ps[1..], t);
      MulNonNeg(ps[0].liquidity, Inside(p, ps[0], t) - Last(ps[0], t));
    }
  }

  lemma {:induction false} FreshWeighsNothing(p: Pool, ps: seq<Position>, t: Token)
    requires forall i :: 0 <= i < |ps| ==> Owed(ps[i], t) == 0 && Last(ps[i], t) == Inside(p, ps[i], t)
    ensures TotalWeight(p, ps, t) == 0
  {
    if ps != [] {
      hide Inside;
      FreshWeighsNothing(p, ps[1..], t);
    }
  }

  /** Start from any valid pool and any freshly checkpointed positions. After any interleaving of swaps,
      accruals, collections, deposits and removals, what has been credited in each token - still owed,
      already paid out, or deleted with its position - is at most the fees traders paid in that token. */
  lemma FeesCreditedAtMostPaid(pool: Pool, positions: seq<Position>, events: seq<Event>, t: Token)
    requires pool.Valid()
    requires forall i :: 0 <= i < |positions| ==>
               && SoundPosition(pool, positions[i], t)
               && Owed(positions[i], t) == 0 && Last(positions[i], t) == Inside(pool, positions[i], t)
    requires NeverOverstated(Start(pool, positions), events)
    ensures var l := Run(Start(pool, positions), events);
            TotalOwed(l.positions, t) + Paid(l, t) + Lost(l, t) <= Fees(l, t)
  {
    hide Run, NeverOverstated, Pool.Valid, TotalOwed, TotalWeight;
    var start := Start(pool, positions);
    FreshWeighsNothing(pool, positions, t);
    RunKeepsSound(start, events, t);
    var l := Run(start, events);
    OwedBelowWeight(l.pool, l.positions, t);
  }

  /** A complete removal forfeits what the position is owed: it pays principal and hedge only, and all
      that had been credited to the position is lost to its owner. */
  lemma CompleteBurnForfeits(l: Ledger, i: nat, t: Token)
    requires Sound(l, t) && i < |l.positions|
    requires RemoveFromPool(l.pool, l.positions[i], l.positions[i].liquidity, I128_MIN, I128_MIN).Ok?
    ensures Accrued(l, i).Some?
    ensures var next := Step(l, RemoveLiquidity(i, l.positions[i].liquidity, I128_MIN, I128_MIN));
            && next.positions == l.positions[..i] + l.positions[i + 1..]
            && Lost(next, t) == Lost(l, t) + Owed(Accrued(l, i).value, t)
            && Paid(next, t) == Paid(l, t) && Fees(next, t) == Fees(l, t)
  {
    AccruedByRemoval(l, RemoveLiquidity(i, l.positions[i].liquidity, I128_MIN, I128_MIN));
    hide RemoveFromPool, Accrued, Sound;
  }

  // ---------------------------------------------------------------------------------------
  // Growth over runs

  /** What one unit of liquidity over [lower, upper) earns in token t during a run: the increments
      of exactly those swaps that ended inside the range. */
  function Earned(l: Ledger, events: seq<Event>, lower: int, upper: int, t: Token): (r: int)
    requires l.pool.Valid()
    decreases |events|
  {
    if events == [] then 0
    else Gain(l.pool, events[0], lower, upper, t) + Earned(Step(l, events[0]), events[1..], lower, upper, t)
  }

  function Gain(p: Pool, e: Event, lower: int, upper: int, t: Token): (r: int) {
    if !e.Swap? || e.zeroForOne != t.A? then 0
    else
      var s := SwapPool(p, e.zeroForOne, e.amountIn, e.minOut);
      if s.Ok? && s.value.0.InRange(lower, upper) then SwapIncrement(p, s.value.1) else 0
  }

  /** Over any run the fee growth inside a range moves by exactly what was earned inside it, and the
      tick moves by at most one per event, always in sync with the price. */
  lemma {:induction false} GrowthOverRun(l: Ledger, events: seq<Event>, lower: int, upper: int, t: Token)
    requires l.pool.Valid() && lower < upper
    ensures InsideOf(Run(l, events).pool, lower, upper, t)
            == InsideOf(l.pool, lower, upper, t) + Earned(l, events, lower, upper, t)
    ensures Abs(Run(l, events).pool.currentTick - l.pool.currentTick) <= |events|
    decreases |events|
  {
    hide Pool.Valid, InsideOf, Gain, Step;
    if events != [] {
      GrowthOfEvent(l, events[0], lower, upper, t);
      GrowthOverRun(Step(l, events[0]), events[1..], lower, upper, t);
    }
  }

  lemma GrowthOfEvent(l: Ledger, e: Event, lower: int, upper: int, t: Token)
    requires l.pool.Valid() && lower < upper
    ensures var p, q := l.pool, Step(l, e).pool;
            && InsideOf(q, lower, upper, t) == InsideOf(p, lower, upper, t) + Gain(p, e, lower, upper, t)
            && Abs(q.currentTick - p.currentTick) <= 1
  {
    hide Pool.Valid, Growth.Inside, SwapPool, TargetTick, MintQuote, BurnQuote;
    var p := l.pool;
    if e.Swap? && SwapPool(p, e.zeroForOne, e.amountIn, e.minOut).Ok? {
      var (q, step) := SwapPool(p, e.zeroForOne, e.amountIn, e.minOut).value;
      SwapStepsOneTick(p, e.zeroForOne, e.amountIn, e.minOut);
      SwapFeesGoToEndTick(p, e.zeroForOne, e.amountIn, e.minOut, lower, upper);
      OneTick(p, q, e.zeroForOne);
    }
  }
}
