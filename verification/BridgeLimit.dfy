/** The bridge's per-asset deposit limit (Contracts/contracts/cross-chain-router/src/bridge.rs). */
module BridgeLimit {
  import opened Arith
  import opened Wrappers
  import opened FixedWindow

  datatype RateLimit = RateLimit(limit: int, window: nat, currentUsage: int, lastUpdate: nat)

  /** check_rate_limit for an asset with a limit: the new record, or None where the deposit aborts. */
  function CheckRateLimit(rl: RateLimit, amount: int, now: nat): (r: Option<RateLimit>) {
    if rl.lastUpdate + rl.window > U64_MAX then None
    else
      var renewed := if now >= rl.lastUpdate + rl.window then rl.(currentUsage := 0, lastUpdate := now) else rl;
      if !InI128(renewed.currentUsage + amount) || renewed.currentUsage + amount > renewed.limit then None
      else Some(renewed.(currentUsage := renewed.currentUsage + amount))
  }

  /** The stored record and the accepted deposits. */
  datatype World = World(rl: RateLimit, log: seq<Use>)

  function Deposit(w: World, u: Use): (r: World) {
    var rl := CheckRateLimit(w.rl, u.weight, u.time);
    if rl.Some? then World(rl.value, w.log + [u]) else w
  }

  /** All deposits after set_rate_limit stored a fresh record at time `since`. */
  function Run(limit: int, window: nat, since: nat, uses: seq<Use>): (w: World) {
    if uses == [] then World(RateLimit(limit, window, 0, since), [])
    else Deposit(Run(limit, window, since, uses[..|uses| - 1]), uses[|uses| - 1])
  }

  ghost predicate Sound(w: World, limit: int, window: nat, now: nat) {
    && w.rl.limit == limit && w.rl.window == window
    && w.rl.currentUsage <= Max(limit, 0) && w.rl.lastUpdate <= now
    && (forall i :: 0 <= i < |w.log| ==> w.log[i].time <= now)
    && Tracks(Meter(w.rl.lastUpdate, w.rl.currentUsage), w.log, window, Max(limit, 0))
  }

  lemma DepositKeepsSound(w: World, limit: int, window: nat, now: nat, u: Use)
    requires Sound(w, limit, window, now) && 0 < window && now <= u.time
    ensures Sound(Deposit(w, u), limit, window, u.time)
  {
    hide Tracks;
    if CheckRateLimit(w.rl, u.weight, u.time).Some? {
      AdvanceTracks(Meter(w.rl.lastUpdate, w.rl.currentUsage), w.log, window, Max(limit, 0), u);
    }
  }

  /** After any run the record is sound for the latest time seen. */
  lemma {:induction false} RunSound(limit: int, window: nat, since: nat, uses: seq<Use>)
    requires 0 < window && Ordered(uses) && (uses != [] ==> since <= uses[0].time)
    ensures Sound(Run(limit, window, since, uses), limit, window, if uses == [] then since else uses[|uses| - 1].time)
  {
    hide Sound;
    if uses == [] {
      FreshSound(limit, window, since);
    } else {
      var init, u := uses[..|uses| - 1], uses[|uses| - 1];
      RunSound(limit, window, since, init);
      DepositKeepsSound(Run(limit, window, since, init), limit, window,
                        if init == [] then since else init[|init| - 1].time, u);
    }
  }

  lemma FreshSound(limit: int, window: nat, since: nat)
    requires 0 < window
    ensures Sound(World(RateLimit(limit, window, 0, since), []), limit, window, since)
  {
  }

  /** For deposits of any sign, the amount accepted in any closed time interval of length `window` is at
      most twice the limit plus what negative deposits gave back in the window before it, although usage
      is only reset on use. */
  lemma {:induction false} SignedIntervalBound(limit: int, window: nat, since: nat, uses: seq<Use>, x: int)
    requires 0 < window && Ordered(uses) && (uses != [] ==> since <= uses[0].time)
    ensures var log := Run(limit, window, since, uses).log;
            Between(log, x, x + window) <= Max(2 * limit, 0) + Withdrawn(log, x - window, x)
  {
    hide Sound, Between, Deposit, Withdrawn;
    if uses == [] {
      NothingBetween(x, x + window);
    } else {
      var init, u := uses[..|uses| - 1], uses[|uses| - 1];
      SignedIntervalBound(limit, window, since, init, x);
      if u.time > x + window {
        LateDeposit(Run(limit, window, since, init), u, x, window);
      } else {
        RunSound(limit, window, since, uses);
        SoundBound(Run(limit, window, since, uses), limit, window, u.time, x);
      }
    }
  }

  lemma LateDeposit(w: World, u: Use, x: int, window: nat)
    requires u.time > x + window
    ensures Between(Deposit(w, u).log, x, x + window) == Between(w.log, x, x + window)
    ensures Withdrawn(Deposit(w, u).log, x - window, x) == Withdrawn(w.log, x - window, x)
  {
    BetweenSnoc(w.log, u, x, x + window);
    WithdrawnSnoc(w.log, u, x - window, x);
  }

  lemma SoundBound(w: World, limit: int, window: nat, now: nat, x: int)
    requires Sound(w, limit, window, now) && now <= x + window
    ensures Between(w.log, x, x + window) <= Max(2 * limit, 0) + Withdrawn(w.log, x - window, x)
  {
    LastIntervalBound(Meter(w.rl.lastUpdate, w.rl.currentUsage), w.log, window, Max(limit, 0), x);
  }

  /** Hence, for non-negative deposits, at most twice the limit. */
  lemma IntervalBound(limit: int, window: nat, since: nat, uses: seq<Use>, x: int)
    requires 0 < window && Ordered(uses) && NonNegative(uses) && (uses != [] ==> since <= uses[0].time)
    ensures Between(Run(limit, window, since, uses).log, x, x + window) <= Max(2 * limit, 0)
  {
    SignedIntervalBound(limit, window, since, uses, x);
    RunNonNegative(limit, window, since, uses);
    NothingWithdrawn(Run(limit, window, since, uses).log, x - window, x);
  }

  lemma {:induction false} RunNonNegative(limit: int, window: nat, since: nat, uses: seq<Use>)
    requires NonNegative(uses)
    ensures NonNegative(Run(limit, window, since, uses).log)
  {
    hide CheckRateLimit;
    if uses != [] {
      RunNonNegative(limit, window, since, uses[..|uses| - 1]);
    }
  }

  /** The recorded usage is the sum of the deposits accepted since the period began. */
  ghost predicate Exact(w: World, window: nat, now: nat) {
    && w.rl.window == window && w.rl.currentUsage == From(w.log, w.rl.lastUpdate) && w.rl.lastUpdate <= now
    && forall i :: 0 <= i < |w.log| ==> w.log[i].time <= now && w.log[i].time < w.rl.lastUpdate + window
  }

  /** A deposit is accepted if and only if the deposits of its period, this one included, stay within the
      limit, and the numbers fit. */
  lemma DepositExact(w: World, window: nat, now: nat, u: Use)
    requires Exact(w, window, now) && 0 < window && now <= u.time
    ensures var next := Deposit(w, u);
            var start := if w.rl.lastUpdate + window <= u.time then u.time else w.rl.lastUpdate;
            var usage := From(w.log, start) + u.weight;
            && Exact(next, window, u.time)
            && (next.log == w.log + [u] <==>
                  w.rl.lastUpdate + window <= U64_MAX && InI128(usage) && usage <= w.rl.limit)
            && (next.log != w.log + [u] ==> next == w)
            && next.rl.limit == w.rl.limit
  {
    hide From;
    var start := if w.rl.lastUpdate + window <= u.time then u.time else w.rl.lastUpdate;
    if w.rl.lastUpdate + window <= u.time {
      FromNothing(w.log, start);
    }
    FromSnoc(w.log, u, start);
    assert |w.log + [u]| != |w.log|;
  }

  lemma {:induction false} RunExact(limit: int, window: nat, since: nat, uses: seq<Use>)
    requires 0 < window && Ordered(uses) && (uses != [] ==> since <= uses[0].time)
    ensures Exact(Run(limit, window, since, uses), window, if uses == [] then since else uses[|uses| - 1].time)
    ensures Run(limit, window, since, uses).rl.limit == limit
  {
    hide Exact, Deposit;
    if uses == [] {
      FreshExact(limit, window, since);
    } else {
      var init, u := uses[..|uses| - 1], uses[|uses| - 1];
      RunExact(limit, window, since, init);
      DepositExact(Run(limit, window, since, init), window, if init == [] then since else init[|init| - 1].time, u);
    }
  }

  lemma FreshExact(limit: int, window: nat, since: nat)
    ensures Exact(World(RateLimit(limit, window, 0, since), []), window, since)
  {
  }

  /** The factor of two is reached: a full limit just before the reset and a full limit at it. */
  lemma TwiceTheLimitIsReached(limit: int, window: nat)
    requires 0 < limit <= I128_MAX && 2 <= window <= U64_MAX
    ensures var uses := [Use(limit, window - 1), Use(limit, window)];
            Between(Run(limit, window, 0, uses).log, window - 1, window - 1 + window) == 2 * limit
  {
    var first, second := Use(limit, window - 1), Use(limit, window);
    assert [first, second][..1] == [first] && [first][..0] == [];
    var w0 := Run(limit, window, 0, []);
    var w1 := Run(limit, window, 0, [first]);
    assert w1 == World(RateLimit(limit, window, limit, 0), [] + [first]);
    var w2 := Run(limit, window, 0, [first, second]);
    assert w2.log == [first, second];
    BetweenSnoc([first], second, window - 1, window - 1 + window);
    BetweenSnoc([], first, window - 1, window - 1 + window);
    assert [] + [first] == [first] && [first] + [second] == [first, second];
  }

  /** A positive window is needed: with a window of zero every use resets, and a single instant takes any
      number of full-limit deposits. */
  lemma {:induction false} ZeroWindowHasNoBound(limit: int, now: nat, n: nat)
    requires 0 <= limit <= I128_MAX && now <= U64_MAX
    ensures var uses := seq(n, i => Use(limit, now)); Run(limit, 0, 0, uses).log == uses
    ensures n > 0 ==> Run(limit, 0, 0, seq(n, i => Use(limit, now))).rl == RateLimit(limit, 0, limit, now)
  {
    hide Run, Deposit;
    RunNothing(limit, 0, 0);
    if n > 0 {
      var u := Use(limit, now);
      var uses, init := seq(n, i => Use(limit, now)), seq(n - 1, i => Use(limit, now));
      ZeroWindowHasNoBound(limit, now, n - 1);
      assert uses == init + [u];
      RunSnoc(limit, 0, 0, init, u);
      assert n == 1 ==> init == [];
      Accepted(Run(limit, 0, 0, init), u, RateLimit(limit, 0, limit, now));
    }
  }

  /** The bound for signed deposits is reached too: `big` given back early in a period lets the next
      deposit take `limit + big`, so with negative deposits no multiple of the limit is a bound. */
  lemma NegativeDepositMakesRoom(limit: int, big: int, window: nat)
    requires 0 <= limit && 0 < big && limit + big <= I128_MAX && 3 <= window <= U64_MAX
    ensures var uses := [Use(-big, 1), Use(limit + big, window - 1), Use(limit, window)];
            var log := Run(limit, window, 0, uses).log;
            && Between(log, window - 1, window - 1 + window) == 2 * limit + big
            && Withdrawn(log, -1, window - 1) == big
  {
    hide Between, Withdrawn, Run;
    var a, b, c := Use(-big, 1), Use(limit + big, window - 1), Use(limit, window);
    RefundRun(limit, big, window);
    BetweenThree(a, b, c, window - 1, window - 1 + window);
  }

  lemma RefundRun(limit: int, big: int, window: nat)
    requires 0 <= limit && 0 < big && limit + big <= I128_MAX && 3 <= window <= U64_MAX
    ensures var uses := [Use(-big, 1), Use(limit + big, window - 1), Use(limit, window)];
            Run(limit, window, 0, uses).log == uses
  {
    hide Run, Deposit;
    var a, b, c := Use(-big, 1), Use(limit + big, window - 1), Use(limit, window);
    assert [] + [a] == [a] && [a] + [b] == [a, b] && [a, b] + [c] == [a, b, c];
    RunNothing(limit, window, 0);
    var w := World(RateLimit(limit, window, 0, 0), []);
    RunSnoc(limit, window, 0, [], a);
    Accepted(w, a, RateLimit(limit, window, -big, 0));
    RunSnoc(limit, window, 0, [a], b);
    Accepted(World(RateLimit(limit, window, -big, 0), [a]), b, RateLimit(limit, window, limit, 0));
    RunSnoc(limit, window, 0, [a, b], c);
    Accepted(World(RateLimit(limit, window, limit, 0), [a, b]), c, RateLimit(limit, window, limit, window));
  }

  lemma RunNothing(limit: int, window: nat, since: nat)
    ensures Run(limit, window, since, []) == World(RateLimit(limit, window, 0, since), [])
  {
  }

  lemma RunSnoc(limit: int, window: nat, since: nat, uses: seq<Use>, u: Use)
    ensures Run(limit, window, since, uses + [u]) == Deposit(Run(limit, window, since, uses), u)
  {
    assert (uses + [u])[..|uses|] == uses;
  }

  lemma Accepted(w: World, u: Use, rl: RateLimit)
    requires CheckRateLimit(w.rl, u.weight, u.time) == Some(rl)
    ensures Deposit(w, u) == World(rl, w.log + [u])
  {
  }

  lemma BetweenThree(a: Use, b: Use, c: Use, x: int, y: int)
    requires a.weight <= 0 <= b.weight && 0 <= c.weight && 0 <= a.time < x <= b.time <= c.time <= y
    ensures Between([a, b, c], x, y) == b.weight + c.weight && Withdrawn([a, b, c], -1, x) == -a.weight
  {
    hide Between, Withdrawn;
    assert [] + [a] == [a] && [a] + [b] == [a, b] && [a, b] + [c] == [a, b, c];
    NothingBetween(x, y);
    BetweenSnoc([], a, x, y);
    BetweenSnoc([a], b, x, y);
    BetweenSnoc([a, b], c, x, y);
    NothingWithdrawn([], -1, x);
    WithdrawnSnoc([], a, -1, x);
    WithdrawnSnoc([a], b, -1, x);
    WithdrawnSnoc([a, b], c, -1, x);
  }

  /** The stored limits of the bridge, per asset. */
  class Bridge {
    var limits: map<nat, RateLimit>

    constructor ()
      ensures limits == map[]
    {
      limits := map[];
    }

    /** set_rate_limit */
    method SetRateLimit(asset: nat, limit: int, window: nat, now: nat)
      modifies this
      ensures limits == old(limits)[asset := RateLimit(limit, window, 0, now)]
    {
      limits := limits[asset := RateLimit(limit, window, 0, now)];
    }

    /** check_rate_limit: an asset without a limit always passes; a rejected deposit stores nothing. */
    method CheckDeposit(asset: nat, amount: int, now: nat) returns (ok: bool)
      modifies this
      ensures asset !in old(limits) ==> ok && limits == old(limits)
      ensures asset in old(limits) ==>
                var r := CheckRateLimit(old(limits)[asset], amount, now);
                && ok == r.Some?
                && limits == if ok then old(limits)[asset := r.value] else old(limits)
    {
      if asset !in limits {
        return true;
      }
      var rl := limits[asset];
      if rl.lastUpdate + rl.window > U64_MAX {
        return false;
      }
      if now >= rl.lastUpdate + rl.window {
        rl := rl.(currentUsage := 0);
        rl := rl.(lastUpdate := now);
      }
      if !InI128(rl.currentUsage + amount) || rl.currentUsage + amount > rl.limit {
        return false;
      }
      rl := rl.(currentUsage := rl.currentUsage + amount);
      limits := limits[asset := rl];
      ok := true;
    }
  }
}
