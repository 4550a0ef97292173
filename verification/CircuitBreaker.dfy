/** The circuit breaker: activity per period is counted and a breach pauses the contract
    (Contracts/shared/src/circuit_breaker.rs). */
module CircuitBreaker {
  import opened Arith
  import opened Wrappers
  import opened FixedWindow

  datatype PauseLevel = NotPaused | Partial | Full

  datatype Config = Config(maxVolume: int, maxTxCount: nat, periodDuration: nat)

  datatype Breaker = Breaker(
    periodStart: nat,
    periodVolume: int,
    periodTxCount: nat,
    lastTrigger: nat,
    pauseLevel: PauseLevel)

  /** track_activity: the new state, or None where the arithmetic aborts. */
  function Track(c: Config, b: Breaker, volume: int, now: nat): (r: Option<Breaker>) {
    if b.periodStart + c.periodDuration > U64_MAX then None
    else
      var p := if now >= b.periodStart + c.periodDuration
               then b.(periodStart := now, periodVolume := 0, periodTxCount := 0) else b;
      if !InI128(p.periodVolume + volume) || p.periodTxCount + 1 > U64_MAX then None
      else
        var q := p.(periodVolume := p.periodVolume + volume, periodTxCount := p.periodTxCount + 1);
        var triggered := q.periodVolume >= c.maxVolume || q.periodTxCount >= c.maxTxCount;
        if triggered && q.pauseLevel == NotPaused then Some(q.(pauseLevel := Full, lastTrigger := now)) else Some(q)
  }

  /** An activity gated by require_not_paused and then tracked; `blocked` says whether its function is on
      the partial-pause list. */
  datatype Activity = Activity(volume: int, time: nat, blocked: bool)

  predicate Passes(b: Breaker, a: Activity) {
    b.pauseLevel != Full && !(b.pauseLevel == Partial && a.blocked)
  }

  /** The stored state, and the admitted activities: once with weight one each, once with their volumes. */
  datatype World = World(breaker: Breaker, log: seq<Use>, volumes: seq<Use>)

  function Attempt(c: Config, w: World, a: Activity): (r: World) {
    if !Passes(w.breaker, a) then w
    else
      var b := Track(c, w.breaker, a.volume, a.time);
      if b.Some? then World(b.value, w.log + [Use(1, a.time)], w.volumes + [Use(a.volume, a.time)]) else w
  }

  /** All attempts after init at time `since`, with no admin call in between. */
  function Run(c: Config, since: nat, activities: seq<Activity>): (w: World) {
    if activities == [] then World(Breaker(since, 0, 0, 0, NotPaused), [], [])
    else Attempt(c, Run(c, since, activities[..|activities| - 1]), activities[|activities| - 1])
  }

  /** The activities a period can hold: the configured count, but the first one always passes. */
  function Capacity(c: Config): (n: nat) {
    if c.maxTxCount < 1 then 1 else c.maxTxCount
  }

  ghost predicate InOrder(since: nat, activities: seq<Activity>) {
    && (forall i :: 0 <= i < |activities| ==> since <= activities[i].time)
    && (forall i, j :: 0 <= i < j < |activities| ==> activities[i].time <= activities[j].time)
  }

  ghost predicate Sound(c: Config, w: World, now: nat) {
    var b := w.breaker;
    && b.pauseLevel != Partial
    && b.periodTxCount <= Capacity(c)
    && (b.pauseLevel == NotPaused ==> b.periodTxCount < Capacity(c))
    && b.periodStart <= now
    && (forall i :: 0 <= i < |w.log| ==> w.log[i].time <= now)
    && NonNegative(w.log)
    && Tracks(Meter(b.periodStart, b.periodTxCount), w.log, c.periodDuration, Capacity(c) - 1)
  }

  lemma AttemptKeepsSound(c: Config, w: World, now: nat, a: Activity)
    requires Sound(c, w, now) && 0 < c.periodDuration && now <= a.time
    ensures Sound(c, Attempt(c, w, a), a.time)
  {
    hide Tracks;
    var next := Attempt(c, w, a);
    if next != w {
      AdvanceTracks(Meter(w.breaker.periodStart, w.breaker.periodTxCount), w.log, c.periodDuration, Capacity(c) - 1,
                    Use(1, a.time));
    }
  }

  lemma {:induction false} RunSound(c: Config, since: nat, activities: seq<Activity>)
    requires 0 < c.periodDuration && InOrder(since, activities)
    ensures Sound(c, Run(c, since, activities), if activities == [] then since else activities[|activities| - 1].time)
  {
    hide Sound;
    if activities == [] {
      FreshSound(c, since);
    } else {
      var init, a := activities[..|activities| - 1], activities[|activities| - 1];
      RunSound(c, since, init);
      AttemptKeepsSound(c, Run(c, since, init), if init == [] then since else init[|init| - 1].time, a);
    }
  }

  lemma FreshSound(c: Config, since: nat)
    requires 0 < c.periodDuration
    ensures Sound(c, World(Breaker(since, 0, 0, 0, NotPaused), [], []), since)
  {
  }

  /** No period admits more than max_tx_count activities (one, if that is zero). */
  lemma PeriodBound(c: Config, since: nat, activities: seq<Activity>)
    requires 0 < c.periodDuration && InOrder(since, activities)
    ensures var w := Run(c, since, activities);
            w.breaker.periodTxCount <= Capacity(c) && From(w.log, w.breaker.periodStart) <= Capacity(c)
  {
    hide From, Withdrawn;
    RunSound(c, since, activities);
    var w := Run(c, since, activities);
    NothingWithdrawn(w.log, w.breaker.periodStart, w.breaker.periodStart);
  }

  /** Any closed time interval as long as a period admits at most 2 * capacity - 1 activities: a period that
      reached its capacity is never followed by another. */
  lemma {:induction false} IntervalBound(c: Config, since: nat, activities: seq<Activity>, x: int)
    requires 0 < c.periodDuration && InOrder(since, activities)
    ensures Between(Run(c, since, activities).log, x, x + c.periodDuration) <= 2 * Capacity(c) - 1
  {
    hide Sound, Between, Attempt;
    if activities == [] {
      NothingBetween(x, x + c.periodDuration);
    } else {
      var init, a := activities[..|activities| - 1], activities[|activities| - 1];
      IntervalBound(c, since, init, x);
      if a.time > x + c.periodDuration {
        LateAttempt(c, Run(c, since, init), a, x, x + c.periodDuration);
      } else {
        RunSound(c, since, activities);
        SoundBound(c, Run(c, since, activities), a.time, x);
      }
    }
  }

  lemma LateAttempt(c: Config, w: World, a: Activity, x: int, y: int)
    requires a.time > y
    ensures Between(Attempt(c, w, a).log, x, y) == Between(w.log, x, y)
  {
    BetweenSnoc(w.log, Use(1, a.time), x, y);
  }

  lemma SoundBound(c: Config, w: World, now: nat, x: int)
    requires Sound(c, w, now) && now <= x + c.periodDuration
    ensures Between(w.log, x, x + c.periodDuration) <= 2 * Capacity(c) - 1
  {
    var m := Meter(w.breaker.periodStart, w.breaker.periodTxCount);
    LastIntervalBound(m, w.log, c.periodDuration, Capacity(c) - 1, x);
    NothingWithdrawn(w.log, x - c.periodDuration, x);
  }

  function LogOf(activities: seq<Activity>): (log: seq<Use>) {
    if activities == [] then []
    else LogOf(activities[..|activities| - 1]) + [Use(1, activities[|activities| - 1].time)]
  }

  /** A positive duration is needed: with a duration of zero every activity opens a period of its own, so
      the breaker admits every run of activities, however dense, that stay below the volume threshold
      one by one, if more than one activity per period is allowed. */
  lemma {:induction false} ZeroPeriodAdmitsAll(c: Config, since: nat, activities: seq<Activity>)
    requires c.periodDuration == 0 && 2 <= c.maxTxCount && InOrder(since, activities) && since <= U64_MAX
    requires forall i :: 0 <= i < |activities| ==>
               activities[i].time <= U64_MAX && InI128(activities[i].volume) && activities[i].volume < c.maxVolume
    ensures var w := Run(c, since, activities);
            && w.log == LogOf(activities) && w.breaker.pauseLevel == NotPaused
            && w.breaker.periodStart == if activities == [] then since else activities[|activities| - 1].time
  {
    if activities != [] {
      ZeroPeriodAdmitsAll(c, since, activities[..|activities| - 1]);
    }
  }

  /** Once the breaker has tripped, nothing succeeds any more. */
  lemma {:induction false} NothingAfterTrip(c: Config, since: nat, before: seq<Activity>, after: seq<Activity>)
    requires Run(c, since, before).breaker.pauseLevel == Full
    ensures Run(c, since, before + after) == Run(c, since, before)
    decreases |after|
  {
    if after == [] {
      assert before + after == before;
    } else {
      NothingAfterTrip(c, since, before, after[..|after| - 1]);
      assert (before + after)[..|before + after| - 1] == before + after[..|after| - 1];
    }
  }

  // ---------------------------------------------------------------------------------------
  // What the counters count

  /** Volume and count are the sums over the activities admitted since the period began. */
  ghost predicate Exact(c: Config, w: World, now: nat) {
    var b := w.breaker;
    && b.periodVolume == From(w.volumes, b.periodStart) && b.periodTxCount == From(w.log, b.periodStart)
    && b.periodStart <= now
    && |w.log| == |w.volumes|
    && (forall i :: 0 <= i < |w.log| ==> w.log[i].time == w.volumes[i].time)
    && (forall i :: 0 <= i < |w.log| ==> w.log[i].time <= now && w.log[i].time < b.periodStart + c.periodDuration)
    && (b.pauseLevel == NotPaused || b.pauseLevel == Full)
  }

  /** The start of the period that an activity at time `now` belongs to. */
  function PeriodOf(c: Config, start: nat, now: nat): (s: nat) {
    if start + c.periodDuration <= now then now else start
  }

  /** What an attempt does: it is admitted if and only if the breaker is not paused and the sums of its period
      fit, and the breaker then trips if and only if the volume or the number of the activities admitted in
      its period, this one included, reaches its threshold. */
  ghost predicate Outcome(c: Config, w: World, a: Activity, next: World) {
    var start := PeriodOf(c, w.breaker.periodStart, a.time);
    var volume := From(w.volumes, start) + a.volume;
    var count := From(w.log, start) + 1;
    && (next != w <==>
          && w.breaker.pauseLevel == NotPaused && w.breaker.periodStart + c.periodDuration <= U64_MAX
          && InI128(volume) && count <= U64_MAX)
    && (next != w ==>
          && next.log == w.log + [Use(1, a.time)] && next.volumes == w.volumes + [Use(a.volume, a.time)]
          && next.breaker.periodStart == start
          && (next.breaker.pauseLevel == Full <==> volume >= c.maxVolume || count >= c.maxTxCount)
          && next.breaker.lastTrigger
             == (if next.breaker.pauseLevel == Full then a.time else w.breaker.lastTrigger))
  }

  lemma AttemptExact(c: Config, w: World, now: nat, a: Activity)
    requires Exact(c, w, now) && 0 < c.periodDuration && now <= a.time
    ensures Exact(c, Attempt(c, w, a), a.time) && Outcome(c, w, a, Attempt(c, w, a))
  {
    hide From;
    var start := PeriodOf(c, w.breaker.periodStart, a.time);
    if w.breaker.periodStart + c.periodDuration <= a.time {
      FromNothing(w.log, start);
      FromNothing(w.volumes, start);
    }
    FromSnoc(w.log, Use(1, a.time), start);
    FromSnoc(w.volumes, Use(a.volume, a.time), start);
    assert |w.log + [Use(1, a.time)]| != |w.log|;
  }

  /** Over any run volume and count are the sums over the activities admitted since the period began. */
  lemma {:induction false} RunExact(c: Config, since: nat, activities: seq<Activity>)
    requires 0 < c.periodDuration && InOrder(since, activities)
    ensures Exact(c, Run(c, since, activities), if activities == [] then since else activities[|activities| - 1].time)
  {
    hide Exact, Attempt;
    if activities == [] {
      FreshExact(c, since);
    } else {
      var init, a := activities[..|activities| - 1], activities[|activities| - 1];
      RunExact(c, since, init);
      AttemptExact(c, Run(c, since, init), if init == [] then since else init[|init| - 1].time, a);
    }
  }

  lemma FreshExact(c: Config, since: nat)
    ensures Exact(c, World(Breaker(since, 0, 0, 0, NotPaused), [], []), since)
  {
  }

  /** After any run, the next attempt has exactly this outcome. */
  lemma TripsExactly(c: Config, since: nat, activities: seq<Activity>, a: Activity)
    requires 0 < c.periodDuration && InOrder(since, activities + [a])
    ensures Outcome(c, Run(c, since, activities), a, Run(c, since, activities + [a]))
  {
    hide Exact, Attempt, Outcome;
    var all := activities + [a];
    assert all[..|activities|] == activities && all[|activities|] == a;
    assert forall i :: 0 <= i < |activities| ==> all[i] == activities[i];
    RunExact(c, since, activities);
    AttemptExact(c, Run(c, since, activities),
                 if activities == [] then since else activities[|activities| - 1].time, a);
  }

  /** While the breaker is not paused, the current period is below both thresholds, if it has admitted
      anything at all; so once a period has reached one, the breaker is paused and, by NothingAfterTrip,
      admits nothing more. */
  lemma {:induction false} BelowThresholds(c: Config, since: nat, activities: seq<Activity>)
    requires 0 < c.periodDuration && InOrder(since, activities)
    ensures var w := Run(c, since, activities);
            var start := w.breaker.periodStart;
            && w.breaker.pauseLevel != Partial
            && (w.breaker.pauseLevel == NotPaused && w.log != [] ==>
                  From(w.volumes, start) < c.maxVolume && From(w.log, start) < c.maxTxCount)
  {
    hide From, Attempt;
    if activities != [] {
      var n := |activities| - 1;
      var init, a := activities[..n], activities[n];
      BelowThresholds(c, since, init);
      assert activities == init + [a];
      TripsExactly(c, since, init, a);
      RunExact(c, since, activities);
      var w := Run(c, since, init);
      var start := PeriodOf(c, w.breaker.periodStart, a.time);
      FromSnoc(w.log, Use(1, a.time), start);
      FromSnoc(w.volumes, Use(a.volume, a.time), start);
    }
  }

  class Contract {
    const config: Config
    var state: Breaker
    var pausedFunctions: set<nat>

    /** init */
    constructor (config: Config, now: nat)
      ensures this.config == config && state == Breaker(now, 0, 0, 0, NotPaused) && pausedFunctions == {}
    {
      this.config := config;
      state, pausedFunctions := Breaker(now, 0, 0, 0, NotPaused), {};
    }

    /** require_not_paused: false where the call aborts. */
    method RequireNotPaused(f: nat) returns (ok: bool)
      ensures ok <==> state.pauseLevel == NotPaused || (state.pauseLevel == Partial && f !in pausedFunctions)
      ensures ok == Passes(state, Activity(0, 0, f in pausedFunctions))
    {
      if state.pauseLevel == Full {
        return false;
      }
      if state.pauseLevel == Partial {
        if f in pausedFunctions {
          return false;
        }
      }
      ok := true;
    }

    /** track_activity */
    method TrackActivity(volume: int, now: nat) returns (ok: bool)
      modifies this`state
      ensures var b := Track(config, old(state), volume, now);
              ok == b.Some? && state == if ok then b.value else old(state)
    {
      var s := state;
      if s.periodStart + config.periodDuration > U64_MAX {
        return false;
      }
      if now >= s.periodStart + config.periodDuration {
        s := s.(periodStart := now);
        s := s.(periodVolume := 0);
        s := s.(periodTxCount := 0);
      }
      if !InI128(s.periodVolume + volume) || s.periodTxCount + 1 > U64_MAX {
        return false;
      }
      s := s.(periodVolume := s.periodVolume + volume);
      s := s.(periodTxCount := s.periodTxCount + 1);
      var triggered := false;
      if s.periodVolume >= config.maxVolume {
        triggered := true;
      }
      if s.periodTxCount >= config.maxTxCount {
        triggered := true;
      }
      if triggered && s.pauseLevel == NotPaused {
        s := s.(pauseLevel := Full);
        s := s.(lastTrigger := now);
      }
      state := s;
      ok := true;
    }
  }
}
