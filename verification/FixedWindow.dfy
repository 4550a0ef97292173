/** The window argument shared by the limiters that reset on use: usage accumulates from the start of a
    period and is forgotten by the first use at or after its end. */
module FixedWindow {
  import opened Arith

  /** One accepted use. */
  datatype Use = Use(weight: int, time: nat)

  datatype Meter = Meter(start: nat, used: int)

  /** The accepted weight at or after time x. */
  function From(log: seq<Use>, x: int): (s: int) {
    if log == [] then 0
    else From(log[..|log| - 1], x) + (if log[|log| - 1].time >= x then log[|log| - 1].weight else 0)
  }

  /** The accepted weight in the closed interval [x, y]. */
  function Between(log: seq<Use>, x: int, y: int): (s: int) {
    if log == [] then 0
    else
      var last := log[|log| - 1];
      Between(log[..|log| - 1], x, y) + (if x <= last.time <= y then last.weight else 0)
  }

  /** What negative uses gave back at times in [x, y). */
  function Withdrawn(log: seq<Use>, x: int, y: int): (s: nat) {
    if log == [] then 0
    else
      var last := log[|log| - 1];
      Withdrawn(log[..|log| - 1], x, y) + (if x <= last.time < y && last.weight < 0 then -last.weight else 0)
  }

  ghost predicate Ordered(log: seq<Use>) {
    forall i, j :: 0 <= i < j < |log| ==> log[i].time <= log[j].time
  }

  ghost predicate NonNegative(log: seq<Use>) {
    forall i :: 0 <= i < |log| ==> 0 <= log[i].weight
  }

  /** How the meter knows the log: what it shows, with what was given back earlier in the period, bounds
      the weight since any later time; looking back up to one window before the period adds at most
      `cap`, the most a finished period can hold, and what was given back in the window before that; and
      every use falls before the end of the current period. */
  ghost predicate Tracks(m: Meter, log: seq<Use>, window: nat, cap: int) {
    && (forall x :: m.start <= x ==> From(log, x) <= m.used + Withdrawn(log, m.start, x))
    && (forall x :: m.start - window <= x < m.start ==> From(log, x) <= m.used + cap + Withdrawn(log, x - window, x))
    && (forall i :: 0 <= i < |log| ==> log[i].time < m.start + window)
  }

  /** The meter after an accepted use. */
  function Advance(m: Meter, window: nat, u: Use): (r: Meter) {
    if u.time >= m.start + window then Meter(u.time, u.weight) else Meter(m.start, m.used + u.weight)
  }

  lemma FromSnoc(log: seq<Use>, u: Use, x: int)
    ensures From(log + [u], x) == From(log, x) + (if u.time >= x then u.weight else 0)
  {
    assert (log + [u])[..|log|] == log;
  }

  lemma {:induction false} FromNothing(log: seq<Use>, x: int)
    requires forall i :: 0 <= i < |log| ==> log[i].time < x
    ensures From(log, x) == 0
  {
    if log != [] {
      FromNothing(log[..|log| - 1], x);
    }
  }

  lemma WithdrawnSnoc(log: seq<Use>, u: Use, x: int, y: int)
    ensures Withdrawn(log + [u], x, y)
            == Withdrawn(log, x, y) + (if x <= u.time < y && u.weight < 0 then -u.weight else 0)
  {
    assert (log + [u])[..|log|] == log;
  }

  /** Looking at a longer time, no less was given back. */
  lemma {:induction false} WithdrawnMono(log: seq<Use>, x: int, later: int, y: int)
    requires x <= later
    ensures Withdrawn(log, later, y) <= Withdrawn(log, x, y)
  {
    if log != [] {
      WithdrawnMono(log[..|log| - 1], x, later, y);
    }
  }

  lemma {:induction false} NothingWithdrawn(log: seq<Use>, x: int, y: int)
    requires NonNegative(log)
    ensures Withdrawn(log, x, y) == 0
  {
    if log != [] {
      NothingWithdrawn(log[..|log| - 1], x, y);
    }
  }

  /** One accepted use keeps the knowledge, if the period it may close stayed within the cap. */
  lemma AdvanceTracks(m: Meter, log: seq<Use>, window: nat, cap: int, u: Use)
    requires Tracks(m, log, window, cap) && 0 < window && 0 <= cap && m.start <= u.time
    requires u.time >= m.start + window ==> m.used <= cap
    requires forall i :: 0 <= i < |log| ==> log[i].time <= u.time
    ensures Tracks(Advance(m, window, u), log + [u], window, cap)
  {
    hide From, Withdrawn;
    var next, longer := Advance(m, window, u), log + [u];
    forall x | next.start <= x ensures From(longer, x) <= next.used + Withdrawn(longer, next.start, x) {
      FromSnoc(log, u, x);
      WithdrawnSnoc(log, u, next.start, x);
      if u.time < x || u.time >= m.start + window {
        FromNothing(log, x);
      }
    }
    forall x | next.start - window <= x < next.start
      ensures From(longer, x) <= next.used + cap + Withdrawn(longer, x - window, x)
    {
      FromSnoc(log, u, x);
      WithdrawnSnoc(log, u, x - window, x);
      if u.time >= m.start + window {
        LastPeriod(m, log, window, cap, x);
      }
    }
  }

  /** What a finished period within the cap holds after any time x. */
  lemma LastPeriod(m: Meter, log: seq<Use>, window: nat, cap: int, x: int)
    requires Tracks(m, log, window, cap) && 0 <= cap && m.used <= cap && m.start <= x
    ensures From(log, x) <= cap + Withdrawn(log, x - window, x)
  {
    hide From, Withdrawn;
    if x >= m.start + window {
      FromNothing(log, x);
    } else {
      WithdrawnMono(log, x - window, m.start, x);
    }
  }

  /** An interval that reaches up to the latest use is the tail from its left end. */
  lemma {:induction false} TailBetween(log: seq<Use>, x: int, y: int)
    requires forall i :: 0 <= i < |log| ==> log[i].time <= y
    ensures Between(log, x, y) == From(log, x)
  {
    if log != [] {
      TailBetween(log[..|log| - 1], x, y);
    }
  }

  lemma BetweenSnoc(log: seq<Use>, u: Use, x: int, y: int)
    ensures Between(log + [u], x, y) == Between(log, x, y) + (if x <= u.time <= y then u.weight else 0)
  {
    assert (log + [u])[..|log|] == log;
  }

  lemma NothingBetween(x: int, y: int)
    ensures Between([], x, y) == 0
  {
  }

  /** A known log holds at most the meter's reading plus the cap in any interval of one window that ends
      at or after its latest use, and what was given back in the window before the interval. */
  lemma LastIntervalBound(m: Meter, log: seq<Use>, window: nat, cap: int, x: int)
    requires Tracks(m, log, window, cap) && m.start <= x + window && 0 <= cap
    requires forall i :: 0 <= i < |log| ==> log[i].time <= x + window
    ensures Between(log, x, x + window) <= Max(m.used, 0) + cap + Withdrawn(log, x - window, x)
  {
    hide From, Withdrawn;
    TailBetween(log, x, x + window);
    if m.start + window <= x {
      FromNothing(log, x);
    } else if m.start <= x {
      WithdrawnMono(log, x - window, m.start, x);
    }
  }
}
