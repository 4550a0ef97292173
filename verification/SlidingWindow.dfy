/** The sliding-window request limiter over a Redis sorted set
    (Backend/src/auth/services/rate-limit.service.ts). */
module SlidingWindow {
  import opened Wrappers
  import opened Sorting

  /** The sorted set of one key: a member per admitted millisecond, scored by itself, and the instant
      at which the key expires. */
  datatype Zset = Zset(members: set<nat>, expiresAt: Option<nat>)

  const EmptyKey: Zset := Zset({}, None)

  datatype Reply = Reply(allowed: bool, remaining: int, resetAt: nat)

  /** What a command finds at time now: nothing if the key has expired. */
  function Live(z: Zset, now: nat): (r: Zset) {
    if z.expiresAt.Some? && z.expiresAt.value <= now then EmptyKey else z
  }

  /** zRemRangeByScore(0, windowStart), where no score is negative. */
  function Trim(z: Zset, windowStart: int): (r: Zset) {
    z.(members := set m <- z.members | m > windowStart)
  }

  ghost predicate IsOldest(s: set<nat>, m: nat) {
    m in s && forall x <- s :: m <= x
  }

  lemma {:induction false} OldestExists(s: set<nat>)
    requires s != {}
    ensures exists m :: IsOldest(s, m)
  {
    var x :| x in s;
    if s == {x} {
      assert IsOldest(s, x);
    } else {
      var rest := s - {x};
      OldestExists(rest);
      var m :| IsOldest(rest, m);
      assert forall y <- s :: y == x || y in rest;
      assert IsOldest(s, if x < m then x else m);
    }
  }

  /** zRange 0 0: the member with the smallest score. */
  ghost function Oldest(s: set<nat>): (m: nat)
    requires s != {}
    ensures IsOldest(s, m)
  {
    OldestExists(s);
    var m :| IsOldest(s, m);
    m
  }

  /** expire: a time to live of zero deletes the key at once. */
  function Expire(members: set<nat>, now: nat, window: nat): (z: Zset) {
    if window <= 0 then EmptyKey else Zset(members, Some(now + window))
  }

  /** checkRateLimit without a Redis error. */
  ghost function Check(z: Zset, limit: int, windowSeconds: nat, now: nat): (r: (Zset, Reply)) {
    var window := windowSeconds * 1000;
    var trimmed := Trim(Live(z, now), now - window);
    var count := |trimmed.members|;
    if count >= limit then
      (trimmed, Reply(false, 0, if trimmed.members == {} then now + window else Oldest(trimmed.members) + window))
    else
      (Expire(trimmed.members + {now}, now, window), Reply(true, limit - count - 1, now + window))
  }

  /** The key after a sequence of requests at the given times. */
  ghost function After(limit: int, windowSeconds: nat, times: seq<nat>): (z: Zset) {
    if times == [] then EmptyKey
    else Check(After(limit, windowSeconds, times[..|times| - 1]), limit, windowSeconds, times[|times| - 1]).0
  }

  /** Whether request i was admitted. */
  ghost predicate Admitted(limit: int, windowSeconds: nat, times: seq<nat>, i: nat)
    requires i < |times|
  {
    Check(After(limit, windowSeconds, times[..i]), limit, windowSeconds, times[i]).1.allowed
  }

  /** The instants at which some request was admitted. */
  ghost function AdmittedAt(limit: int, windowSeconds: nat, times: seq<nat>): (s: set<nat>) {
    set i | 0 <= i < |times| && Admitted(limit, windowSeconds, times, i) :: times[i]
  }

  /** A clock that never runs backwards. */
  ghost predicate Clock(times: seq<nat>) {
    forall i, j :: 0 <= i < j < |times| ==> times[i] <= times[j]
  }

  /** The instants of s in (t - window, t]. */
  ghost function Within(s: set<nat>, window: nat, t: nat): (r: set<nat>) {
    set x <- s | t - window < x <= t
  }

  lemma AdmittedSnoc(limit: int, windowSeconds: nat, times: seq<nat>)
    requires times != []
    ensures var init, now := times[..|times| - 1], times[|times| - 1];
            var allowed := Check(After(limit, windowSeconds, init), limit, windowSeconds, now).1.allowed;
            AdmittedAt(limit, windowSeconds, times)
            == AdmittedAt(limit, windowSeconds, init) + (if allowed then {now} else {})
  {
    hide Check, After;
    var n := |times| - 1;
    var init := times[..n];
    assert forall i :: 0 <= i < n ==> times[..i] == init[..i];
    assert times[..n] == init;
    forall i | 0 <= i < n
      ensures Admitted(limit, windowSeconds, times, i) <==> Admitted(limit, windowSeconds, init, i)
    {
    }
    forall x ensures x in AdmittedAt(limit, windowSeconds, times)
                     <==> || x in AdmittedAt(limit, windowSeconds, init)
                          || (Admitted(limit, windowSeconds, times, n) && x == times[n])
    {
      if x in AdmittedAt(limit, windowSeconds, times) {
        var i :| 0 <= i < |times| && Admitted(limit, windowSeconds, times, i) && times[i] == x;
        if i < n {
          assert init[i] == x;
        }
      }
      if x in AdmittedAt(limit, windowSeconds, init) {
        var i :| 0 <= i < n && Admitted(limit, windowSeconds, init, i) && init[i] == x;
        assert times[i] == x;
      }
    }
  }

  /** What the key stores after a request at `now`: exactly the admitted instants still inside the
      window, never more than the limit, and an expiry that outlives them. */
  ghost predicate TracksSet(z: Zset, admitted: set<nat>, limit: int, window: nat, now: nat) {
    && z.members == Within(admitted, window, now)
    && (limit > 0 ==> |z.members| <= limit)
    && forall x <- admitted :: x <= now && Outlived(z, x + window, now)
  }

  ghost predicate Tracks(limit: int, windowSeconds: nat, times: seq<nat>) {
    var z := After(limit, windowSeconds, times);
    if times == [] then z == EmptyKey
    else TracksSet(z, AdmittedAt(limit, windowSeconds, times), limit, windowSeconds * 1000, times[|times| - 1])
  }

  /** An instant that leaves the window at `end` is still covered by the key's expiry, or is out already. */
  ghost predicate Outlived(z: Zset, end: int, now: nat) {
    end <= now || (z.expiresAt.Some? && end <= z.expiresAt.value)
  }

  /** Key expiry never drops a live entry: trimming the key that a request finds leaves exactly the
      admitted instants inside its window. */
  lemma TrimmedIsWindow(limit: int, windowSeconds: nat, times: seq<nat>, now: nat)
    requires Tracks(limit, windowSeconds, times)
    requires times != [] ==> times[|times| - 1] <= now
    ensures Trim(Live(After(limit, windowSeconds, times), now), now - windowSeconds * 1000).members
            == Within(AdmittedAt(limit, windowSeconds, times), windowSeconds * 1000, now)
  {
    hide After, AdmittedAt;
    if times == [] {
      NothingAdmitted(limit, windowSeconds);
    }
  }

  lemma NothingAdmitted(limit: int, windowSeconds: nat)
    ensures AdmittedAt(limit, windowSeconds, []) == {}
  {
  }

  lemma CheckTracksSet(z: Zset, admitted: set<nat>, limit: int, windowSeconds: nat, now: nat)
    requires Trim(Live(z, now), now - windowSeconds * 1000).members == Within(admitted, windowSeconds * 1000, now)
    requires |Trim(Live(z, now), now - windowSeconds * 1000).members| <= limit || limit <= 0
    requires forall x <- admitted :: x <= now && Outlived(z, x + windowSeconds * 1000, now)
    ensures var (next, reply) := Check(z, limit, windowSeconds, now);
            TracksSet(next, admitted + (if reply.allowed then {now} else {}), limit, windowSeconds * 1000, now)
  {
    hide Trim, Live, Outlived, Oldest, Within, TracksSet, Expire;
    var (next, reply) := Check(z, limit, windowSeconds, now);
    var w := windowSeconds * 1000;
    if reply.allowed {
      AdmissionTracks(admitted, limit, w, now);
    } else {
      assert admitted + {} == admitted;
      DenialTracks(z, admitted, limit, w, now);
    }
  }

  lemma AdmissionTracks(admitted: set<nat>, limit: int, window: nat, now: nat)
    requires |Within(admitted, window, now)| < limit && forall x <- admitted :: x <= now
    ensures TracksSet(Expire(Within(admitted, window, now) + {now}, now, window), admitted + {now}, limit, window, now)
  {
    WithinNow(admitted, window, now);
    hide Within;
  }

  lemma DenialTracks(z: Zset, admitted: set<nat>, limit: int, window: nat, now: nat)
    requires Trim(Live(z, now), now - window).members == Within(admitted, window, now)
    requires |Trim(Live(z, now), now - window).members| <= limit || limit <= 0
    requires forall x <- admitted :: x <= now && Outlived(z, x + window, now)
    ensures TracksSet(Trim(Live(z, now), now - window), admitted, limit, window, now)
  {
    hide Within;
    var next := Trim(Live(z, now), now - window);
    forall x | x in admitted ensures Outlived(next, x + window, now) {
    }
  }

  lemma WithinNow(s: set<nat>, window: nat, now: nat)
    ensures Within(s + {now}, window, now) == Within(s, window, now) + (if window > 0 then {now} else {})
    ensures window == 0 ==> Within(s, window, now) == {}
  {
  }

  lemma CheckKeepsTracks(limit: int, windowSeconds: nat, times: seq<nat>)
    requires times != [] && Clock(times) && Tracks(limit, windowSeconds, times[..|times| - 1])
    ensures Tracks(limit, windowSeconds, times)
  {
    hide AdmittedAt, Check, Trim, Live, Within;
    var init, now := times[..|times| - 1], times[|times| - 1];
    var z, admitted := After(limit, windowSeconds, init), AdmittedAt(limit, windowSeconds, init);
    TrimmedIsWindow(limit, windowSeconds, init, now);
    TrimmedBounded(limit, windowSeconds, init, now);
    AdmittedSnoc(limit, windowSeconds, times);
    AdmittedBefore(limit, windowSeconds, init, now);
    CheckTracksSet(z, admitted, limit, windowSeconds, now);
  }

  lemma TrimmedBounded(limit: int, windowSeconds: nat, times: seq<nat>, now: nat)
    requires Tracks(limit, windowSeconds, times)
    ensures var trimmed := Trim(Live(After(limit, windowSeconds, times), now), now - windowSeconds * 1000);
            limit <= 0 || |trimmed.members| <= limit
  {
    hide AdmittedAt;
    var z := After(limit, windowSeconds, times);
    SubsetSize(Trim(Live(z, now), now - windowSeconds * 1000).members, z.members);
  }

  lemma AdmittedBefore(limit: int, windowSeconds: nat, times: seq<nat>, now: nat)
    requires Tracks(limit, windowSeconds, times) && (times != [] ==> times[|times| - 1] <= now)
    ensures forall x <- AdmittedAt(limit, windowSeconds, times) ::
              x <= now && Outlived(After(limit, windowSeconds, times), x + windowSeconds * 1000, now)
  {
    hide After;
    if times == [] {
      NothingAdmitted(limit, windowSeconds);
    }
    hide AdmittedAt;
  }

  lemma {:induction false} RunTracks(limit: int, windowSeconds: nat, times: seq<nat>)
    requires Clock(times)
    ensures Tracks(limit, windowSeconds, times)
  {
    hide Tracks;
    if times == [] {
      EmptyTracks(limit, windowSeconds);
    } else {
      RunTracks(limit, windowSeconds, times[..|times| - 1]);
      CheckKeepsTracks(limit, windowSeconds, times);
    }
  }

  lemma EmptyTracks(limit: int, windowSeconds: nat)
    ensures Tracks(limit, windowSeconds, [])
  {
  }

  /** In any window (t - W, t] requests are admitted at no more than `limit` distinct instants. */
  lemma {:induction false} WindowBound(limit: int, windowSeconds: nat, times: seq<nat>, t: nat)
    requires Clock(times)
    ensures |Within(AdmittedAt(limit, windowSeconds, times), windowSeconds * 1000, t)| <= if limit > 0 then limit else 0
  {
    hide After, Check, AdmittedAt, Tracks;
    var w := windowSeconds * 1000;
    var all := AdmittedAt(limit, windowSeconds, times);
    if times == [] {
      NothingAdmitted(limit, windowSeconds);
      assert Within(all, w, t) == {};
    } else {
      var init, now := times[..|times| - 1], times[|times| - 1];
      WindowBound(limit, windowSeconds, init, t);
      AdmittedSnoc(limit, windowSeconds, times);
      var before := AdmittedAt(limit, windowSeconds, init);
      if now in all && now <= t {
        RunTracks(limit, windowSeconds, times);
        LastWindow(limit, windowSeconds, times, t);
      } else {
        assert Within(all, w, t) == Within(before, w, t);
      }
    }
  }

  lemma LastWindow(limit: int, windowSeconds: nat, times: seq<nat>, t: nat)
    requires times != [] && Tracks(limit, windowSeconds, times) && times[|times| - 1] <= t
    requires times[|times| - 1] in AdmittedAt(limit, windowSeconds, times)
    ensures |Within(AdmittedAt(limit, windowSeconds, times), windowSeconds * 1000, t)| <= if limit > 0 then limit else 0
  {
    var all, now := AdmittedAt(limit, windowSeconds, times), times[|times| - 1];
    AdmittedNeedsLimit(limit, windowSeconds, times);
    hide AdmittedAt, After;
    SubsetSize(Within(all, windowSeconds * 1000, t), Within(all, windowSeconds * 1000, now));
  }

  lemma AdmittedNeedsLimit(limit: int, windowSeconds: nat, times: seq<nat>)
    ensures AdmittedAt(limit, windowSeconds, times) != {} ==> limit > 0
  {
    if AdmittedAt(limit, windowSeconds, times) != {} {
      assert |AdmittedAt(limit, windowSeconds, times)| != 0;
      var x :| x in AdmittedAt(limit, windowSeconds, times);
      var i :| 0 <= i < |times| && Admitted(limit, windowSeconds, times, i) && times[i] == x;
    }
  }

  /** Trim, expiry and count together implement the plain rule: a request is admitted exactly when
      fewer than `limit` distinct instants were admitted in the window that ends with it, and
      `remaining` is what that leaves. */
  lemma AdmitsExactly(limit: int, windowSeconds: nat, times: seq<nat>, now: nat)
    requires Clock(times + [now])
    ensures var used := |Within(AdmittedAt(limit, windowSeconds, times), windowSeconds * 1000, now)|;
            var reply := Check(After(limit, windowSeconds, times), limit, windowSeconds, now).1;
            && (reply.allowed <==> used < limit)
            && reply.remaining == if reply.allowed then limit - used - 1 else 0
  {
    hide AdmittedAt, After, Trim, Live, Within, Expire;
    var all := times + [now];
    assert all[|times|] == now && forall i :: 0 <= i < |times| ==> all[i] == times[i];
    RunTracks(limit, windowSeconds, times);
    TrimmedIsWindow(limit, windowSeconds, times, now);
  }

  // ---------------------------------------------------------------------------------------
  // The reset time

  /** A key as it is right after a denial at time `now`: full, every member inside the window, and not
      expiring before its oldest member leaves it. */
  ghost predicate Full(z: Zset, limit: int, window: nat, now: nat) {
    && |z.members| == limit
    && (forall x <- z.members :: now - window < x <= now)
    && z.expiresAt.Some? && z.members != {} && Oldest(z.members) + window <= z.expiresAt.value
  }

  /** Every request before the reset time is denied with the same reset time and leaves the members as
      they are; a request at the reset time is admitted. */
  lemma FullUntilReset(z: Zset, limit: int, windowSeconds: nat, now: nat, t: nat)
    requires Full(z, limit, windowSeconds * 1000, now) && now <= t && 0 < limit
    ensures var reset := Oldest(z.members) + windowSeconds * 1000;
            && (t < reset ==> Check(z, limit, windowSeconds, t) == (z, Reply(false, 0, reset)))
            && (t == reset ==> Check(z, limit, windowSeconds, t).1.allowed)
  {
    var w := windowSeconds * 1000;
    var oldest := Oldest(z.members);
    if t < oldest + w {
      assert Trim(z, t - w).members == z.members;
    } else if t == oldest + w && z.expiresAt.value > t {
      var left := Trim(z, t - w).members;
      assert oldest !in left;
      SubsetSize(left, z.members - {oldest});
    }
  }

  /** The reset time returned with a denial is exact: from then on every request before it is denied,
      with the same reset time, and a request made at it is admitted. */
  lemma DeniedUntilReset(limit: int, windowSeconds: nat, times: seq<nat>, now: nat, t: nat)
    requires Clock(times + [now]) && now <= t && 0 < limit
    requires !Check(After(limit, windowSeconds, times), limit, windowSeconds, now).1.allowed
    ensures var (z, reply) := Check(After(limit, windowSeconds, times), limit, windowSeconds, now);
            && now < reply.resetAt
            && (t < reply.resetAt ==> Check(z, limit, windowSeconds, t) == (z, reply))
            && (t == reply.resetAt ==> Check(z, limit, windowSeconds, t).1.allowed)
  {
    DenialIsFull(limit, windowSeconds, times, now);
    var z := Check(After(limit, windowSeconds, times), limit, windowSeconds, now).0;
    FullUntilReset(z, limit, windowSeconds, now, t);
  }

  lemma DenialIsFull(limit: int, windowSeconds: nat, times: seq<nat>, now: nat)
    requires Clock(times + [now]) && 0 < limit
    requires !Check(After(limit, windowSeconds, times), limit, windowSeconds, now).1.allowed
    ensures var z := Check(After(limit, windowSeconds, times), limit, windowSeconds, now).0;
            Full(z, limit, windowSeconds * 1000, now)
  {
    assert forall i :: 0 <= i < |times| ==> times[i] == (times + [now])[i];
    assert (times + [now])[|times|] == now;
    RunTracks(limit, windowSeconds, times);
    TrimmedIsWindow(limit, windowSeconds, times, now);
    AdmittedBefore(limit, windowSeconds, times, now);
    hide AdmittedAt, Admitted;
    var z0 := After(limit, windowSeconds, times);
    var trimmed := Trim(Live(z0, now), now - windowSeconds * 1000);
    assert trimmed.members <= z0.members;
    SubsetSize(trimmed.members, z0.members);
    hide After;
    assert trimmed.members != {};
    assert Oldest(trimmed.members) in trimmed.members;
  }

  /** The reset time returned with an admission is exact, too: it is the first time at which none of the
      instants admitted so far is in the window any more, so that the whole limit is free again. */
  lemma AdmissionResets(limit: int, windowSeconds: nat, times: seq<nat>, now: nat, t: nat)
    requires Clock(times + [now]) && now <= t
    requires Check(After(limit, windowSeconds, times), limit, windowSeconds, now).1.allowed
    ensures var reply := Check(After(limit, windowSeconds, times), limit, windowSeconds, now).1;
            reply.resetAt <= t <==>
              Within(AdmittedAt(limit, windowSeconds, times + [now]), windowSeconds * 1000, t) == {}
  {
    var all := times + [now];
    assert all[..|all| - 1] == times && all[|all| - 1] == now;
    RunTracks(limit, windowSeconds, all);
    AdmittedSnoc(limit, windowSeconds, all);
    AdmittedBefore(limit, windowSeconds, all, now);
    hide AdmittedAt, After, Trim, Live, Expire;
    var admitted := AdmittedAt(limit, windowSeconds, all);
    assert now in admitted;
    if t < now + windowSeconds * 1000 {
      assert now in Within(admitted, windowSeconds * 1000, t);
    }
  }

  /** Only distinct instants count: any number of requests in one millisecond is admitted once the limit
      is at least two. */
  lemma {:induction false} SameInstantNotCounted(limit: int, windowSeconds: nat, now: nat, n: nat)
    requires 2 <= limit && 0 < windowSeconds
    ensures var times := seq(n, i => now as nat);
            && (n > 0 ==> After(limit, windowSeconds, times) == Zset({now as nat}, Some(now + windowSeconds * 1000)))
            && forall i :: 0 <= i < n ==> Admitted(limit, windowSeconds, times, i)
  {
    var times := seq(n, i => now as nat);
    if n > 0 {
      var init := seq(n - 1, i => now as nat);
      assert times[..n - 1] == init;
      SameInstantNotCounted(limit, windowSeconds, now, n - 1);
      var z := After(limit, windowSeconds, init);
      assert Trim(Live(z, now), now - windowSeconds * 1000).members == if n == 1 then {} else {now as nat};
      forall i | 0 <= i < n ensures Admitted(limit, windowSeconds, times, i) {
        if i < n - 1 {
          assert Admitted(limit, windowSeconds, init, i);
          assert times[..i] == init[..i];
        }
      }
    }
  }

  // ---------------------------------------------------------------------------------------
  // The service

  class RateLimitService {
    /** The sorted set behind one key. */
    var members: set<nat>
    var expiresAt: Option<nat>

    ghost function View(): (z: Zset)
      reads this
    {
      Zset(members, expiresAt)
    }

    constructor ()
      ensures View() == EmptyKey
    {
      members, expiresAt := {}, None;
    }

    /** zRange 0 0 */
    method First() returns (m: nat)
      requires members != {}
      ensures m == Oldest(members)
    {
      var rest := members;
      m :| m in members;
      rest := rest - {m};
      while rest != {}
        invariant m in members && rest <= members
        invariant forall x <- members :: x in rest || m <= x
        decreases rest
      {
        var x :| x in rest;
        if x < m {
          m := x;
        }
        rest := rest - {x};
      }
      assert IsOldest(members, m);
    }

    /** checkRateLimit */
    method CheckRateLimit(limit: int, windowSeconds: nat, now: nat) returns (r: Reply)
      modifies this
      ensures (View(), r) == Check(old(View()), limit, windowSeconds, now)
    {
      hide Oldest;
      var window := windowSeconds * 1000;
      var windowStart := now - window;
      if expiresAt.Some? && expiresAt.value <= now {
        members, expiresAt := {}, None;
      }
      members := set m <- members | m > windowStart;
      assert View() == Trim(Live(old(View()), now), windowStart);
      var requestCount := |members|;
      if requestCount >= limit {
        var resetAt := now + window;
        if members != {} {
          var oldest := First();
          resetAt := oldest + window;
        }
        return Reply(false, 0, resetAt);
      }
      members := members + {now};
      if window <= 0 {
        members, expiresAt := {}, None;
      } else {
        expiresAt := Some(now + window);
      }
      r := Reply(true, limit - requestCount - 1, now + window);
    }
  }
}
