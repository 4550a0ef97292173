/** What claims, grants and revocations do, stated from the fields of the grant and of the call alone, and
    where every grant, payment and revocation of a run comes from
    (Contracts/contracts/academy/src/vesting.rs). */
module VestingExact {
  import opened Arith
  import opened Wrappers
  import opened Vesting

  /** The time since the cliff, and the time from the cliff to the end. */
  function Since(s: Schedule, now: nat): (t: int) {
    now - s.startTime - s.cliff
  }

  function Whole(s: Schedule): (t: int) {
    s.duration - s.cliff
  }

  /** Everything from the end on, before that the linear share of the time since the cliff. */
  function Share(s: Schedule, now: nat): (x: int) {
    if Since(s, now) >= Whole(s) || Whole(s) <= 0 then s.amount else s.amount * Since(s, now) / Whole(s)
  }

  /** The grant has passed its cliff, its end is a valid time, the share can be computed, and it is at least
      one unit. */
  predicate Ripe(s: Schedule, now: nat) {
    && 0 <= Since(s, now) && s.startTime + s.duration <= U64_MAX
    && (Since(s, now) < Whole(s) ==> Whole(s) <= s.amount * Since(s, now) <= U128_MAX)
  }

  lemma ShareBounds(s: Schedule, now: nat)
    requires Proper(s) && 0 <= Since(s, now)
    ensures 0 <= Share(s, now) <= s.amount
    ensures Since(s, now) < Whole(s) ==>
              Share(s, now) * Whole(s) <= s.amount * Since(s, now) < (Share(s, now) + 1) * Whole(s)
    ensures Since(s, now) < Whole(s) ==> (0 < Share(s, now) <==> Whole(s) <= s.amount * Since(s, now))
    ensures Whole(s) <= Since(s, now) ==> Share(s, now) == s.amount
  {
    if Since(s, now) < Whole(s) {
      var n := s.amount * Since(s, now);
      LinearPart(s.amount, Since(s, now), Whole(s));
      FloorBounds(n, Whole(s));
      if Whole(s) <= n {
        FloorGreatest(1, n, Whole(s));
      } else {
        MulNonNeg(s.amount, Since(s, now));
        FloorBelow(0, n, Whole(s));
      }
    }
  }

  /** A grant can be claimed if and only if the caller is its beneficiary, it is neither claimed nor
      revoked, and it is ripe; the amount is then its share. */
  lemma ClaimableExact(s: Schedule, who: Address, now: nat)
    requires Proper(s) && now <= U64_MAX
    ensures ClaimableAmount(s, who, now).Ok? <==> s.beneficiary == who && !s.claimed && !s.revoked && Ripe(s, now)
    ensures ClaimableAmount(s, who, now).Ok? ==> ClaimableAmount(s, who, now).value == Share(s, now)
  {
    if 0 <= Since(s, now) {
      ShareBounds(s, now);
      MulNonNeg(s.amount, Since(s, now));
      if s.startTime + s.duration <= U64_MAX {
        VestedIsShare(s, now);
      }
    }
    hide Share;
  }

  lemma VestedIsShare(s: Schedule, now: nat)
    requires Proper(s) && now <= U64_MAX && 0 <= Since(s, now) && s.startTime + s.duration <= U64_MAX
    ensures VestedAmount(s, now)
            == if Since(s, now) < Whole(s) && s.amount * Since(s, now) > U128_MAX then Panic else Value(Share(s, now))
  {
    ShareBounds(s, now);
    MulNonNeg(s.amount, Since(s, now));
  }

  /** A single claim succeeds if and only if the grant exists and can be claimed, the token is set and the
      balance covers the share. It pays exactly the share, marks the grant and changes nothing else. */
  lemma ClaimSucceedsIff(v: Vault, id: nat, who: Address, now: nat)
    requires (v.schedules.Some? ==> ProperAll(v.schedules.value)) && now <= U64_MAX
    ensures ClaimOne(v, id, who, now).Ok? <==>
              && v.schedules.Some? && id in v.schedules.value && v.hasToken
              && var s := v.schedules.value[id];
              s.beneficiary == who && !s.claimed && !s.revoked && Ripe(s, now) && Share(s, now) <= v.balance
    ensures ClaimOne(v, id, who, now).Ok? ==>
              var (next, x) := ClaimOne(v, id, who, now).value;
              var m := v.schedules.value;
              && x == Share(m[id], now)
              && next == v.(schedules := Some(m[id := m[id].(claimed := true)]), balance := v.balance - x)
              && (Since(m[id], now) < Whole(m[id]) ==>
                    x * Whole(m[id]) <= m[id].amount * Since(m[id], now) < (x + 1) * Whole(m[id]))
              && (Whole(m[id]) <= Since(m[id], now) ==> x == m[id].amount)
  {
    hide ClaimableAmount, Share;
    if v.schedules.Some? && id in v.schedules.value {
      var s := v.schedules.value[id];
      ClaimableExact(s, who, now);
      if 0 <= Since(s, now) {
        ShareBounds(s, now);
      }
    }
  }

  /** The shares of the listed grants together. */
  function Shares(m: Schedules, ids: seq<nat>, now: nat): (x: int)
    requires forall i :: 0 <= i < |ids| ==> ids[i] in m
  {
    if ids == [] then 0 else Share(m[ids[0]], now) + Shares(m, ids[1..], now)
  }

  predicate Open(m: Schedules, id: nat, who: Address, now: nat) {
    id in m && m[id].beneficiary == who && !m[id].claimed && !m[id].revoked && Ripe(m[id], now)
  }

  lemma {:induction false} BillIsShares(m: Schedules, ids: seq<nat>, who: Address, now: nat)
    requires ProperAll(m) && now <= U64_MAX
    ensures Bill(m, ids, who, now).Some? <==> forall i :: 0 <= i < |ids| ==> Open(m, ids[i], who, now)
    ensures Bill(m, ids, who, now).Some? ==> Bill(m, ids, who, now).value == Shares(m, ids, now)
    decreases |ids|
  {
    hide ClaimableAmount, Share, Ripe;
    if ids != [] {
      BillIsShares(m, ids[1..], who, now);
      if ids[0] in m {
        ClaimableExact(m[ids[0]], who, now);
      }
      if Bill(m, ids, who, now).Some? {
        forall i | 0 <= i < |ids| ensures Open(m, ids[i], who, now) {
          if i > 0 {
            assert ids[i] == ids[1..][i - 1];
          }
        }
      }
      if forall i :: 0 <= i < |ids| ==> Open(m, ids[i], who, now) {
        assert Open(m, ids[0], who, now);
        forall i | 0 <= i < |ids[1..]| ensures Open(m, ids[1..][i], who, now) {
          assert Open(m, ids[i + 1], who, now);
        }
      }
    }
  }

  /** A non-empty batch succeeds if and only if it names at most 25 grants, every one of them can be
      claimed by the caller, the token is set and the balance covers the shares together, which is what
      it pays. An empty batch always succeeds and pays nothing. */
  lemma BatchSucceedsIff(v: Vault, ids: seq<nat>, who: Address, now: nat)
    requires (v.schedules.Some? ==> ProperAll(v.schedules.value)) && now <= U64_MAX && 0 <= v.balance <= I128_MAX
    ensures ids == [] ==> BatchClaim(v, ids, who, now) == Ok((v, 0))
    ensures ids != [] ==>
              (BatchClaim(v, ids, who, now).Ok? <==>
                 && |ids| <= 25 && v.hasToken && v.schedules.Some?
                 && (forall i :: 0 <= i < |ids| ==> Open(v.schedules.value, ids[i], who, now))
                 && Shares(v.schedules.value, ids, now) <= v.balance)
    ensures ids != [] && BatchClaim(v, ids, who, now).Ok? ==>
              BatchClaim(v, ids, who, now).value.1 == Shares(v.schedules.value, ids, now)
  {
    hide Gather, Settle, Open, Shares, Bill;
    if ids != [] && v.schedules.Some? {
      GatherAddsBill(v.schedules.value, ids, who, now, 0);
      BillIsShares(v.schedules.value, ids, who, now);
    }
  }

  // ---------------------------------------------------------------------------------------
  // Grants and revocations

  /** A grant succeeds if and only if the contract is not paused, the caller is the admin, the amount is
      positive, the cliff is not after the end, and amount and id fit; it stores the schedule as asked for,
      open, under a new id. */
  lemma GrantSucceedsIff(v: Vault, c: Call)
    requires c.Grant? && SoundSchedules(SchedulesOf(v), v.counter)
    ensures GrantOne(v, c).Ok? <==>
              && !c.paused && v.admin == Some(c.caller) && 0 < c.amount <= I128_MAX && c.cliff <= c.duration
              && v.counter < U64_MAX
    ensures GrantOne(v, c).Ok? ==>
              var next := GrantOne(v, c).value;
              && next.counter !in SchedulesOf(v) && SchedulesOf(next).Keys == SchedulesOf(v).Keys + {next.counter}
              && GrantedAs(SchedulesOf(next)[next.counter], c)
              && !SchedulesOf(next)[next.counter].claimed && !SchedulesOf(next)[next.counter].revoked
              && (forall id <- SchedulesOf(v) :: SchedulesOf(next)[id] == SchedulesOf(v)[id])
              && next.balance == v.balance && next.admin == v.admin && next.hasToken == v.hasToken
  {
    assert v.counter + 1 !in SchedulesOf(v);
  }

  predicate GrantedAs(s: Schedule, c: Call)
    requires c.Grant?
  {
    && s.beneficiary == c.beneficiary && s.amount == c.amount && s.startTime == c.startTime
    && s.cliff == c.cliff && s.duration == c.duration
  }

  /** A revocation succeeds if and only if the contract is not paused, the caller is the admin, the grant is
      open, the delay is at least an hour and has passed since the grant's start; it marks the grant and
      notes the time. */
  lemma RevokeSucceedsIff(v: Vault, c: Call)
    requires c.Revoke? && c.now <= U64_MAX
    ensures RevokeOne(v, c).Ok? <==>
              && !c.paused && v.admin == Some(c.caller) && c.id in SchedulesOf(v)
              && !SchedulesOf(v)[c.id].claimed && !SchedulesOf(v)[c.id].revoked
              && 3600 <= c.delay && SchedulesOf(v)[c.id].startTime + c.delay <= c.now
    ensures RevokeOne(v, c).Ok? ==>
              var next, m := RevokeOne(v, c).value, SchedulesOf(v);
              && next == v.(schedules := next.schedules)
              && SchedulesOf(next) == m[c.id := m[c.id].(revoked := true, revokeTime := c.now)]
  {
  }

  // ---------------------------------------------------------------------------------------
  // Provenance

  /** Nothing but the marks of a grant ever changes. */
  predicate SameTerms(s: Schedule, t: Schedule) {
    && s.beneficiary == t.beneficiary && s.amount == t.amount && s.startTime == t.startTime
    && s.cliff == t.cliff && s.duration == t.duration
  }

  /** What one call can do to a grant: its terms stay, a revocation is a revoke call of the admin after the
      delay, and a revoked grant keeps its time of revocation. */
  lemma StepOnGrant(w: World, c: Call, id: nat)
    requires Inv(w) && id in SchedulesOf(w.vault)
    ensures id in SchedulesOf(Step(w, c).vault) && Step(w, c).vault.admin == w.vault.admin
    ensures var s, t := SchedulesOf(w.vault)[id], SchedulesOf(Step(w, c).vault)[id];
            && SameTerms(s, t)
            && (t.revoked && !s.revoked ==> RevokesAt(w, c, id) && t.revokeTime == c.now)
            && (s.revoked ==> t.revoked && t.revokeTime == s.revokeTime)
  {
    hide ClaimableAmount, TotalPaid, Gather, Settle, PaymentsOf, PayableAll, UpdatesFor, BackedAll;
    if c.Batch? && c.ids != [] && BatchClaim(w.vault, c.ids, c.who, c.now).Ok? {
      var updates := BatchUpdates(w, c);
      PayMany(w.vault.schedules.value, w.vault.counter, w.payments, w.vault.balance, updates);
    }
  }

  ghost predicate RevokesAt(w: World, c: Call, id: nat) {
    && c.Revoke? && c.id == id && !c.paused && w.vault.admin == Some(c.caller) && 3600 <= c.delay
    && id in SchedulesOf(w.vault) && SchedulesOf(w.vault)[id].startTime + c.delay <= c.now
  }

  /** A grant that a call creates is the grant that was asked for. */
  lemma StepCreates(w: World, c: Call, id: nat)
    requires Inv(w) && id !in SchedulesOf(w.vault) && id in SchedulesOf(Step(w, c).vault)
    ensures c.Grant? && !c.paused && w.vault.admin == Some(c.caller)
    ensures GrantedAs(SchedulesOf(Step(w, c).vault)[id], c) && !SchedulesOf(Step(w, c).vault)[id].revoked
  {
    hide ClaimableAmount, TotalPaid, Gather, Settle, PaymentsOf, PayableAll, UpdatesFor, BackedAll;
    if c.Batch? && c.ids != [] && BatchClaim(w.vault, c.ids, c.who, c.now).Ok? {
      var updates := BatchUpdates(w, c);
      PayMany(w.vault.schedules.value, w.vault.counter, w.payments, w.vault.balance, updates);
    }
  }

  lemma {:induction false} AdminStays(w: World, calls: seq<Call>)
    ensures Run(w, calls).vault.admin == w.vault.admin
  {
    hide GrantOne, RevokeOne;
    if calls != [] {
      AdminStays(w, calls[..|calls| - 1]);
      StepKeepsAdmin(Run(w, calls[..|calls| - 1]), calls[|calls| - 1]);
    }
  }

  lemma StepKeepsAdmin(w: World, c: Call)
    ensures Step(w, c).vault.admin == w.vault.admin
  {
    hide ClaimableAmount, Gather, Settle, PaymentsOf;
  }

  /** Every grant of a run comes from a grant call of the admin, made while the contract was not paused,
      with exactly these terms. */
  lemma {:induction false} GrantHasCall(w: World, calls: seq<Call>, id: nat) returns (i: nat)
    requires Inv(w) && id !in SchedulesOf(w.vault) && id in SchedulesOf(Run(w, calls).vault)
    ensures i < |calls| && calls[i].Grant? && !calls[i].paused && w.vault.admin == Some(calls[i].caller)
    ensures GrantedAs(SchedulesOf(Run(w, calls).vault)[id], calls[i])
  {
    hide Step, Inv;
    var n := |calls| - 1;
    var init, last := calls[..n], calls[n];
    var before := Run(w, init);
    RunKeepsInv(w, init);
    AdminStays(w, init);
    if id in SchedulesOf(before.vault) {
      i := GrantHasCall(w, init, id);
      StepOnGrant(before, last, id);
      assert calls[i] == init[i];
    } else {
      StepCreates(before, last, id);
      i := n;
    }
  }

  /** Every revoked grant of a run was revoked by a revoke call of the admin, at the noted time, with a
      delay of at least an hour that had passed since the grant's start. */
  lemma {:induction false} RevokedHasCall(w: World, calls: seq<Call>, id: nat) returns (i: nat)
    requires Inv(w) && id !in SchedulesOf(w.vault) && IsRevoked(Run(w, calls), id)
    ensures var s := SchedulesOf(Run(w, calls).vault)[id];
            && i < |calls| && calls[i].Revoke? && calls[i].id == id && !calls[i].paused
            && w.vault.admin == Some(calls[i].caller) && 3600 <= calls[i].delay
            && s.revokeTime == calls[i].now && s.startTime + calls[i].delay <= calls[i].now
  {
    hide Step, Inv;
    var n := |calls| - 1;
    var init, last := calls[..n], calls[n];
    var before := Run(w, init);
    RunKeepsInv(w, init);
    AdminStays(w, init);
    if id !in SchedulesOf(before.vault) {
      StepCreates(before, last, id);
      assert false;
    }
    StepOnGrant(before, last, id);
    if SchedulesOf(before.vault)[id].revoked {
      i := RevokedHasCall(w, init, id);
      assert calls[i] == init[i];
    } else {
      i := n;
    }
  }

  /** The call claims the grant: singly, or as one of a batch. */
  predicate Claims(c: Call, id: nat) {
    (c.Claim? && c.id == id) || (c.Batch? && id in c.ids)
  }

  function TimeOf(c: Call): (t: nat)
    requires c.Claim? || c.Batch?
  {
    c.now
  }

  /** What one call pays: each new payment goes to a grant whose beneficiary made the call and is exactly
      its share at the time of the call. */
  lemma StepPays(w: World, c: Call, i: nat)
    requires Inv(w) && |w.payments| <= i < |Step(w, c).payments|
    requires (c.Claim? || c.Batch?) ==> TimeOf(c) <= U64_MAX
    ensures var p := Step(w, c).payments[i];
            && Claims(c, p.id) && p.id in SchedulesOf(w.vault)
            && var s := SchedulesOf(w.vault)[p.id];
            s.beneficiary == c.who && !s.claimed && !s.revoked && Ripe(s, c.now) && p.amount == Share(s, c.now)
  {
    hide Settle, BackedAll, TotalPaid, Share, Ripe;
    if c.Claim? {
      SoundIsProper(SchedulesOf(w.vault), w.vault.counter);
      ClaimSucceedsIff(w.vault, c.id, c.who, c.now);
    } else if c.Batch? && c.ids != [] && BatchClaim(w.vault, c.ids, c.who, c.now).Ok? {
      var m := w.vault.schedules.value;
      SoundIsProper(m, w.vault.counter);
      BatchPayments(w, c);
      var j := i - |w.payments|;
      GatheredAt(m, c.ids, c.who, c.now, 0, j);
      ClaimableExact(m[c.ids[j]], c.who, c.now);
    } else if !c.Batch? {
      AdminKeepsInv(w, c);
      assert false;
    }
  }

  lemma {:induction false} GatheredAt(m: Schedules, ids: seq<nat>, who: Address, now: nat, total: int, j: nat)
    requires Gather(m, ids, who, now, total).Ok? && j < |PaymentsOf(Gather(m, ids, who, now, total).value.0)|
    ensures j < |ids| && ids[j] in m && ClaimableAmount(m[ids[j]], who, now).Ok?
    ensures PaymentsOf(Gather(m, ids, who, now, total).value.0)[j]
            == Payment(ids[j], ClaimableAmount(m[ids[j]], who, now).value)
    decreases |ids|
  {
    hide ClaimableAmount;
    var (updates, sum) := Gather(m, ids, who, now, total).value;
    if ids != [] {
      var amount := ClaimableAmount(m[ids[0]], who, now).value;
      var rest := Gather(m, ids[1..], who, now, total + amount).value.0;
      assert updates[1..] == rest;
      if j > 0 {
        GatheredAt(m, ids[1..], who, now, total + amount, j - 1);
        assert ids[j] == ids[1..][j - 1];
      }
    }
  }

  /** Every payment of a run was made by a claim or batch call of the grant's beneficiary, and is exactly
      the grant's share at the time of that call. */
  lemma {:induction false} PaymentHasCall(w: World, calls: seq<Call>, i: nat) returns (j: nat)
    requires Inv(w) && |w.payments| <= i < |Run(w, calls).payments|
    requires forall j :: 0 <= j < |calls| && (calls[j].Claim? || calls[j].Batch?) ==> TimeOf(calls[j]) <= U64_MAX
    ensures var p := Run(w, calls).payments[i];
            && j < |calls| && Claims(calls[j], p.id) && p.id in SchedulesOf(Run(w, calls).vault)
            && var s := SchedulesOf(Run(w, calls).vault)[p.id];
            s.beneficiary == calls[j].who && Ripe(s, calls[j].now) && p.amount == Share(s, calls[j].now)
  {
    hide Step, Inv;
    var n := |calls| - 1;
    var init, last := calls[..n], calls[n];
    var before := Run(w, init);
    RunKeepsInv(w, init);
    PaymentsOnlyGrow(before, last);
    if i < |before.payments| {
      j := PaymentHasCall(w, init, i);
      assert calls[j] == init[j];
      assert Run(w, calls).payments[i] == before.payments[i];
    } else {
      StepPays(before, last, i);
      j := n;
    }
    StepOnGrant(before, last, Run(w, calls).payments[i].id);
  }
}
