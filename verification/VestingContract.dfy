/** The vesting contract's entry points, which load the schedules, change them and store them back
    (Contracts/contracts/academy/src/vesting.rs). */
module VestingContract {
  import opened Arith
  import opened Wrappers
  import opened Vesting

  class AcademyVesting {
    var schedules: Option<Schedules>
    var hasToken: bool
    var admin: Option<Address>
    var counter: nat
    var balance: int

    ghost function View(): (v: Vault)
      reads this
    {
      Vault(schedules, hasToken, admin, counter, balance)
    }

    /** init */
    constructor (owner: Address, funds: nat)
      requires funds <= I128_MAX
      ensures View() == Vault(None, true, Some(owner), 0, funds)
      ensures Inv(World(View(), [], funds))
    {
      schedules, hasToken, admin, counter, balance := None, true, Some(owner), 0, funds;
    }

    /** grant_vesting */
    method GrantVesting(caller: Address, beneficiary: Address, amount: int, startTime: nat, cliff: nat, duration: nat,
                        paused: bool, now: nat) returns (r: Result<nat, VestingError>)
      modifies this`schedules, this`counter
      ensures var v := GrantOne(old(View()),
                Grant(caller, beneficiary, amount, startTime, cliff, duration, paused, now));
              if v.Ok? then r == Ok(counter) && View() == v.value else r == Err(v.error) && unchanged(this)
    {
      if paused {
        return Err(Aborted);
      }
      if admin != Some(caller) {
        return Err(Unauthorized);
      }
      if amount <= 0 {
        return Err(InvalidSchedule);
      }
      if cliff > duration {
        return Err(InvalidSchedule);
      }
      if counter + 1 > U64_MAX || !InI128(amount) {
        return Err(Aborted);
      }
      var id := counter + 1;
      var stored := if schedules.Some? then schedules.value else map[];
      schedules := Some(stored[id := Schedule(beneficiary, amount, startTime, cliff, duration, false, false, 0)]);
      counter := id;
      r := Ok(id);
    }

    /** claim */
    method Claim(id: nat, who: Address, now: nat) returns (r: Result<int, VestingError>)
      modifies this`schedules, this`balance
      ensures var v := ClaimOne(old(View()), id, who, now);
              if v.Ok? then r == Ok(v.value.1) && View() == v.value.0 else r == Err(v.error) && unchanged(this)
    {
      hide ClaimableAmount;
      if schedules.None? || id !in schedules.value {
        return Err(GrantNotFound);
      }
      var schedule := schedules.value[id];
      var amount :- ClaimableAmount(schedule, who, now);
      if !hasToken {
        return Err(Unauthorized);
      }
      if balance < amount {
        return Err(InsufficientBalance);
      }
      schedule := schedule.(claimed := true);
      schedules := Some(schedules.value[id := schedule]);
      balance := balance - amount;
      r := Ok(amount);
    }

    /** The first loop of batch_claim. */
    method GatherUpdates(stored: Schedules, ids: seq<nat>, who: Address, now: nat)
      returns (r: Result<(seq<Update>, int), VestingError>)
      ensures r == Gather(stored, ids, who, now, 0)
    {
      hide ClaimableAmount;
      var updates: seq<Update>, total := [], 0;
      assert ids[0..] == ids;
      PrefixedNil(Gather(stored, ids, who, now, 0));
      for i := 0 to |ids|
        invariant Gather(stored, ids, who, now, 0) == Prefixed(updates, Gather(stored, ids[i..], who, now, total))
      {
        assert ids[i..][0] == ids[i] && ids[i..][1..] == ids[i + 1..];
        if ids[i] !in stored {
          return Err(GrantNotFound);
        }
        var schedule := stored[ids[i]];
        var amount :- ClaimableAmount(schedule, who, now);
        if !InI128(total + amount) {
          return Err(Aborted);
        }
        PrefixedSnoc(updates, Update(ids[i], schedule.(claimed := true), amount),
                     Gather(stored, ids[i + 1..], who, now, total + amount));
        total := total + amount;
        updates := updates + [Update(ids[i], schedule.(claimed := true), amount)];
      }
      assert ids[|ids|..] == [] && updates + [] == updates;
      r := Ok((updates, total));
    }

    /** batch_claim: on an error nothing changes; on success every grant of the batch is claimed and paid.
        For distinct grants this is exactly what claiming them one by one does. */
    method BatchClaimGrants(ids: seq<nat>, who: Address, now: nat) returns (r: Result<int, VestingError>)
      modifies this`schedules, this`balance
      ensures var v := BatchClaim(old(View()), ids, who, now);
              if v.Ok? then r == Ok(v.value.1) && View() == v.value.0 else r == Err(v.error) && unchanged(this)
      ensures (old(schedules).Some? ==> ProperAll(old(schedules).value)) && 0 <= old(balance) <= I128_MAX
              && Distinct(ids) && |ids| <= MAX_BATCH_CLAIMS ==>
                var each := ClaimEach(old(View()), ids, who, now);
                if each.Ok? then r == Ok(each.value.1) && View() == each.value.0 else r.Err?
    {
      hide Gather, ClaimEach, Proper;
      if (schedules.Some? ==> ProperAll(schedules.value)) && 0 <= balance <= I128_MAX
         && Distinct(ids) && |ids| <= MAX_BATCH_CLAIMS {
        BatchEqualsSequence(View(), ids, who, now);
      }
      if ids == [] {
        return Ok(0);
      }
      if |ids| > MAX_BATCH_CLAIMS {
        return Err(BatchTooLarge);
      }
      if schedules.None? {
        return Err(GrantNotFound);
      }
      if !hasToken {
        return Err(Unauthorized);
      }
      var stored: Schedules := schedules.value;
      var gathered :- GatherUpdates(stored, ids, who, now);
      var (updates, total) := gathered;
      if balance < total {
        return Err(InsufficientBalance);
      }
      for i := 0 to |updates|
        invariant schedules == old(schedules)
        invariant Settle(old(schedules).value, old(balance), updates) == Settle(stored, balance, updates[i..])
      {
        assert updates[i..][0] == updates[i] && updates[i..][1..] == updates[i + 1..];
        stored := stored[updates[i].id := updates[i].schedule];
        balance := balance - updates[i].amount;
      }
      schedules := Some(stored);
      r := Ok(total);
    }

    /** revoke */
    method RevokeGrant(id: nat, caller: Address, delay: nat, paused: bool, now: nat)
      returns (r: Result<(), VestingError>)
      modifies this`schedules
      ensures var v := RevokeOne(old(View()), Revoke(id, caller, delay, paused, now));
              if v.Ok? then r == Ok(()) && View() == v.value else r == Err(v.error) && unchanged(this)
    {
      if paused {
        return Err(Aborted);
      }
      if admin != Some(caller) {
        return Err(Unauthorized);
      }
      if schedules.None? || id !in schedules.value {
        return Err(GrantNotFound);
      }
      var schedule := schedules.value[id];
      if schedule.claimed {
        return Err(AlreadyClaimed);
      }
      if schedule.revoked {
        return Err(Revoked);
      }
      if delay < MIN_REVOKE_DELAY {
        return Err(InvalidTimelock);
      }
      if schedule.startTime + delay > U64_MAX {
        return Err(Aborted);
      }
      if now < schedule.startTime + delay {
        return Err(NotEnoughTimeForRevoke);
      }
      schedules := Some(schedules.value[id := schedule.(revoked := true, revokeTime := now)]);
      r := Ok(());
    }
  }

  /** A gathered result with earlier updates put in front. */
  function Prefixed(updates: seq<Update>, g: Result<(seq<Update>, int), VestingError>)
    : (r: Result<(seq<Update>, int), VestingError>)
  {
    if g.Err? then g else Ok((updates + g.value.0, g.value.1))
  }

  lemma PrefixedNil(g: Result<(seq<Update>, int), VestingError>)
    ensures Prefixed([], g) == g
  {
    if g.Ok? {
      assert [] + g.value.0 == g.value.0;
    }
  }

  lemma PrefixedSnoc(updates: seq<Update>, u: Update, g: Result<(seq<Update>, int), VestingError>)
    ensures Prefixed(updates, Prefixed([u], g)) == Prefixed(updates + [u], g)
  {
    if g.Ok? {
      assert updates + ([u] + g.value.0) == updates + [u] + g.value.0;
    }
  }
}
