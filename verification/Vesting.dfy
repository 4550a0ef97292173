/** Academy reward vesting: grants, single and batched claims, revocation
    (Contracts/contracts/academy/src/vesting.rs). */
module Vesting {
  import opened Arith
  import opened Wrappers

  type Address = nat

  const MAX_BATCH_CLAIMS: nat := 25
  const MIN_REVOKE_DELAY: nat := 3600

  datatype Schedule = Schedule(
    beneficiary: Address,
    amount: int,
    startTime: nat,
    cliff: nat,
    duration: nat,
    claimed: bool,
    revoked: bool,
    revokeTime: nat)

  datatype VestingError =
    | Unauthorized
    | NotVested
    | AlreadyClaimed
    | InvalidSchedule
    | InsufficientBalance
    | GrantNotFound
    | Revoked
    | InvalidTimelock
    | NotEnoughTimeForRevoke
    | BatchTooLarge
    | Aborted

  // ---------------------------------------------------------------------------------------
  // Vested amount

  function FitU64(x: int): (r: Checked<int>) {
    if 0 <= x <= U64_MAX then Value(x) else Panic
  }

  function FitU128(x: int): (r: Checked<int>) {
    if 0 <= x <= U128_MAX then Value(x) else Panic
  }

  /** `as u128` and `as i128` reinterpret the bits. */
  function AsU128(x: int): (r: int) {
    if x < 0 then x + U128_MAX + 1 else x
  }

  function AsI128(x: int): (r: int) {
    if x > I128_MAX then x - U128_MAX - 1 else x
  }

  /** calculate_vested_amount: nothing before the cliff, linear after it, everything at the end. */
  function VestedAmount(s: Schedule, now: nat): (r: Checked<int>) {
    if now < s.startTime then Value(0)
    else
      var cliffEnd :- FitU64(s.startTime + s.cliff);
      if now < cliffEnd then Value(0)
      else
        var end :- FitU64(s.startTime + s.duration);
        if now >= end then Value(s.amount)
        else
          var remaining :- FitU64(s.duration - s.cliff);
          if remaining == 0 then Value(s.amount)
          else
            var product :- FitU128(AsU128(s.amount) * (now - cliffEnd));
            Value(AsI128(product / remaining))
  }

  /** The schedules grant_vesting accepts. */
  predicate Proper(s: Schedule) {
    0 < s.amount <= I128_MAX && s.cliff <= s.duration
  }

  lemma LinearPart(amount: int, elapsed: int, remaining: int)
    requires 0 <= amount && 0 <= elapsed < remaining
    ensures 0 <= amount * elapsed / remaining <= amount
  {
    MulNonNeg(amount, elapsed);
    FloorNonNeg(amount * elapsed, remaining);
    MulMono(elapsed, remaining, amount);
    Distribute(remaining, amount, 1);
    FloorBelow(amount, amount * elapsed, remaining);
  }

  /** The vested amount lies between zero and the grant. */
  lemma VestedInRange(s: Schedule, now: nat)
    requires Proper(s) && VestedAmount(s, now).Value?
    ensures 0 <= VestedAmount(s, now).value <= s.amount
  {
    var cliffEnd, end := s.startTime + s.cliff, s.startTime + s.duration;
    if cliffEnd <= now < end {
      LinearPart(s.amount, now - cliffEnd, s.duration - s.cliff);
    }
  }

  /** Where the times and the product fit, the vested amount never aborts: it is zero before the cliff,
      the grant from the end on, and in between the grant's linear share of the time since the cliff,
      less than one unit rounded off. */
  lemma VestedShape(s: Schedule, now: nat)
    requires Proper(s) && s.startTime + s.duration <= U64_MAX
    requires s.amount * (s.duration - s.cliff) <= U128_MAX
    ensures VestedAmount(s, now).Value?
    ensures var v, since, whole := VestedAmount(s, now).value, now - s.startTime - s.cliff, s.duration - s.cliff;
            && (since < 0 ==> v == 0)
            && (0 <= since && whole <= since ==> v == s.amount)
            && (0 <= since < whole ==> v * whole <= s.amount * since < (v + 1) * whole)
  {
    var since, whole := now - s.startTime - s.cliff, s.duration - s.cliff;
    if 0 <= since < whole {
      MulNonNeg(s.amount, since);
      MulMono(since, whole, s.amount);
      FloorBounds(s.amount * since, whole);
      LinearPart(s.amount, since, whole);
    }
  }

  /** The vested amount never shrinks as time passes. */
  lemma VestedMonotone(s: Schedule, t1: nat, t2: nat)
    requires Proper(s) && t1 <= t2
    requires VestedAmount(s, t1).Value? && VestedAmount(s, t2).Value?
    ensures VestedAmount(s, t1).value <= VestedAmount(s, t2).value
  {
    VestedInRange(s, t1);
    VestedInRange(s, t2);
    var cliffEnd, end := s.startTime + s.cliff, s.startTime + s.duration;
    if cliffEnd <= t1 && t2 < end {
      var d := s.duration - s.cliff;
      LinearPart(s.amount, t1 - cliffEnd, d);
      LinearPart(s.amount, t2 - cliffEnd, d);
      MulMono(t1 - cliffEnd, t2 - cliffEnd, s.amount);
      FloorMono(s.amount * (t1 - cliffEnd), s.amount * (t2 - cliffEnd), d);
    }
  }

  // ---------------------------------------------------------------------------------------
  // Claims

  type Schedules = map<nat, Schedule>

  /** Contract storage and the contract's token balance. Storage that was never written is absent. */
  datatype Vault = Vault(
    schedules: Option<Schedules>,
    hasToken: bool,
    admin: Option<Address>,
    counter: nat,
    balance: int)

  function ClaimableAmount(s: Schedule, who: Address, now: nat): (r: Result<int, VestingError>) {
    if s.beneficiary != who then Err(Unauthorized)
    else if s.claimed then Err(AlreadyClaimed)
    else if s.revoked then Err(Revoked)
    else
      var vested := VestedAmount(s, now);
      if vested.Panic? then Err(Aborted)
      else if vested.value == 0 then Err(NotVested)
      else Ok(vested.value)
  }

  /** claim: the new vault and the amount paid, or the error. */
  function ClaimOne(v: Vault, id: nat, who: Address, now: nat): (r: Result<(Vault, int), VestingError>) {
    if v.schedules.None? || id !in v.schedules.value then Err(GrantNotFound)
    else
      var s := v.schedules.value[id];
      var amount :- ClaimableAmount(s, who, now);
      if !v.hasToken then Err(Unauthorized)
      else if v.balance < amount then Err(InsufficientBalance)
      else
        Ok((v.(schedules := Some(v.schedules.value[id := s.(claimed := true)]), balance := v.balance - amount), amount))
  }

  /** Claiming the grants one by one at the same ledger time; the total paid. */
  function ClaimEach(v: Vault, ids: seq<nat>, who: Address, now: nat): (r: Result<(Vault, int), VestingError>)
    decreases |ids|
  {
    if ids == [] then Ok((v, 0))
    else
      var (next, amount) :- ClaimOne(v, ids[0], who, now);
      var (last, rest) :- ClaimEach(next, ids[1..], who, now);
      Ok((last, amount + rest))
  }

  datatype Update = Update(id: nat, schedule: Schedule, amount: int)

  /** The first loop of batch_claim: look everything up against the stored schedules and add it up. */
  function Gather(m: Schedules, ids: seq<nat>, who: Address, now: nat, total: int)
    : (r: Result<(seq<Update>, int), VestingError>)
    decreases |ids|
  {
    if ids == [] then Ok(([], total))
    else if ids[0] !in m then Err(GrantNotFound)
    else
      var amount :- ClaimableAmount(m[ids[0]], who, now);
      if !InI128(total + amount) then Err(Aborted)
      else
        var (updates, sum) :- Gather(m, ids[1..], who, now, total + amount);
        Ok(([Update(ids[0], m[ids[0]].(claimed := true), amount)] + updates, sum))
  }

  /** The second loop: store every update and pay it out. */
  function Settle(m: Schedules, balance: int, updates: seq<Update>): (r: (Schedules, int))
    decreases |updates|
  {
    if updates == [] then (m, balance)
    else Settle(m[updates[0].id := updates[0].schedule], balance - updates[0].amount, updates[1..])
  }

  /** batch_claim */
  function BatchClaim(v: Vault, ids: seq<nat>, who: Address, now: nat): (r: Result<(Vault, int), VestingError>) {
    if ids == [] then Ok((v, 0))
    else if |ids| > MAX_BATCH_CLAIMS then Err(BatchTooLarge)
    else if v.schedules.None? then Err(GrantNotFound)
    else if !v.hasToken then Err(Unauthorized)
    else
      var (updates, total) :- Gather(v.schedules.value, ids, who, now, 0);
      if v.balance < total then Err(InsufficientBalance)
      else
        var (m, balance) := Settle(v.schedules.value, v.balance, updates);
        Ok((v.(schedules := Some(m), balance := balance), total))
  }

  ghost predicate ProperAll(m: Schedules) {
    forall id <- m :: Proper(m[id])
  }

  /** What the listed grants are worth together, if all of them can be claimed. */
  function Bill(m: Schedules, ids: seq<nat>, who: Address, now: nat): (r: Option<int>)
    decreases |ids|
  {
    if ids == [] then Some(0)
    else if ids[0] !in m || ClaimableAmount(m[ids[0]], who, now).Err? then None
    else
      var rest :- Bill(m, ids[1..], who, now);
      Some(ClaimableAmount(m[ids[0]], who, now).value + rest)
  }

  function MarkClaimed(m: Schedules, ids: seq<nat>): (r: Schedules)
    decreases |ids|
  {
    if ids == [] then m
    else MarkClaimed(if ids[0] in m then m[ids[0] := m[ids[0]].(claimed := true)] else m, ids[1..])
  }

  ghost predicate Distinct(ids: seq<nat>) {
    forall i, j :: 0 <= i < j < |ids| ==> ids[i] != ids[j]
  }

  lemma ClaimablePositive(s: Schedule, who: Address, now: nat)
    requires Proper(s) && ClaimableAmount(s, who, now).Ok?
    ensures 0 < ClaimableAmount(s, who, now).value <= s.amount
  {
    VestedInRange(s, now);
  }

  lemma {:induction false} BillNonNeg(m: Schedules, ids: seq<nat>, who: Address, now: nat)
    requires ProperAll(m) && Bill(m, ids, who, now).Some?
    ensures 0 <= Bill(m, ids, who, now).value
    decreases |ids|
  {
    hide ClaimableAmount;
    if ids != [] {
      ClaimablePositive(m[ids[0]], who, now);
      BillNonNeg(m, ids[1..], who, now);
    }
  }

  /** Changing one schedule does not change the bill of other grants. */
  lemma {:induction false} BillIgnores(m: Schedules, id: nat, s: Schedule, ids: seq<nat>, who: Address, now: nat)
    requires id !in ids
    ensures Bill(m[id := s], ids, who, now) == Bill(m, ids, who, now)
    decreases |ids|
  {
    hide ClaimableAmount;
    if ids != [] {
      BillIgnores(m, id, s, ids[1..], who, now);
    }
  }

  /** One by one: it works exactly when every grant can be claimed and the balance covers the bill. */
  lemma {:induction false} ClaimEachPaysBill(v: Vault, ids: seq<nat>, who: Address, now: nat)
    requires v.schedules.Some? && ProperAll(v.schedules.value) && v.hasToken && Distinct(ids)
    requires 0 <= v.balance
    ensures var m := v.schedules.value;
            var bill := Bill(m, ids, who, now);
            && (ClaimEach(v, ids, who, now).Ok? <==> bill.Some? && bill.value <= v.balance)
            && (ClaimEach(v, ids, who, now).Ok? ==>
                  ClaimEach(v, ids, who, now).value
                  == (v.(schedules := Some(MarkClaimed(m, ids)), balance := v.balance - bill.value), bill.value))
    decreases |ids|
  {
    hide ClaimableAmount, Proper;
    if ids != [] {
      var m, id := v.schedules.value, ids[0];
      assert id !in ids[1..];
      if id in m && ClaimableAmount(m[id], who, now).Ok? {
        var amount := ClaimableAmount(m[id], who, now).value;
        var s := m[id].(claimed := true);
        ClaimablePositive(m[id], who, now);
        BillIgnores(m, id, s, ids[1..], who, now);
        if Bill(m, ids[1..], who, now).Some? {
          BillNonNeg(m, ids[1..], who, now);
        }
        if amount <= v.balance {
          ClaimingKeepsProper(m, id);
          ClaimEachPaysBill(v.(schedules := Some(m[id := s]), balance := v.balance - amount), ids[1..], who, now);
        }
      }
    }
  }

  lemma ClaimingKeepsProper(m: Schedules, id: nat)
    requires ProperAll(m) && id in m
    ensures ProperAll(m[id := m[id].(claimed := true)])
  {
  }

  /** The updates of the first loop: every grant in turn, marked as claimed, over the given schedules. */
  ghost predicate UpdatesFor(m: Schedules, ids: seq<nat>, updates: seq<Update>) {
    && |updates| == |ids|
    && forall i :: 0 <= i < |ids| ==> UpdateFor(m, ids[i], updates[i])
  }

  ghost predicate UpdateFor(m: Schedules, id: nat, u: Update) {
    id in m && u.id == id && u.schedule == m[id].(claimed := true)
  }

  function Paid(updates: seq<Update>): (r: int) {
    if updates == [] then 0 else updates[0].amount + Paid(updates[1..])
  }

  /** The first loop succeeds exactly when the bill exists and fits the number range. */
  lemma {:induction false} GatherAddsBill(m: Schedules, ids: seq<nat>, who: Address, now: nat, total: int)
    requires ProperAll(m) && 0 <= total <= I128_MAX
    ensures var bill := Bill(m, ids, who, now);
            var g := Gather(m, ids, who, now, total);
            && (g.Ok? <==> bill.Some? && total + bill.value <= I128_MAX)
            && (g.Ok? ==> g.value.1 == total + bill.value && Paid(g.value.0) == bill.value)
            && (g.Ok? ==> UpdatesFor(m, ids, g.value.0))
    decreases |ids|
  {
    hide ClaimableAmount, Proper;
    if ids != [] && ids[0] in m && ClaimableAmount(m[ids[0]], who, now).Ok? {
      var amount := ClaimableAmount(m[ids[0]], who, now).value;
      ClaimablePositive(m[ids[0]], who, now);
      if Bill(m, ids[1..], who, now).Some? {
        BillNonNeg(m, ids[1..], who, now);
      }
      if total + amount <= I128_MAX {
        GatherAddsBill(m, ids[1..], who, now, total + amount);
        var g := Gather(m, ids[1..], who, now, total + amount);
        if g.Ok? {
          var updates := [Update(ids[0], m[ids[0]].(claimed := true), amount)] + g.value.0;
          assert updates[1..] == g.value.0;
          assert UpdatesFor(m, ids, updates);
        }
      }
    }
  }

  lemma {:induction false} SettleMarks(m: Schedules, balance: int, ids: seq<nat>, updates: seq<Update>)
    requires Distinct(ids) && UpdatesFor(m, ids, updates)
    ensures Settle(m, balance, updates) == (MarkClaimed(m, ids), balance - Paid(updates))
    decreases |ids|
  {
    if ids != [] {
      assert UpdateFor(m, ids[0], updates[0]);
      var next := m[ids[0] := updates[0].schedule];
      forall i | 0 <= i < |ids[1..]| ensures UpdateFor(next, ids[1..][i], updates[1..][i]) {
        assert UpdateFor(m, ids[i + 1], updates[i + 1]);
      }
      SettleMarks(next, balance - updates[0].amount, ids[1..], updates[1..]);
    }
  }

  /** batch_claim on pairwise distinct grants succeeds exactly when claiming them one by one at the same
      ledger time succeeds, and then leaves the same schedules and balance and pays the same total. A
      batch may hold at most 25 grants. */
  lemma BatchEqualsSequence(v: Vault, ids: seq<nat>, who: Address, now: nat)
    requires v.schedules.Some? ==> ProperAll(v.schedules.value)
    requires 0 <= v.balance <= I128_MAX
    requires Distinct(ids) && |ids| <= MAX_BATCH_CLAIMS
    ensures BatchClaim(v, ids, who, now).Ok? <==> ClaimEach(v, ids, who, now).Ok?
    ensures BatchClaim(v, ids, who, now).Ok? ==> BatchClaim(v, ids, who, now).value == ClaimEach(v, ids, who, now).value
  {
    hide ClaimableAmount, Gather, Settle, MarkClaimed, Bill;
    if ids != [] && v.schedules.Some? && v.hasToken {
      var m := v.schedules.value;
      ClaimEachPaysBill(v, ids, who, now);
      GatherAddsBill(m, ids, who, now, 0);
      var g := Gather(m, ids, who, now, 0);
      if g.Ok? {
        SettleMarks(m, v.balance, ids, g.value.0);
      }
    }
  }

  /** Claiming one by one always fails on a repeated grant: the second claim finds it claimed. */
  lemma {:induction false} RepeatedClaimFails(v: Vault, ids: seq<nat>, who: Address, now: nat, i: nat, j: nat)
    requires i < j < |ids| && ids[i] == ids[j]
    ensures ClaimEach(v, ids, who, now).Err?
    decreases |ids|
  {
    hide ClaimableAmount;
    var first := ClaimOne(v, ids[0], who, now);
    if first.Ok? {
      if i == 0 {
        ClaimedStaysClaimed(first.value.0, ids[1..], who, now, ids[0], j - 1);
      } else {
        RepeatedClaimFails(first.value.0, ids[1..], who, now, i - 1, j - 1);
      }
    }
  }

  lemma {:induction false} ClaimedStaysClaimed(v: Vault, ids: seq<nat>, who: Address, now: nat, id: nat, j: nat)
    requires v.schedules.Some? && id in v.schedules.value && v.schedules.value[id].claimed
    requires j < |ids| && ids[j] == id
    ensures ClaimEach(v, ids, who, now).Err?
    decreases |ids|
  {
    if j > 0 {
      var first := ClaimOne(v, ids[0], who, now);
      if first.Ok? {
        ClaimedStaysClaimed(first.value.0, ids[1..], who, now, id, j - 1);
      }
    }
  }

  /** A batch that succeeds agrees with claiming one by one exactly when no grant is named twice. */
  lemma BatchAgreesIffDistinct(v: Vault, ids: seq<nat>, who: Address, now: nat)
    requires v.schedules.Some? ==> ProperAll(v.schedules.value)
    requires 0 <= v.balance <= I128_MAX && BatchClaim(v, ids, who, now).Ok?
    ensures ClaimEach(v, ids, who, now) == BatchClaim(v, ids, who, now) <==> Distinct(ids)
  {
    hide ClaimableAmount, Gather, Settle, ClaimEach;
    if Distinct(ids) {
      BatchEqualsSequence(v, ids, who, now);
    } else {
      var i, j :| 0 <= i < j < |ids| && ids[i] == ids[j];
      RepeatedClaimFails(v, ids, who, now, i, j);
    }
  }

  /** Distinctness is needed: a batch that names a fully vested grant twice succeeds and pays it twice,
      while claiming it twice fails. */
  lemma RepeatedBatchPaysTwice()
    ensures var s := Schedule(7, 100, 0, 0, 10, false, false, 0);
            var v := Vault(Some(map[1 := s]), true, Some(9), 1, 1000);
            && BatchClaim(v, [1, 1], 7, 20).Ok? && BatchClaim(v, [1, 1], 7, 20).value.1 == 200
            && ClaimEach(v, [1, 1], 7, 20).Err?
  {
    var s := Schedule(7, 100, 0, 0, 10, false, false, 0);
    var m := map[1 := s];
    var v := Vault(Some(m), true, Some(9), 1, 1000);
    assert ClaimableAmount(s, 7, 20) == Ok(100);
    assert [1, 1][1..] == [1] && [1][1..] == [];
    assert Gather(m, [], 7, 20, 200) == Ok(([], 200));
    assert Gather(m, [1], 7, 20, 100).Ok? && Gather(m, [1], 7, 20, 100).value.1 == 200;
    RepeatedClaimFails(v, [1, 1], 7, 20, 0, 1);
  }

  // ---------------------------------------------------------------------------------------
  // Runs

  datatype Call =
    | Grant(caller: Address, beneficiary: Address, amount: int, startTime: nat, cliff: nat, duration: nat,
            paused: bool, now: nat)
    | Claim(id: nat, who: Address, now: nat)
    | Batch(ids: seq<nat>, who: Address, now: nat)
    | Revoke(id: nat, caller: Address, delay: nat, paused: bool, now: nat)
    | Fund(deposit: nat)

  datatype Payment = Payment(id: nat, amount: int)

  /** The vault, every payment made so far, oldest first, and all tokens ever deposited. */
  datatype World = World(vault: Vault, payments: seq<Payment>, deposited: int)

  /** grant_vesting */
  function GrantOne(v: Vault, c: Call): (r: Result<Vault, VestingError>)
    requires c.Grant?
  {
    if c.paused then Err(Aborted)
    else if v.admin != Some(c.caller) then Err(Unauthorized)
    else if c.amount <= 0 || c.cliff > c.duration then Err(InvalidSchedule)
    else if v.counter + 1 > U64_MAX || !InI128(c.amount) then Err(Aborted)
    else
      var id := v.counter + 1;
      var m := if v.schedules.Some? then v.schedules.value else map[];
      var s := Schedule(c.beneficiary, c.amount, c.startTime, c.cliff, c.duration, false, false, 0);
      Ok(v.(schedules := Some(m[id := s]), counter := id))
  }

  /** revoke */
  function RevokeOne(v: Vault, c: Call): (r: Result<Vault, VestingError>)
    requires c.Revoke?
  {
    if c.paused then Err(Aborted)
    else if v.admin != Some(c.caller) then Err(Unauthorized)
    else if v.schedules.None? || c.id !in v.schedules.value then Err(GrantNotFound)
    else
      var s := v.schedules.value[c.id];
      if s.claimed then Err(AlreadyClaimed)
      else if s.revoked then Err(Revoked)
      else if c.delay < MIN_REVOKE_DELAY then Err(InvalidTimelock)
      else if s.startTime + c.delay > U64_MAX then Err(Aborted)
      else if c.now < s.startTime + c.delay then Err(NotEnoughTimeForRevoke)
      else Ok(v.(schedules := Some(v.schedules.value[c.id := s.(revoked := true, revokeTime := c.now)])))
  }

  function PaymentsOf(updates: seq<Update>): (r: seq<Payment>)
    ensures |r| == |updates|
  {
    if updates == [] then [] else [Payment(updates[0].id, updates[0].amount)] + PaymentsOf(updates[1..])
  }

  /** One call; a failing call changes nothing. */
  function Step(w: World, c: Call): (r: World) {
    match c
    case Grant(_, _, _, _, _, _, _, _) =>
      var v := GrantOne(w.vault, c);
      if v.Ok? then w.(vault := v.value) else w
    case Revoke(_, _, _, _, _) =>
      var v := RevokeOne(w.vault, c);
      if v.Ok? then w.(vault := v.value) else w
    case Fund(deposit) =>
      if w.vault.balance + deposit > I128_MAX then w
      else w.(vault := w.vault.(balance := w.vault.balance + deposit), deposited := w.deposited + deposit)
    case Claim(id, who, now) =>
      var r := ClaimOne(w.vault, id, who, now);
      if r.Err? then w else w.(vault := r.value.0, payments := w.payments + [Payment(id, r.value.1)])
    case Batch(ids, who, now) =>
      var r := BatchClaim(w.vault, ids, who, now);
      if r.Err? || ids == [] then w
      else w.(vault := r.value.0,
              payments := w.payments + PaymentsOf(Gather(w.vault.schedules.value, ids, who, now, 0).value.0))
  }

  function Run(w: World, calls: seq<Call>): (r: World) {
    if calls == [] then w else Step(Run(w, calls[..|calls| - 1]), calls[|calls| - 1])
  }

  function TotalPaid(ps: seq<Payment>): (r: int) {
    if ps == [] then 0 else TotalPaid(ps[..|ps| - 1]) + ps[|ps| - 1].amount
  }

  function SchedulesOf(v: Vault): (m: Schedules) {
    if v.schedules.Some? then v.schedules.value else map[]
  }

  /** A payment is backed by a claimed grant and does not exceed it. */
  ghost predicate Backed(m: Schedules, p: Payment) {
    p.id in m && m[p.id].claimed && 0 < p.amount <= m[p.id].amount
  }

  ghost predicate SoundSchedules(m: Schedules, counter: nat) {
    forall id <- m :: Proper(m[id]) && id <= counter && !(m[id].claimed && m[id].revoked)
  }

  ghost predicate BackedAll(m: Schedules, ps: seq<Payment>) {
    forall i :: 0 <= i < |ps| ==> Backed(m, ps[i])
  }

  /** No grant is paid twice. */
  ghost predicate Once(ps: seq<Payment>) {
    forall i, j :: 0 <= i < j < |ps| ==> ps[i].id != ps[j].id
  }

  /** In every reachable world: each payment is at most its grant's amount and its grant is marked as
      claimed, no grant is both claimed and revoked, and deposits equal payments plus balance. */
  ghost predicate Inv(w: World) {
    && SoundSchedules(SchedulesOf(w.vault), w.vault.counter)
    && BackedAll(SchedulesOf(w.vault), w.payments)
    && 0 <= w.vault.balance <= I128_MAX
    && w.vault.balance + TotalPaid(w.payments) == w.deposited
  }

  /** An update that keeps the books sound: a grant not revoked, marked as claimed, an amount it covers. */
  ghost predicate Payable(m: Schedules, u: Update) {
    && u.id in m && !m[u.id].revoked
    && 0 < u.amount <= m[u.id].amount && u.schedule == m[u.id].(claimed := true)
  }

  ghost predicate PayableAll(m: Schedules, updates: seq<Update>) {
    forall i :: 0 <= i < |updates| ==> Payable(m, updates[i])
  }

  /** Paying one grant keeps schedules and payments sound, and other updates payable. */
  lemma PayOne(m: Schedules, counter: nat, ps: seq<Payment>, u: Update)
    requires SoundSchedules(m, counter) && BackedAll(m, ps) && Payable(m, u)
    ensures var next := m[u.id := u.schedule];
            SoundSchedules(next, counter) && BackedAll(next, ps + [Payment(u.id, u.amount)])
  {
    var next := m[u.id := u.schedule];
    forall i | 0 <= i < |ps| ensures Backed(next, ps[i]) {
      assert Backed(m, ps[i]);
    }
    assert Backed(next, Payment(u.id, u.amount));
  }

  /** Paying a batch, one update after another, whether or not a grant is named twice. */
  lemma {:induction false} PayMany(m: Schedules, counter: nat, ps: seq<Payment>, balance: int, updates: seq<Update>)
    requires SoundSchedules(m, counter) && BackedAll(m, ps) && PayableAll(m, updates)
    ensures var (next, left) := Settle(m, balance, updates);
            && SoundSchedules(next, counter) && BackedAll(next, ps + PaymentsOf(updates))
            && left + TotalPaid(ps + PaymentsOf(updates)) == balance + TotalPaid(ps)
            && left == balance - Paid(updates)
            && next.Keys == m.Keys && (forall id <- m :: SameGrant(m[id], next[id]))
    decreases |updates|
  {
    hide SoundSchedules, BackedAll, Payable, Settle, TotalPaid, PaymentsOf;
    SettleUnfold(m, balance, ps, updates);
    if updates != [] {
      var u := updates[0];
      assert Payable(m, u);
      PayOne(m, counter, ps, u);
      StillPayable(m, updates);
      TotalSnoc(ps, Payment(u.id, u.amount));
      PayMany(m[u.id := u.schedule], counter, ps + [Payment(u.id, u.amount)], balance - u.amount, updates[1..]);
      PaidKeepsGrants(m, u);
    }
  }

  /** Only the claimed mark may differ. */
  predicate SameGrant(s: Schedule, t: Schedule) {
    t == s.(claimed := t.claimed)
  }

  lemma PaidKeepsGrants(m: Schedules, u: Update)
    requires Payable(m, u)
    ensures var next := m[u.id := u.schedule]; next.Keys == m.Keys && forall id <- m :: SameGrant(m[id], next[id])
  {
  }

  lemma SettleUnfold(m: Schedules, balance: int, ps: seq<Payment>, updates: seq<Update>)
    ensures updates == [] ==> Settle(m, balance, updates) == (m, balance) && ps + PaymentsOf(updates) == ps
    ensures updates != [] ==>
              var u := updates[0];
              && Settle(m, balance, updates) == Settle(m[u.id := u.schedule], balance - u.amount, updates[1..])
              && ps + PaymentsOf(updates) == ps + [Payment(u.id, u.amount)] + PaymentsOf(updates[1..])
  {
  }

  lemma TotalSnoc(ps: seq<Payment>, p: Payment)
    ensures TotalPaid(ps + [p]) == TotalPaid(ps) + p.amount
  {
    assert (ps + [p])[..|ps|] == ps;
  }

  lemma StillPayable(m: Schedules, updates: seq<Update>)
    requires updates != [] && PayableAll(m, updates)
    ensures PayableAll(m[updates[0].id := updates[0].schedule], updates[1..])
  {
    var next, rest := m[updates[0].id := updates[0].schedule], updates[1..];
    assert Payable(m, updates[0]);
    forall i | 0 <= i < |rest| ensures Payable(next, rest[i]) {
      assert Payable(m, updates[i + 1]);
    }
  }

  /** What the first loop of batch_claim gathers may be paid, and pays grants that were still open. */
  lemma {:induction false} GatheredPayable(m: Schedules, counter: nat, ids: seq<nat>, who: Address, now: nat,
                                           total: int)
    requires SoundSchedules(m, counter) && Gather(m, ids, who, now, total).Ok?
    ensures forall u :: u in Gather(m, ids, who, now, total).value.0 ==> Payable(m, u) && !m[u.id].claimed
    decreases |ids|
  {
    if ids != [] {
      ClaimablePositive(m[ids[0]], who, now);
      var amount := ClaimableAmount(m[ids[0]], who, now).value;
      GatheredPayable(m, counter, ids[1..], who, now, total + amount);
    }
  }

  lemma ClaimKeepsInv(w: World, c: Call)
    requires Inv(w) && c.Claim?
    ensures Inv(Step(w, c))
    ensures Once(w.payments) ==> Once(Step(w, c).payments)
  {
    hide SoundSchedules, BackedAll;
    var r := ClaimOne(w.vault, c.id, c.who, c.now);
    if r.Ok? {
      var m := w.vault.schedules.value;
      OpenIsPayable(m, w.vault.counter, c.id, c.who, c.now);
      var amount := r.value.1;
      PayOne(m, w.vault.counter, w.payments, Update(c.id, m[c.id].(claimed := true), amount));
      TotalSnoc(w.payments, Payment(c.id, amount));
      OpenNotPaid(m, w.payments, c.id);
    }
  }

  lemma OpenIsPayable(m: Schedules, counter: nat, id: nat, who: Address, now: nat)
    requires SoundSchedules(m, counter) && id in m && ClaimableAmount(m[id], who, now).Ok?
    ensures Payable(m, Update(id, m[id].(claimed := true), ClaimableAmount(m[id], who, now).value))
    ensures !m[id].claimed
  {
    ClaimablePositive(m[id], who, now);
  }

  lemma OpenNotPaid(m: Schedules, ps: seq<Payment>, id: nat)
    requires BackedAll(m, ps) && id in m && !m[id].claimed
    ensures forall i :: 0 <= i < |ps| ==> ps[i].id != id
  {
    forall i | 0 <= i < |ps| ensures ps[i].id != id {
      assert Backed(m, ps[i]);
    }
  }

  /** The updates of a successful batch: one for each id in turn, all payable, all on open grants. */
  lemma BatchUpdates(w: World, c: Call) returns (updates: seq<Update>)
    requires Inv(w) && c.Batch? && c.ids != [] && BatchClaim(w.vault, c.ids, c.who, c.now).Ok?
    ensures var m := w.vault.schedules.value;
            && Gather(m, c.ids, c.who, c.now, 0).Ok? && updates == Gather(m, c.ids, c.who, c.now, 0).value.0
            && PayableAll(m, updates) && UpdatesFor(m, c.ids, updates)
            && (forall i :: 0 <= i < |c.ids| ==> c.ids[i] in m && !m[c.ids[i]].claimed)
            && 0 <= Paid(updates) <= w.vault.balance
  {
    hide Gather, Settle, Payable, ClaimableAmount, SoundSchedules, TotalPaid, PaymentsOf, BackedAll;
    var m := w.vault.schedules.value;
    updates := Gather(m, c.ids, c.who, c.now, 0).value.0;
    SoundIsProper(m, w.vault.counter);
    GatherAddsBill(m, c.ids, c.who, c.now, 0);
    GatheredPayable(m, w.vault.counter, c.ids, c.who, c.now, 0);
    BillNonNeg(m, c.ids, c.who, c.now);
    forall i | 0 <= i < |c.ids| ensures c.ids[i] in m && !m[c.ids[i]].claimed {
      assert UpdateFor(m, c.ids[i], updates[i]);
      assert updates[i] in updates;
    }
  }

  lemma BatchKeepsInv(w: World, c: Call)
    requires Inv(w) && c.Batch?
    ensures Inv(Step(w, c))
  {
    hide BackedAll, Gather, Settle, PayableAll, ClaimableAmount, SoundSchedules, TotalPaid, PaymentsOf, UpdatesFor;
    if c.ids != [] && BatchClaim(w.vault, c.ids, c.who, c.now).Ok? {
      var updates := BatchUpdates(w, c);
      PayMany(w.vault.schedules.value, w.vault.counter, w.payments, w.vault.balance, updates);
    }
  }

  lemma {:induction false} PaymentIds(updates: seq<Update>)
    ensures forall i :: 0 <= i < |updates| ==> PaymentsOf(updates)[i].id == updates[i].id
  {
    if updates != [] {
      PaymentIds(updates[1..]);
    }
  }

  /** A successful batch pays no grant twice exactly when it names none twice. */
  lemma BatchPaysOnceIff(w: World, c: Call)
    requires Inv(w) && Once(w.payments) && c.Batch? && BatchClaim(w.vault, c.ids, c.who, c.now).Ok?
    ensures Once(Step(w, c).payments) <==> Distinct(c.ids)
  {
    hide Inv, BatchClaim, Gather, PaymentsOf, Payable;
    if c.ids != [] {
      var updates := BatchUpdates(w, c);
      BatchPayments(w, c);
      PaymentIds(updates);
      var m, paid := w.vault.schedules.value, PaymentsOf(updates);
      InvBacked(w);
      forall i | 0 <= i < |updates|
        ensures paid[i].id == c.ids[i]
        ensures forall j :: 0 <= j < |w.payments| ==> w.payments[j].id != c.ids[i]
      {
        assert UpdateFor(m, c.ids[i], updates[i]);
        OpenNotPaid(m, w.payments, c.ids[i]);
      }
      OnceConcat(w.payments, paid, c.ids);
    }
  }

  lemma InvBacked(w: World)
    requires Inv(w) && w.vault.schedules.Some?
    ensures BackedAll(w.vault.schedules.value, w.payments)
  {
  }

  lemma BatchPayments(w: World, c: Call)
    requires c.Batch? && c.ids != [] && BatchClaim(w.vault, c.ids, c.who, c.now).Ok?
    ensures w.vault.schedules.Some? && Gather(w.vault.schedules.value, c.ids, c.who, c.now, 0).Ok?
    ensures Step(w, c).payments
            == w.payments + PaymentsOf(Gather(w.vault.schedules.value, c.ids, c.who, c.now, 0).value.0)
  {
    hide Gather, Settle, PaymentsOf;
  }

  lemma OnceConcat(ps: seq<Payment>, qs: seq<Payment>, ids: seq<nat>)
    requires Once(ps) && |qs| == |ids|
    requires forall i :: 0 <= i < |qs| ==> qs[i].id == ids[i] && forall j :: 0 <= j < |ps| ==> ps[j].id != ids[i]
    ensures Once(ps + qs) <==> Distinct(ids)
  {
    var all := ps + qs;
    if Once(all) {
      forall i, j | 0 <= i < j < |ids| ensures ids[i] != ids[j] {
        assert all[|ps| + i].id == ids[i] && all[|ps| + j].id == ids[j];
      }
    }
    if Distinct(ids) {
      forall i, j | 0 <= i < j < |all| ensures all[i].id != all[j].id {
      }
    }
  }

  lemma SoundIsProper(m: Schedules, counter: nat)
    requires SoundSchedules(m, counter)
    ensures ProperAll(m)
  {
  }

  lemma AdminKeepsInv(w: World, c: Call)
    requires Inv(w) && !c.Claim? && !c.Batch?
    ensures Inv(Step(w, c)) && Step(w, c).payments == w.payments
  {
    var m, next := SchedulesOf(w.vault), SchedulesOf(Step(w, c).vault);
    forall i | 0 <= i < |w.payments| ensures Backed(next, w.payments[i]) {
      assert Backed(m, w.payments[i]);
    }
  }

  /** Over any run, batches with repeated ids included, every payment is at most its grant's amount, no
      grant is both claimed and revoked, and deposits equal payments plus the balance. */
  lemma {:induction false} RunKeepsInv(w: World, calls: seq<Call>)
    requires Inv(w)
    ensures Inv(Run(w, calls))
  {
    hide Inv, Step;
    if calls != [] {
      var init, last := calls[..|calls| - 1], calls[|calls| - 1];
      RunKeepsInv(w, init);
      if last.Claim? {
        ClaimKeepsInv(Run(w, init), last);
      } else if last.Batch? {
        BatchKeepsInv(Run(w, init), last);
      } else {
        AdminKeepsInv(Run(w, init), last);
      }
    }
  }

  /** Call i is a batch that succeeds although it names a grant twice. */
  ghost predicate PaysTwice(w: World, calls: seq<Call>, i: nat)
    requires i < |calls|
  {
    var c := calls[i];
    c.Batch? && BatchClaim(Run(w, calls[..i]).vault, c.ids, c.who, c.now).Ok? && !Distinct(c.ids)
  }

  /** Over any run every grant is paid at most once if and only if no successful batch names a grant
      twice; in particular single claims never pay twice, nor do claims after batches. */
  lemma {:induction false} PaidAtMostOnce(w: World, calls: seq<Call>)
    requires Inv(w) && Once(w.payments)
    ensures Inv(Run(w, calls))
    ensures Once(Run(w, calls).payments) <==> forall i :: 0 <= i < |calls| ==> !PaysTwice(w, calls, i)
  {
    hide Inv, Step, BatchClaim, Distinct;
    RunKeepsInv(w, calls);
    if calls != [] {
      var n := |calls| - 1;
      var init, last := calls[..n], calls[n];
      PaidAtMostOnce(w, init);
      forall i | 0 <= i < n ensures PaysTwice(w, calls, i) <==> PaysTwice(w, init, i) {
        assert init[..i] == calls[..i] && init[i] == calls[i];
      }
      var before := Run(w, init);
      PaymentsOnlyGrow(before, last);
      if Once(before.payments) {
        StepPaysOnceIff(before, last);
        assert Once(Run(w, calls).payments) <==> !PaysTwice(w, calls, n);
        assert forall i :: 0 <= i < |calls| && i != n ==> !PaysTwice(w, calls, i);
      } else {
        var i :| 0 <= i < n && PaysTwice(w, init, i);
        assert PaysTwice(w, calls, i);
        NotOnceStays(before.payments, Step(before, last).payments);
      }
    }
  }

  lemma PaymentsOnlyGrow(w: World, c: Call)
    ensures w.payments <= Step(w, c).payments
  {
    hide Gather, Settle, ClaimableAmount, PaymentsOf;
  }

  lemma NotOnceStays(ps: seq<Payment>, qs: seq<Payment>)
    requires ps <= qs && !Once(ps)
    ensures !Once(qs)
  {
    var i, j :| 0 <= i < j < |ps| && ps[i].id == ps[j].id;
    assert qs[i] == ps[i] && qs[j] == ps[j];
  }

  lemma StepPaysOnceIff(w: World, c: Call)
    requires Inv(w) && Once(w.payments)
    ensures Once(Step(w, c).payments) <==>
              !(c.Batch? && BatchClaim(w.vault, c.ids, c.who, c.now).Ok? && !Distinct(c.ids))
  {
    if c.Claim? {
      ClaimKeepsInv(w, c);
    } else if !c.Batch? {
      AdminKeepsInv(w, c);
    } else if BatchClaim(w.vault, c.ids, c.who, c.now).Ok? {
      BatchPaysOnceIff(w, c);
    }
    hide Inv, BatchClaim, Distinct;
  }

  ghost predicate IsRevoked(w: World, id: nat) {
    id in SchedulesOf(w.vault) && SchedulesOf(w.vault)[id].revoked
  }

  /** A revoked grant stays revoked whatever is called next. */
  lemma StaysRevoked(w: World, c: Call, id: nat)
    requires Inv(w) && IsRevoked(w, id)
    ensures IsRevoked(Step(w, c), id)
  {
    hide ClaimableAmount, TotalPaid, Gather, Settle, PaymentsOf, PayableAll, UpdatesFor, BackedAll;
    if c.Batch? && c.ids != [] && BatchClaim(w.vault, c.ids, c.who, c.now).Ok? {
      var updates := BatchUpdates(w, c);
      PayMany(w.vault.schedules.value, w.vault.counter, w.payments, w.vault.balance, updates);
    }
  }

  /** Nothing is ever paid on a grant that has been revoked, before or after any further calls, batches
      with repeated ids included. */
  lemma {:induction false} RevokedNeverPaid(w: World, calls: seq<Call>, id: nat)
    requires Inv(w) && IsRevoked(w, id)
    ensures IsRevoked(Run(w, calls), id)
    ensures forall p :: p in Run(w, calls).payments ==> p.id != id
  {
    hide Step;
    RunKeepsInv(w, calls);
    if calls != [] {
      var init, last := calls[..|calls| - 1], calls[|calls| - 1];
      RevokedNeverPaid(w, init, id);
      RunKeepsInv(w, init);
      StaysRevoked(Run(w, init), last, id);
    }
    var m, ps := SchedulesOf(Run(w, calls).vault), Run(w, calls).payments;
    forall i | 0 <= i < |ps| ensures ps[i].id != id {
      assert Backed(m, ps[i]);
    }
  }
}
