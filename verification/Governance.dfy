/** Upgrade proposals: propose, approve, execute after a timelock, reject, cancel
    (Contracts/shared/src/governance.rs). */
module Governance {
  import opened Arith
  import opened Wrappers
  import opened Sorting

  type Address = nat

  datatype Status = Pending | Approved | Rejected | Executed | Cancelled

  datatype Proposal = Proposal(
    proposer: Address,
    threshold: nat,
    approvers: seq<Address>,
    approvalsCount: nat,
    status: Status,
    createdAt: nat,
    executionTime: nat,
    executed: bool)

  datatype GovernanceError =
    | Unauthorized
    | InvalidProposal
    | TimelockNotExpired
    | ProposalNotApproved
    | InvalidThreshold
    | DuplicateApproval
    | ProposalNotFound
    | Aborted

  /** The stored maps: proposals, recorded approvals, and the id counter. */
  datatype Store = Store(proposals: map<nat, Proposal>, approvals: set<(nat, Address)>, counter: nat)

  const EmptyStore: Store := Store(map[], {}, 0)

  /** An entry point with its arguments. `permitted` is the answer of the access-control check for the
      caller, which may change from call to call; execute_proposal does not ask. */
  datatype Call =
    | Propose(proposer: Address, threshold: nat, approvers: seq<Address>, delay: nat, permitted: bool, now: nat)
    | Approve(id: nat, who: Address, permitted: bool, now: nat)
    | Execute(id: nat, now: nat)
    | Reject(id: nat, permitted: bool, now: nat)
    | Cancel(id: nat, permitted: bool, now: nat)

  /** The new store, or the error. */
  function Step(s: Store, c: Call): (r: Result<Store, GovernanceError>) {
    match c
    case Propose(proposer, threshold, approvers, delay, permitted, now) =>
      if !permitted then Err(Aborted)
      else if threshold == 0 || threshold > |approvers| then Err(InvalidThreshold)
      else if s.counter + 1 > U64_MAX || now + delay > U64_MAX then Err(Aborted)
      else
        var id := s.counter + 1;
        var p := Proposal(proposer, threshold, approvers, 0, Pending, now, now + delay, false);
        Ok(s.(proposals := s.proposals[id := p], counter := id))
    case Approve(id, who, permitted, now) =>
      if !permitted then Err(Aborted)
      else if id !in s.proposals then Err(ProposalNotFound)
      else if s.proposals[id].status != Pending then Err(InvalidProposal)
      else if who !in s.proposals[id].approvers then Err(Unauthorized)
      else if (id, who) in s.approvals then Err(DuplicateApproval)
      else
        var p := s.proposals[id];
        var counted := p.(approvalsCount := p.approvalsCount + 1);
        var next := if counted.approvalsCount >= p.threshold then counted.(status := Approved) else counted;
        Ok(s.(proposals := s.proposals[id := next], approvals := s.approvals + {(id, who)}))
    case Execute(id, now) =>
      if id !in s.proposals then Err(ProposalNotFound)
      else if s.proposals[id].status != Approved then Err(ProposalNotApproved)
      else if now < s.proposals[id].executionTime then Err(TimelockNotExpired)
      else Ok(s.(proposals := s.proposals[id := s.proposals[id].(executed := true, status := Executed)]))
    case Reject(id, permitted, now) =>
      if !permitted then Err(Aborted)
      else if id !in s.proposals then Err(ProposalNotFound)
      else if s.proposals[id].status != Pending then Err(InvalidProposal)
      else Ok(s.(proposals := s.proposals[id := s.proposals[id].(status := Rejected)]))
    case Cancel(id, permitted, now) =>
      if !permitted then Err(Aborted)
      else if id !in s.proposals then Err(ProposalNotFound)
      else if s.proposals[id].executed then Err(InvalidProposal)
      else Ok(s.(proposals := s.proposals[id := s.proposals[id].(status := Cancelled)]))
  }

  /** A failing call changes nothing. */
  function After(s: Store, c: Call): (r: Store) {
    var next := Step(s, c);
    if next.Ok? then next.value else s
  }

  function Run(calls: seq<Call>): (s: Store) {
    if calls == [] then EmptyStore else After(Run(calls[..|calls| - 1]), calls[|calls| - 1])
  }

  /** The addresses recorded as approvers of a proposal. */
  ghost function ApproversOf(s: Store, id: nat): (r: set<Address>) {
    set e <- s.approvals | e.0 == id :: e.1
  }

  ghost predicate SoundProposal(s: Store, id: nat)
    requires id in s.proposals
  {
    var p := s.proposals[id];
    && 1 <= id <= s.counter
    && 1 <= p.threshold <= |p.approvers|
    && p.approvalsCount == |ApproversOf(s, id)|
    && (forall a <- ApproversOf(s, id) :: a in p.approvers)
    && (p.status == Pending ==> p.approvalsCount < p.threshold)
    && (p.status == Approved || p.status == Executed ==> p.approvalsCount == p.threshold)
    && p.approvalsCount <= p.threshold
    && (p.executed <==> p.status == Executed)
  }

  ghost predicate Inv(s: Store) {
    && (forall id <- s.proposals :: SoundProposal(s, id))
    && (forall e <- s.approvals :: e.0 in s.proposals)
  }

  lemma InApprovers(s: Store, id: nat, a: Address)
    ensures a in ApproversOf(s, id) <==> (id, a) in s.approvals
  {
  }

  /** Recording one more approval adds one address to one proposal's approvers. */
  lemma RecordedApproval(s: Store, t: Store, id: nat, who: Address, other: nat)
    requires t.approvals == s.approvals + {(id, who)} && (id, who) !in s.approvals
    ensures other != id ==> ApproversOf(t, other) == ApproversOf(s, other)
    ensures ApproversOf(t, id) == ApproversOf(s, id) + {who} && who !in ApproversOf(s, id)
  {
    InApprovers(s, id, who);
    forall a ensures a in ApproversOf(t, id) <==> a in ApproversOf(s, id) || a == who {
      InApprovers(s, id, a);
      InApprovers(t, id, a);
    }
    forall a | other != id ensures a in ApproversOf(t, other) <==> a in ApproversOf(s, other) {
      InApprovers(s, other, a);
      InApprovers(t, other, a);
    }
  }

  lemma SameApprovers(s: Store, t: Store, id: nat)
    requires t.approvals == s.approvals
    ensures ApproversOf(t, id) == ApproversOf(s, id)
  {
  }

  lemma ApproveKeepsSound(s: Store, c: Call, id: nat)
    requires Inv(s) && c.Approve? && Step(s, c).Ok? && id in After(s, c).proposals
    ensures SoundProposal(After(s, c), id)
  {
    hide ApproversOf;
    assert SoundProposal(s, id);
    RecordedApproval(s, After(s, c), c.id, c.who, id);
  }

  lemma CounterIsFresh(s: Store)
    requires Inv(s)
    ensures s.counter + 1 !in s.proposals
  {
    forall id | id in s.proposals ensures id <= s.counter {
      assert SoundProposal(s, id);
    }
  }

  lemma ProposeKeepsSound(s: Store, c: Call, id: nat)
    requires Inv(s) && c.Propose? && Step(s, c).Ok? && id in After(s, c).proposals
    ensures SoundProposal(After(s, c), id)
  {
    var t := After(s, c);
    SameApprovers(s, t, id);
    if id == s.counter + 1 {
      CounterIsFresh(s);
      forall a ensures a !in ApproversOf(s, id) {
        InApprovers(s, id, a);
      }
      assert ApproversOf(t, id) == {};
    } else {
      hide ApproversOf;
      assert SoundProposal(s, id);
    }
  }

  lemma OtherKeepsSound(s: Store, c: Call, id: nat)
    requires Inv(s) && !c.Approve? && !c.Propose? && id in After(s, c).proposals
    ensures SoundProposal(After(s, c), id)
  {
    SameApprovers(s, After(s, c), id);
    hide ApproversOf;
    assert SoundProposal(s, id);
  }

  lemma StepKeepsInv(s: Store, c: Call)
    requires Inv(s)
    ensures Inv(After(s, c))
  {
    hide SoundProposal;
    var t := After(s, c);
    if Step(s, c).Ok? {
      forall id | id in t.proposals ensures SoundProposal(t, id) {
        if c.Approve? {
          ApproveKeepsSound(s, c, id);
        } else if c.Propose? {
          ProposeKeepsSound(s, c, id);
        } else {
          OtherKeepsSound(s, c, id);
        }
      }
    }
  }

  /** In every reachable store the approval count equals the number of distinct recorded approvers, all
      of them listed; a pending proposal is below its threshold, an approved or executed one exactly at
      it. */
  lemma {:induction false} CountIsDistinctApprovers(calls: seq<Call>)
    ensures Inv(Run(calls))
  {
    if calls != [] {
      CountIsDistinctApprovers(calls[..|calls| - 1]);
      StepKeepsInv(Run(calls[..|calls| - 1]), calls[|calls| - 1]);
    }
  }

  /** The parts of a proposal that no call changes. */
  predicate SameTerms(p: Proposal, q: Proposal) {
    && p.proposer == q.proposer && p.threshold == q.threshold && p.approvers == q.approvers
    && p.createdAt == q.createdAt && p.executionTime == q.executionTime
  }

  /** What one call can do to an existing proposal: its terms stay, an executed one stays entirely, and
      it can only become executed by an execute call at or after its timelock on an approved proposal. */
  lemma StepOnProposal(s: Store, c: Call, id: nat)
    requires Inv(s) && id in s.proposals
    ensures id in After(s, c).proposals
    ensures SameTerms(s.proposals[id], After(s, c).proposals[id])
    ensures s.proposals[id].status == Executed ==> After(s, c).proposals[id] == s.proposals[id]
    ensures s.proposals[id].status != Executed && After(s, c).proposals[id].status == Executed ==>
              && c.Execute? && c.id == id && s.proposals[id].executionTime <= c.now
              && s.proposals[id].status == Approved
              && After(s, c).approvals == s.approvals
    ensures s.proposals[id].status != Pending ==>
              forall a :: (id, a) in After(s, c).approvals ==> (id, a) in s.approvals
  {
    assert SoundProposal(s, id);
  }

  /** An executed proposal never changes again, whatever is called afterwards. */
  lemma {:induction false} ExecutedIsFinal(calls: seq<Call>, more: seq<Call>, id: nat)
    requires id in Run(calls).proposals && Run(calls).proposals[id].status == Executed
    ensures id in Run(calls + more).proposals && Run(calls + more).proposals[id] == Run(calls).proposals[id]
    decreases |more|
  {
    hide After, Inv;
    if more == [] {
      assert calls + more == calls;
    } else {
      var init, last := more[..|more| - 1], more[|more| - 1];
      ExecutedIsFinal(calls, init, id);
      CountIsDistinctApprovers(calls + init);
      StepOnProposal(Run(calls + init), last, id);
      assert (calls + more)[..|calls + more| - 1] == calls + init;
    }
  }

  predicate Approves(c: Call, id: nat, who: Address) {
    c.Approve? && c.id == id && c.who == who && c.permitted
  }

  /** Every recorded approval was made by a permitted approve call of that address. */
  lemma {:induction false} ApprovalHasCall(calls: seq<Call>, id: nat, a: Address) returns (i: nat)
    requires (id, a) in Run(calls).approvals
    ensures i < |calls| && Approves(calls[i], id, a)
  {
    var init, last := calls[..|calls| - 1], calls[|calls| - 1];
    if (id, a) in Run(init).approvals {
      i := ApprovalHasCall(init, id, a);
    } else {
      i := |calls| - 1;
    }
  }

  /** An executed proposal has a cause: an execute call at or after its timelock, made when the proposal
      was approved. */
  lemma {:induction false} ExecutedHasCall(calls: seq<Call>, id: nat) returns (j: nat)
    requires id in Run(calls).proposals && Run(calls).proposals[id].status == Executed
    ensures j < |calls| && calls[j].Execute? && calls[j].id == id
    ensures id in Run(calls[..j]).proposals && Run(calls[..j]).proposals[id].status == Approved
    ensures Run(calls).proposals[id].executionTime <= calls[j].now
    ensures SameTerms(Run(calls[..j]).proposals[id], Run(calls).proposals[id])
    ensures Run(calls[..j]).proposals[id].approvalsCount == Run(calls).proposals[id].threshold
  {
    var init, last := calls[..|calls| - 1], calls[|calls| - 1];
    CountIsDistinctApprovers(init);
    if id in Run(init).proposals && Run(init).proposals[id].status == Executed {
      j := ExecutedHasCall(init, id);
      assert init[..j] == calls[..j];
      StepOnProposal(Run(init), last, id);
    } else {
      j := |calls| - 1;
      if id in Run(init).proposals {
        assert SoundProposal(Run(init), id);
        StepOnProposal(Run(init), last, id);
      }
    }
  }

  /** Every executed proposal was executed at or after its timelock, and before that it had been approved
      in separate permitted calls by exactly threshold-many distinct listed approvers. */
  lemma ExecutedWasApproved(calls: seq<Call>, id: nat) returns (j: nat, who: set<Address>)
    requires id in Run(calls).proposals && Run(calls).proposals[id].status == Executed
    ensures var p := Run(calls).proposals[id];
            && j < |calls| && calls[j].Execute? && calls[j].id == id && p.executionTime <= calls[j].now
            && |who| == p.threshold
            && (forall a <- who :: a in p.approvers)
            && (forall a <- who :: exists i :: 0 <= i < j && Approves(calls[i], id, a))
  {
    hide ApproversOf, Run;
    j := ExecutedHasCall(calls, id);
    var s := Run(calls[..j]);
    CountIsDistinctApprovers(calls[..j]);
    assert SoundProposal(s, id);
    who := ApproversOf(s, id);
    forall a | a in who
      ensures exists i :: 0 <= i < j && Approves(calls[i], id, a)
    {
      InApprovers(s, id, a);
      var i := ApprovalHasCall(calls[..j], id, a);
      assert calls[..j][i] == calls[i];
    }
  }

  // ---------------------------------------------------------------------------------------
  // Progress

  ghost function Named(xs: seq<Address>): (r: set<Address>) {
    set a | a in xs
  }

  /** A pending proposal always has a listed approver who has not approved yet, provided the list names
      at least threshold-many distinct addresses. */
  lemma PendingHasApproverLeft(calls: seq<Call>, id: nat)
    requires id in Run(calls).proposals && Run(calls).proposals[id].status == Pending
    requires Run(calls).proposals[id].threshold <= |Named(Run(calls).proposals[id].approvers)|
    ensures exists a :: a in Run(calls).proposals[id].approvers && (id, a) !in Run(calls).approvals
  {
    hide Run, ApproversOf;
    CountIsDistinctApprovers(calls);
    var s := Run(calls);
    assert SoundProposal(s, id);
    var listed, done := Named(s.proposals[id].approvers), ApproversOf(s, id);
    if listed <= done {
      SubsetSize(listed, done);
    }
    var a :| a in listed && a !in done;
    InApprovers(s, id, a);
  }

  /** A list without duplicates names as many addresses as it has entries. */
  lemma {:induction false} DistinctListNamesAll(xs: seq<Address>)
    requires forall i, j :: 0 <= i < j < |xs| ==> xs[i] != xs[j]
    ensures |Named(xs)| == |xs|
  {
    if xs != [] {
      DistinctListNamesAll(xs[1..]);
      assert xs[0] !in xs[1..];
      assert Named(xs) == {xs[0]} + Named(xs[1..]);
    }
  }

  /** With a duplicate-free approver list a pending proposal can always receive another approval. */
  lemma DistinctApproversNeverStuck(calls: seq<Call>, id: nat)
    requires id in Run(calls).proposals && Run(calls).proposals[id].status == Pending
    requires var xs := Run(calls).proposals[id].approvers; forall i, j :: 0 <= i < j < |xs| ==> xs[i] != xs[j]
    ensures exists a, now :: Step(Run(calls), Approve(id, a, true, now)).Ok?
  {
    hide Run, ApproversOf;
    CountIsDistinctApprovers(calls);
    var s := Run(calls);
    assert SoundProposal(s, id);
    DistinctListNamesAll(s.proposals[id].approvers);
    PendingHasApproverLeft(calls, id);
    var a :| a in s.proposals[id].approvers && (id, a) !in s.approvals;
    assert Step(s, Approve(id, a, true, 0)).Ok?;
  }

  /** Naming too few distinct addresses is fatal: such a proposal is never approved or executed. */
  lemma ShortListNeverApproved(calls: seq<Call>, id: nat)
    requires id in Run(calls).proposals
    requires |Named(Run(calls).proposals[id].approvers)| < Run(calls).proposals[id].threshold
    ensures Run(calls).proposals[id].status != Approved && Run(calls).proposals[id].status != Executed
  {
    hide Run, ApproversOf;
    CountIsDistinctApprovers(calls);
    var s := Run(calls);
    assert SoundProposal(s, id);
    assert ApproversOf(s, id) <= Named(s.proposals[id].approvers);
    SubsetSize(ApproversOf(s, id), Named(s.proposals[id].approvers));
  }

  /** Otherwise every pending proposal, however it got there, can still be approved. */
  lemma {:induction false} PendingCanBeApproved(calls: seq<Call>, id: nat) returns (more: seq<Call>)
    requires id in Run(calls).proposals && Run(calls).proposals[id].status == Pending
    requires Run(calls).proposals[id].threshold <= |Named(Run(calls).proposals[id].approvers)|
    ensures id in Run(calls + more).proposals && Run(calls + more).proposals[id].status == Approved
    decreases Run(calls).proposals[id].threshold - Run(calls).proposals[id].approvalsCount
  {
    CountIsDistinctApprovers(calls);
    var s := Run(calls);
    assert SoundProposal(s, id);
    PendingHasApproverLeft(calls, id);
    var a :| a in s.proposals[id].approvers && (id, a) !in s.approvals;
    var c := Approve(id, a, true, 0);
    RunSnoc(calls, c);
    if Run(calls + [c]).proposals[id].status == Approved {
      more := [c];
    } else {
      var rest := PendingCanBeApproved(calls + [c], id);
      more := [c] + rest;
      assert calls + [c] + rest == calls + more;
    }
  }

  lemma RunSnoc(calls: seq<Call>, c: Call)
    ensures Run(calls + [c]) == After(Run(calls), c)
  {
    assert (calls + [c])[..|calls|] == calls;
  }

  // ---------------------------------------------------------------------------------------
  // The contract

  class GovernanceManager {
    var proposals: map<nat, Proposal>
    var approvals: set<(nat, Address)>
    var counter: nat

    ghost function View(): (s: Store)
      reads this
    {
      Store(proposals, approvals, counter)
    }

    ghost predicate Valid()
      reads this
    {
      Inv(View())
    }

    constructor ()
      ensures Valid() && View() == EmptyStore
    {
      proposals, approvals, counter := map[], {}, 0;
    }

    method ProposeUpgrade(proposer: Address, threshold: nat, list: seq<Address>, delay: nat, permitted: bool, now: nat)
      returns (r: Result<nat, GovernanceError>)
      requires Valid()
      modifies this
      ensures Valid()
      ensures var c := Propose(proposer, threshold, list, delay, permitted, now);
              && View() == After(old(View()), c)
              && r == (if Step(old(View()), c).Ok? then Ok(counter) else Err(Step(old(View()), c).error))
      ensures r.Ok? ==> r.value !in old(proposals)
    {
      hide SoundProposal;
      StepKeepsInv(View(), Propose(proposer, threshold, list, delay, permitted, now));
      if !permitted {
        return Err(Aborted);
      }
      if threshold == 0 || threshold > |list| {
        return Err(InvalidThreshold);
      }
      if counter + 1 > U64_MAX || now + delay > U64_MAX {
        return Err(Aborted);
      }
      CounterIsFresh(View());
      var id := counter + 1;
      proposals := proposals[id := Proposal(proposer, threshold, list, 0, Pending, now, now + delay, false)];
      counter := id;
      r := Ok(id);
    }

    method ApproveProposal(id: nat, approver: Address, permitted: bool, now: nat)
      returns (r: Result<(), GovernanceError>)
      requires Valid()
      modifies this
      ensures Valid()
      ensures var c := Approve(id, approver, permitted, now);
              && View() == After(old(View()), c)
              && r == (if Step(old(View()), c).Ok? then Ok(()) else Err(Step(old(View()), c).error))
    {
      hide SoundProposal;
      StepKeepsInv(View(), Approve(id, approver, permitted, now));
      if !permitted {
        return Err(Aborted);
      }
      if id !in proposals {
        return Err(ProposalNotFound);
      }
      var proposal := proposals[id];
      if proposal.status != Pending {
        return Err(InvalidProposal);
      }
      if approver !in proposal.approvers {
        return Err(Unauthorized);
      }
      if (id, approver) in approvals {
        return Err(DuplicateApproval);
      }
      approvals := approvals + {(id, approver)};
      proposal := proposal.(approvalsCount := proposal.approvalsCount + 1);
      if proposal.approvalsCount >= proposal.threshold {
        proposal := proposal.(status := Approved);
      }
      proposals := proposals[id := proposal];
      r := Ok(());
    }

    method ExecuteProposal(id: nat, now: nat) returns (r: Result<(), GovernanceError>)
      requires Valid()
      modifies this`proposals
      ensures Valid()
      ensures var c := Execute(id, now);
              && View() == After(old(View()), c)
              && r == (if Step(old(View()), c).Ok? then Ok(()) else Err(Step(old(View()), c).error))
    {
      hide SoundProposal;
      StepKeepsInv(View(), Execute(id, now));
      if id !in proposals {
        return Err(ProposalNotFound);
      }
      var proposal := proposals[id];
      if proposal.status != Approved {
        return Err(ProposalNotApproved);
      }
      if now < proposal.executionTime {
        return Err(TimelockNotExpired);
      }
      proposal := proposal.(executed := true);
      proposal := proposal.(status := Executed);
      proposals := proposals[id := proposal];
      r := Ok(());
    }

    method RejectProposal(id: nat, permitted: bool, now: nat) returns (r: Result<(), GovernanceError>)
      requires Valid()
      modifies this`proposals
      ensures Valid()
      ensures var c := Reject(id, permitted, now);
              && View() == After(old(View()), c)
              && r == (if Step(old(View()), c).Ok? then Ok(()) else Err(Step(old(View()), c).error))
    {
      hide SoundProposal;
      StepKeepsInv(View(), Reject(id, permitted, now));
      if !permitted {
        return Err(Aborted);
      }
      if id !in proposals {
        return Err(ProposalNotFound);
      }
      if proposals[id].status != Pending {
        return Err(InvalidProposal);
      }
      proposals := proposals[id := proposals[id].(status := Rejected)];
      r := Ok(());
    }

    method CancelProposal(id: nat, permitted: bool, now: nat) returns (r: Result<(), GovernanceError>)
      requires Valid()
      modifies this`proposals
      ensures Valid()
      ensures var c := Cancel(id, permitted, now);
              && View() == After(old(View()), c)
              && r == (if Step(old(View()), c).Ok? then Ok(()) else Err(Step(old(View()), c).error))
    {
      hide SoundProposal;
      StepKeepsInv(View(), Cancel(id, permitted, now));
      if !permitted {
        return Err(Aborted);
      }
      if id !in proposals {
        return Err(ProposalNotFound);
      }
      if proposals[id].executed {
        return Err(InvalidProposal);
      }
      proposals := proposals[id := proposals[id].(status := Cancelled)];
      r := Ok(());
    }
  }
}
