/** What governance calls do, stated from the proposal and the call alone, and where every proposal of a
    run comes from (Contracts/shared/src/governance.rs). */
module GovernanceExact {
  import opened Arith
  import opened Wrappers
  import opened Governance

  /** A proposal call succeeds if and only if the caller is permitted, the threshold lies between one and the
      length of the list, and id and execution time fit. */
  lemma ProposeSucceedsIff(s: Store, c: Call)
    requires c.Propose?
    ensures Step(s, c).Ok? <==>
              && c.permitted && 1 <= c.threshold <= |c.approvers|
              && s.counter < U64_MAX && c.now + c.delay <= U64_MAX
  {
  }

  /** An approval succeeds if and only if the caller is permitted, the proposal is pending, the approver is
      listed and has not approved yet. */
  lemma ApproveSucceedsIff(s: Store, c: Call)
    requires c.Approve?
    ensures Step(s, c).Ok? <==>
              && c.permitted && c.id in s.proposals && s.proposals[c.id].status == Pending
              && c.who in s.proposals[c.id].approvers && c.who !in ApproversOf(s, c.id)
    ensures Step(s, c).Ok? ==> ApproversOf(Step(s, c).value, c.id) == ApproversOf(s, c.id) + {c.who}
  {
    InApprovers(s, c.id, c.who);
    if Step(s, c).Ok? {
      RecordedApproval(s, Step(s, c).value, c.id, c.who, c.id);
    }
  }

  /** An execution succeeds if and only if the proposal is approved and its time has come; a rejection if
      and only if the caller is permitted and the proposal is pending; a cancellation if and only if the
      caller is permitted and the proposal is not executed. */
  lemma OtherSucceedsIff(s: Store, c: Call)
    requires Inv(s) && (c.Execute? || c.Reject? || c.Cancel?)
    ensures c.id !in s.proposals ==> Step(s, c).Err?
    ensures c.id in s.proposals ==>
              var p := s.proposals[c.id];
              && (c.Execute? ==> (Step(s, c).Ok? <==> p.status == Approved && p.executionTime <= c.now))
              && (c.Reject? ==> (Step(s, c).Ok? <==> c.permitted && p.status == Pending))
              && (c.Cancel? ==> (Step(s, c).Ok? <==> c.permitted && p.status != Executed))
  {
    if c.id in s.proposals {
      assert SoundProposal(s, c.id);
    }
  }

  /** The status that a call gives a proposal, from its status and the number of its distinct approvers. */
  ghost function NextStatus(s: Store, c: Call, id: nat): (r: Status)
    requires id in s.proposals
  {
    var p := s.proposals[id];
    if c.Propose? || c.id != id || Step(s, c).Err? then p.status
    else if c.Execute? then Executed
    else if c.Reject? then Rejected
    else if c.Cancel? then Cancelled
    else if |ApproversOf(s, id)| + 1 == p.threshold then Approved
    else Pending
  }

  /** Every call moves the status of every proposal exactly so and leaves its terms and, unless it is an
      approval of it, its recorded approvers alone. */
  lemma StatusMoves(s: Store, c: Call, id: nat)
    requires Inv(s) && id in s.proposals
    ensures id in After(s, c).proposals
    ensures After(s, c).proposals[id].status == NextStatus(s, c, id)
    ensures SameTerms(s.proposals[id], After(s, c).proposals[id])
    ensures !(c.Approve? && c.id == id) ==> ApproversOf(After(s, c), id) == ApproversOf(s, id)
  {
    assert SoundProposal(s, id);
    StepOnProposal(s, c, id);
    if c.Approve? && Step(s, c).Ok? {
      RecordedApproval(s, Step(s, c).value, c.id, c.who, id);
    }
    CounterIsFresh(s);
  }

  predicate ProposedBy(p: Proposal, c: Call) {
    && c.Propose? && c.permitted && p.proposer == c.proposer && p.threshold == c.threshold
    && p.approvers == c.approvers && p.createdAt == c.now && p.executionTime == c.now + c.delay
  }

  lemma StepProposes(s: Store, c: Call, id: nat)
    requires Inv(s) && id !in s.proposals && id in After(s, c).proposals
    ensures ProposedBy(After(s, c).proposals[id], c) && After(s, c).proposals[id].status == Pending
  {
  }

  /** Every proposal of a run was made by a permitted propose call with exactly its terms; it was created at
      the time of that call and may be executed its delay later. */
  lemma {:induction false} ProposalHasCall(calls: seq<Call>, id: nat) returns (i: nat)
    requires id in Run(calls).proposals
    ensures i < |calls| && ProposedBy(Run(calls).proposals[id], calls[i])
    ensures id !in Run(calls[..i]).proposals
  {
    hide After, Inv;
    var n := |calls| - 1;
    var init, last := calls[..n], calls[n];
    CountIsDistinctApprovers(init);
    if id in Run(init).proposals {
      i := ProposalHasCall(init, id);
      StepOnProposal(Run(init), last, id);
      assert calls[i] == init[i] && init[..i] == calls[..i];
    } else {
      StepProposes(Run(init), last, id);
      i := n;
    }
  }

  /** Every executed proposal was executed at least its delay after it was proposed, by a later call. */
  lemma ExecutedAfterDelay(calls: seq<Call>, id: nat) returns (i: nat, j: nat)
    requires id in Run(calls).proposals && Run(calls).proposals[id].status == Executed
    ensures i < j < |calls| && ProposedBy(Run(calls).proposals[id], calls[i])
    ensures calls[j].Execute? && calls[j].id == id && calls[i].now + calls[i].delay <= calls[j].now
  {
    hide Run;
    i := ProposalHasCall(calls, id);
    j := ExecutedHasCall(calls, id);
    if j <= i {
      assert calls[..i][..j] == calls[..j];
      StaysProposed(calls[..i], id, j);
      assert false;
    }
  }

  lemma {:induction false} StaysProposed(calls: seq<Call>, id: nat, j: nat)
    requires j <= |calls| && id in Run(calls[..j]).proposals
    ensures id in Run(calls).proposals
    decreases |calls| - j
  {
    hide After;
    if j == |calls| {
      assert calls[..j] == calls;
    } else {
      var next := calls[..j + 1];
      assert next[..|next| - 1] == calls[..j];
      CountIsDistinctApprovers(calls[..j]);
      StepOnProposal(Run(calls[..j]), calls[j], id);
      StaysProposed(calls, id, j + 1);
    }
  }
}
