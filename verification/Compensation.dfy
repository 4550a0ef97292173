/** Reverse-order compensation of a workflow's completed steps
    (Backend/src/workflow/services/compensation.service.ts). */
module Compensation {
  import opened WorkflowTables
  import opened Sorting

  datatype StepRow = StepRow(state: StepState, requiresCompensation: bool, isCompensated: bool)

  /** The step table of one workflow, keyed by stepIndex. */
  type Steps = map<nat, StepRow>

  predicate Eligible(steps: Steps, i: nat) {
    i in steps && steps[i].state == StCompleted && steps[i].requiresCompensation
  }

  /** Array.filter: the eligible ones of the loaded rows, in the order they were loaded. */
  function Filter(steps: Steps, loaded: seq<nat>): (r: seq<nat>) {
    if loaded == [] then []
    else (if Eligible(steps, loaded[0]) then [loaded[0]] else []) + Filter(steps, loaded[1..])
  }

  /** The comparator of the sort: larger stepIndex first. */
  function Later(): (le: (nat, nat) -> bool) {
    (a: nat, b: nat) => a >= b
  }

  /** The order in which steps are compensated. */
  function Order(steps: Steps, loaded: seq<nat>): (r: seq<nat>) {
    Sort(Later(), Filter(steps, loaded))
  }

  /** A query result that lists every step of the workflow once, in any order. */
  ghost predicate Lists(loaded: seq<nat>, steps: set<nat>) {
    && (forall i :: i in loaded <==> i in steps)
    && NoRepeats(loaded)
  }

  ghost predicate StrictlyDecreasing(xs: seq<nat>) {
    forall i, j :: 0 <= i < j < |xs| ==> xs[i] > xs[j]
  }

  lemma {:induction false} FilterSelects(steps: Steps, loaded: seq<nat>)
    requires NoRepeats(loaded)
    ensures var r := Filter(steps, loaded);
            (forall i :: i in r <==> i in loaded && Eligible(steps, i)) && NoRepeats(r)
  {
    if loaded != [] {
      FilterSelects(steps, loaded[1..]);
      var rest := Filter(steps, loaded[1..]);
      assert forall i :: i in loaded <==> i == loaded[0] || i in loaded[1..];
      if Eligible(steps, loaded[0]) {
        assert loaded[0] !in rest;
        var r := [loaded[0]] + rest;
        forall i, j | 0 <= i < j < |r| ensures r[i] != r[j] {
          if i == 0 {
            assert r[j] in rest;
          }
        }
      }
    }
  }

  lemma LaterIsTotal()
    ensures TotalOrder(Later())
  {
  }

  /** Compensation visits exactly the COMPLETED steps that require it, in strictly decreasing
      stepIndex, whatever order the rows were loaded in. */
  lemma OrderIsReverse(steps: Steps, loaded: seq<nat>)
    requires Lists(loaded, steps.Keys)
    ensures var r := Order(steps, loaded);
            && (forall i :: i in r <==> Eligible(steps, i))
            && StrictlyDecreasing(r)
  {
    var f, r := Filter(steps, loaded), Order(steps, loaded);
    FilterSelects(steps, loaded);
    LaterIsTotal();
    SortSorted(Later(), f);
    SortKeepsElements(Later(), f);
    forall i ensures i in r <==> Eligible(steps, i) {
      SameElements(r, f, i);
    }
    PermutationNoRepeats(f, r);
    forall i, j | 0 <= i < j < |r| ensures r[i] > r[j] {
      assert Later()(r[i], r[j]);
    }
  }

  // ---------------------------------------------------------------------------------------
  // One call

  function Compensated(row: StepRow): (r: StepRow) {
    row.(state := StCompensated, isCompensated := true)
  }

  datatype Rollback = Rollback(steps: Steps, ok: bool, visited: seq<nat>)

  /** Compensate the listed steps in turn; the first one whose compensation fails is marked FAILED and
      stops the loop. `fails` says which compensations fail. */
  function RollBack(steps: Steps, order: seq<nat>, fails: nat -> bool): (r: Rollback)
    requires forall i :: i in order ==> i in steps
    decreases |order|
  {
    if order == [] then Rollback(steps, true, [])
    else
      var i := order[0];
      if fails(i) then Rollback(steps[i := steps[i].(state := StFailed)], false, [i])
      else
        var rest := RollBack(steps[i := Compensated(steps[i])], order[1..], fails);
        rest.(visited := [i] + rest.visited)
  }

  lemma RollBackUnfold(steps: Steps, order: seq<nat>, fails: nat -> bool)
    requires order != [] && forall i :: i in order ==> i in steps
    ensures var i := order[0];
            RollBack(steps, order, fails) ==
              if fails(i) then Rollback(steps[i := steps[i].(state := StFailed)], false, [i])
              else
                var rest := RollBack(steps[i := Compensated(steps[i])], order[1..], fails);
                rest.(visited := [i] + rest.visited)
  {
  }

  /** A step's row after a rollback: untouched unless visited; visited steps are compensated, except
      that the last one visited by a failing rollback is FAILED. */
  function Final(row: StepRow, i: nat, r: Rollback): (f: StepRow) {
    if i !in r.visited then row
    else if !r.ok && i == r.visited[|r.visited| - 1] then row.(state := StFailed)
    else Compensated(row)
  }

  /** The visited steps are an initial part of the order - all of it on success, up to and including
      the first failing step otherwise - and every row ends as Final says. */
  lemma {:induction false} RollBackEffect(steps: Steps, order: seq<nat>, fails: nat -> bool)
    requires forall i :: i in order ==> i in steps
    requires StrictlyDecreasing(order)
    ensures var r := RollBack(steps, order, fails);
            && r.visited <= order && r.steps.Keys == steps.Keys
            && (r.ok ==> r.visited == order)
            && (!r.ok ==> r.visited != [] && fails(r.visited[|r.visited| - 1]))
            && (forall j :: 0 <= j < |r.visited| && (r.ok || j < |r.visited| - 1) ==> !fails(r.visited[j]))
            && (forall i :: i in steps ==> r.steps[i] == Final(steps[i], i, r))
    decreases |order|
  {
    hide RollBack;
    if order == [] {
      RollBackNothing(steps, fails);
      return;
    }
    RollBackUnfold(steps, order, fails);
    if !fails(order[0]) {
      var i := order[0];
      var next, rest := steps[i := Compensated(steps[i])], order[1..];
      assert i !in rest;
      RollBackEffect(next, rest, fails);
      FinalCons(steps, order, fails);
    }
  }

  lemma RollBackNothing(steps: Steps, fails: nat -> bool)
    ensures RollBack(steps, [], fails) == Rollback(steps, true, [])
  {
  }

  lemma FinalCons(steps: Steps, order: seq<nat>, fails: nat -> bool)
    requires forall i :: i in order ==> i in steps
    requires order != [] && !fails(order[0]) && order[0] !in order[1..]
    requires var next := steps[order[0] := Compensated(steps[order[0]])];
             var s := RollBack(next, order[1..], fails);
             && s.visited <= order[1..] && (!s.ok ==> s.visited != [])
             && s.steps.Keys == steps.Keys
             && forall i :: i in next ==> s.steps[i] == Final(next[i], i, s)
    ensures var r := RollBack(steps, order, fails);
            forall i :: i in steps ==> r.steps[i] == Final(steps[i], i, r)
  {
    hide RollBack;
    var first := order[0];
    var next := steps[first := Compensated(steps[first])];
    var s := RollBack(next, order[1..], fails);
    var r := RollBack(steps, order, fails);
    RollBackUnfold(steps, order, fails);
    forall i | i in steps ensures r.steps[i] == Final(steps[i], i, r) {
      assert i in next;
      assert i in r.visited <==> i == first || i in s.visited;
      assert !s.ok ==> r.visited[|r.visited| - 1] == s.visited[|s.visited| - 1];
      assert forall j :: j in s.visited ==> j in order[1..];
    }
  }

  /** The steps that compensation reaches are the highest-index part of the eligible steps. */
  lemma VisitedAreHighest(steps: Steps, loaded: seq<nat>, fails: nat -> bool, v: nat, w: nat)
    requires Lists(loaded, steps.Keys)
    requires forall i :: i in Order(steps, loaded) ==> i in steps
    requires v in RollBack(steps, Order(steps, loaded), fails).visited
    requires Eligible(steps, w) && w > v
    ensures w in RollBack(steps, Order(steps, loaded), fails).visited
  {
    var order := Order(steps, loaded);
    OrderIsReverse(steps, loaded);
    RollBackEffect(steps, order, fails);
    var visited := RollBack(steps, order, fails).visited;
    var i :| 0 <= i < |order| && order[i] == w;
    var j :| 0 <= j < |visited| && visited[j] == v;
    assert i < j;
  }

  // ---------------------------------------------------------------------------------------
  // The service

  datatype CompensationResult = Refused | Succeeded | FailedOn(step: nat)

  class CompensationService {
    var workflow: WorkflowState
    var requiresCompensation: bool
    var isCompensated: bool
    var steps: Steps
    /** Every state written to the workflow row and to step rows, oldest first. */
    ghost var workflowWrites: seq<WorkflowState>
    ghost var stepWrites: seq<(nat, StepState)>

    /** compensateStep: through COMPENSATING to COMPENSATED or FAILED. */
    method CompensateStep(i: nat, fails: bool) returns (ok: bool)
      requires i in steps && steps[i].state == StCompleted
      modifies this`steps, this`stepWrites
      ensures ok == !fails
      ensures steps == old(steps)[i := if ok then Compensated(old(steps)[i]) else old(steps)[i].(state := StFailed)]
      ensures stepWrites == old(stepWrites) + [(i, StCompensating), (i, if ok then StCompensated else StFailed)]
      ensures CanTransitionStep(old(steps)[i].state, StCompensating)
      ensures CanTransitionStep(StCompensating, steps[i].state)
    {
      var row := steps[i];
      steps := steps[i := row.(state := StCompensating)];
      stepWrites := stepWrites + [(i, StCompensating)];
      if !fails {
        steps := steps[i := Compensated(row)];
        stepWrites := stepWrites + [(i, StCompensated)];
      } else {
        steps := steps[i := row.(state := StFailed)];
        stepWrites := stepWrites + [(i, StFailed)];
      }
      ok := !fails;
    }

    /** compensateWorkflow: refused unless the workflow is COMPLETED, FAILED or CANCELLED; otherwise
        rolls back the eligible steps in reverse order and ends COMPENSATED or FAILED. */
    method CompensateWorkflow(loaded: seq<nat>, fails: nat -> bool) returns (r: CompensationResult)
      requires Lists(loaded, steps.Keys)
      modifies this
      ensures !CanWorkflowCompensate(old(workflow)) ==> r == Refused && unchanged(this)
      ensures CanWorkflowCompensate(old(workflow)) ==>
                && (forall i :: i in Order(old(steps), loaded) <==> Eligible(old(steps), i))
                && var rb := RollBack(old(steps), Order(old(steps), loaded), fails);
                && steps == rb.steps
                && workflow == (if rb.ok then WfCompensated else WfFailed)
                && r == (if rb.ok then Succeeded else FailedOn(rb.visited[|rb.visited| - 1]))
                && isCompensated == (rb.ok || old(isCompensated)) && requiresCompensation
                && workflowWrites == old(workflowWrites) + [WfCompensating, workflow]
                && CanTransitionWorkflow(old(workflow), WfCompensating)
                && CanTransitionWorkflow(WfCompensating, workflow)
    {
      hide RollBack, Order, Halfway;
      if !CanWorkflowCompensate(workflow) || !CanTransitionWorkflow(workflow, WfCompensating) {
        return Refused;
      }
      workflow := WfCompensating;
      requiresCompensation := true;
      workflowWrites := workflowWrites + [workflow];
      ghost var before := steps;
      var order := Order(steps, loaded);
      OrderIsReverse(steps, loaded);
      HalfwayStart(steps, order, fails);
      for n := 0 to |order|
        invariant workflow == WfCompensating && requiresCompensation && isCompensated == old(isCompensated)
        invariant workflowWrites == old(workflowWrites) + [WfCompensating]
        invariant Halfway(before, order, fails, steps, n)
      {
        HalfwayStep(before, order, fails, steps, n);
        assert Eligible(before, order[n]);
        var ok := CompensateStep(order[n], fails(order[n]));
        if !ok {
          workflow := WfFailed;
          workflowWrites := workflowWrites + [workflow];
          return FailedOn(order[n]);
        }
      }
      HalfwayEnd(before, order, fails, steps);
      workflow := WfCompensated;
      isCompensated := true;
      workflowWrites := workflowWrites + [workflow];
      r := Succeeded;
    }
  }

  /** The loop has compensated order[..n]: finishing from here gives the whole rollback. */
  ghost predicate Halfway(before: Steps, order: seq<nat>, fails: nat -> bool, steps: Steps, n: nat) {
    && n <= |order| && steps.Keys == before.Keys && StrictlyDecreasing(order)
    && (forall i :: i in order ==> i in before)
    && (forall j :: n <= j < |order| ==> steps[order[j]] == before[order[j]])
    && var rest := RollBack(steps, order[n..], fails);
    RollBack(before, order, fails) == rest.(visited := order[..n] + rest.visited)
  }

  lemma HalfwayStart(steps: Steps, order: seq<nat>, fails: nat -> bool)
    requires StrictlyDecreasing(order) && forall i :: i in order ==> i in steps
    ensures Halfway(steps, order, fails, steps, 0)
  {
    hide RollBack;
    assert order[0..] == order;
  }

  lemma HalfwayStep(before: Steps, order: seq<nat>, fails: nat -> bool, steps: Steps, n: nat)
    requires Halfway(before, order, fails, steps, n) && n < |order|
    ensures order[n] in before && order[n] in steps && steps[order[n]] == before[order[n]]
    ensures var i := order[n];
            if fails(i) then
              && (forall j :: j in order ==> j in before)
              && RollBack(before, order, fails)
                 == Rollback(steps[i := steps[i].(state := StFailed)], false, order[..n + 1])
            else
              Halfway(before, order, fails, steps[i := Compensated(steps[i])], n + 1)
  {
    hide RollBack, StrictlyDecreasing;
    var i := order[n];
    assert i in order;
    Slices(order, n, RollBack(steps[i := Compensated(steps[i])], order[n + 1..], fails).visited);
    RollBackUnfold(steps, order[n..], fails);
    if !fails(i) {
      LaterRowsKept(before, order, steps, n);
    }
  }

  lemma Slices(order: seq<nat>, n: nat, tail: seq<nat>)
    requires n < |order|
    ensures order[n..][0] == order[n] && order[n..][1..] == order[n + 1..]
    ensures order[..n] + [order[n]] == order[..n + 1]
    ensures order[..n] + ([order[n]] + tail) == order[..n + 1] + tail
  {
  }

  lemma LaterRowsKept(before: Steps, order: seq<nat>, steps: Steps, n: nat)
    requires StrictlyDecreasing(order) && n < |order| && steps.Keys == before.Keys
    requires forall i :: i in order ==> i in before
    requires forall j :: n <= j < |order| ==> steps[order[j]] == before[order[j]]
    ensures var next := steps[order[n] := Compensated(steps[order[n]])];
            next.Keys == before.Keys && forall j :: n + 1 <= j < |order| ==> next[order[j]] == before[order[j]]
  {
    assert order[n] in order;
  }

  lemma HalfwayEnd(before: Steps, order: seq<nat>, fails: nat -> bool, steps: Steps)
    requires Halfway(before, order, fails, steps, |order|)
    ensures (forall j :: j in order ==> j in before) && RollBack(before, order, fails) == Rollback(steps, true, order)
  {
    assert order[|order|..] == [];
  }

  // ---------------------------------------------------------------------------------------
  // Sequences of calls

  datatype Saga = Saga(workflow: WorkflowState, steps: Steps)

  datatype Call = Call(loaded: seq<nat>, fails: nat -> bool)

  /** The specification of one call, together with the steps it visits. */
  ghost function AfterCall(s: Saga, c: Call): (r: (Saga, seq<nat>))
    requires Lists(c.loaded, s.steps.Keys)
    ensures r.0.steps.Keys == s.steps.Keys
  {
    if !CanWorkflowCompensate(s.workflow) then (s, [])
    else
      OrderIsReverse(s.steps, c.loaded);
      RollBackEffect(s.steps, Order(s.steps, c.loaded), c.fails);
      var rb := RollBack(s.steps, Order(s.steps, c.loaded), c.fails);
      (Saga(if rb.ok then WfCompensated else WfFailed, rb.steps), rb.visited)
  }

  /** All steps visited over a sequence of calls, in order. */
  ghost function VisitedBy(s: Saga, calls: seq<Call>): (r: seq<nat>)
    requires forall i :: 0 <= i < |calls| ==> Lists(calls[i].loaded, s.steps.Keys)
    decreases |calls|
  {
    if calls == [] then []
    else
      var (next, visited) := AfterCall(s, calls[0]);
      visited + VisitedBy(next, calls[1..])
  }

  /** A call visits only completed steps, and none of them is completed afterwards. */
  lemma CallUsesUpSteps(s: Saga, c: Call)
    requires Lists(c.loaded, s.steps.Keys)
    ensures var (next, visited) := AfterCall(s, c);
            && (forall i :: i in visited ==> i in s.steps && s.steps[i].state == StCompleted)
            && (forall i :: i in visited ==> next.steps[i].state != StCompleted)
            && (forall i :: i in s.steps && s.steps[i].state != StCompleted ==> next.steps[i] == s.steps[i])
            && StrictlyDecreasing(visited)
  {
    hide RollBack, Order;
    if CanWorkflowCompensate(s.workflow) {
      var order := Order(s.steps, c.loaded);
      OrderIsReverse(s.steps, c.loaded);
      RollBackEffect(s.steps, order, c.fails);
      var rb := RollBack(s.steps, order, c.fails);
      forall i | i in rb.visited
        ensures i in order && rb.steps[i].state != StCompleted
      {
        var j :| 0 <= j < |rb.visited| && rb.visited[j] == i;
        assert rb.visited[j] == order[j];
      }
    }
  }

  lemma {:induction false} VisitsAreCompleted(s: Saga, calls: seq<Call>)
    requires forall i :: 0 <= i < |calls| ==> Lists(calls[i].loaded, s.steps.Keys)
    ensures forall i :: i in VisitedBy(s, calls) ==> i in s.steps && s.steps[i].state == StCompleted
    decreases |calls|
  {
    hide AfterCall;
    if calls != [] {
      CallUsesUpSteps(s, calls[0]);
      VisitsAreCompleted(AfterCall(s, calls[0]).0, calls[1..]);
    }
  }

  /** Across any sequence of calls, successful or failing, no step is compensated twice. */
  lemma {:induction false} NeverCompensatedTwice(s: Saga, calls: seq<Call>)
    requires forall i :: 0 <= i < |calls| ==> Lists(calls[i].loaded, s.steps.Keys)
    ensures NoRepeats(VisitedBy(s, calls))
    decreases |calls|
  {
    hide AfterCall;
    if calls != [] {
      CallUsesUpSteps(s, calls[0]);
      var (next, visited) := AfterCall(s, calls[0]);
      NeverCompensatedTwice(next, calls[1..]);
      VisitsAreCompleted(next, calls[1..]);
      var rest := VisitedBy(next, calls[1..]);
      forall i, j | 0 <= i < j < |visited| + |rest|
        ensures (visited + rest)[i] != (visited + rest)[j]
      {
        if i < |visited| <= j {
          assert visited[i] in visited && rest[j - |visited|] in rest;
        }
      }
    }
  }
}
