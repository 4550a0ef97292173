/** Forward execution and compensation together
    (Backend/src/workflow/services/workflow-execution.service.ts, compensation.service.ts). */
module Saga {
  import opened WorkflowTables
  import opened Sorting
  import Execution = WorkflowExecution
  import opened Compensation

  /** The rows that compensation loads after a forward run: the states the run left, and which steps have
      a compensate function. */
  function RowsOf(steps: seq<Execution.StepRow>, needs: seq<bool>): (r: Steps)
    requires |needs| == |steps|
    ensures forall i: nat :: i in r <==> i < |steps|
    ensures forall i :: 0 <= i < |steps| ==> r[i] == StepRow(steps[i].state, needs[i], false)
  {
    map i: nat | i < |steps| :: StepRow(steps[i].state, needs[i], false)
  }

  /** The state of step i after a forward run that stopped at step k and a compensation that got as far
      down as step `last`, where it failed unless `ok`. */
  function EndState(i: nat, k: nat, needs: bool, ok: bool, last: nat): (s: StepState) {
    if i > k then StPending
    else if i == k then StFailed
    else if !needs then StCompleted
    else if ok || i > last then StCompensated
    else if i == last then StFailed
    else StCompleted
  }

  /** After a forward run that stopped at step k (k is the number of steps if it completed), compensating
      visits exactly the steps before k that have a compensate function, last one first. If none of
      their compensations fails they all end COMPENSATED; if one does, exactly those above it do and it
      ends FAILED. No other step changes. */
  lemma SagaRollsBack(o: Execution.Oracle, rows: seq<Execution.StepRow>, steps: seq<Execution.StepRow>, calls: seq<nat>,
                      k: nat, needs: seq<bool>, loaded: seq<nat>, fails: nat -> bool)
    requires Execution.EndedAt(o, rows, steps, calls, k) && |needs| == |steps|
    requires forall i :: k < i < |rows| ==> rows[i].state == StPending
    requires Lists(loaded, RowsOf(steps, needs).Keys)
    ensures var order := Order(RowsOf(steps, needs), loaded);
            && (forall i: nat :: i in order <==> i < k && needs[i])
            && StrictlyDecreasing(order)
            && var rb := RollBack(RowsOf(steps, needs), order, fails);
            var last := if rb.ok then 0 else rb.visited[|rb.visited| - 1];
            && (rb.ok <==> forall i :: i in order ==> !fails(i))
            && (!rb.ok ==> last in order && fails(last) && forall i :: i in order && i > last ==> !fails(i))
            && rb.steps.Keys == RowsOf(steps, needs).Keys
            && (forall i :: 0 <= i < |steps| ==> rb.steps[i].state == EndState(i, k, needs[i], rb.ok, last))
            && forall i :: 0 <= i < |steps| ==> (rb.steps[i].isCompensated <==> rb.steps[i].state == StCompensated)
  {
    hide RollBack, Order, Final;
    var before := RowsOf(steps, needs);
    var order := Order(before, loaded);
    OrderIsReverse(before, loaded);
    RollBackEffect(before, order, fails);
    var rb := RollBack(before, order, fails);
    VisitedExactly(order, rb.visited, rb.ok, fails);
    forall i | 0 <= i < |steps|
      ensures rb.steps[i].state == EndState(i, k, needs[i], rb.ok, if rb.ok then 0 else rb.visited[|rb.visited| - 1])
      ensures rb.steps[i].isCompensated <==> rb.steps[i].state == StCompensated
    {
      FinalState(before[i], i, rb);
    }
  }

  lemma FinalState(row: StepRow, i: nat, r: Rollback)
    requires !r.ok ==> r.visited != []
    ensures Final(row, i, r).state
            == if i !in r.visited then row.state
               else if !r.ok && i == r.visited[|r.visited| - 1] then StFailed
               else StCompensated
    ensures !row.isCompensated && row.state != StCompensated ==>
              (Final(row, i, r).isCompensated <==> Final(row, i, r).state == StCompensated)
  {
  }

  /** A strictly decreasing order is visited down to its first failure. */
  lemma VisitedExactly(order: seq<nat>, visited: seq<nat>, ok: bool, fails: nat -> bool)
    requires StrictlyDecreasing(order) && visited <= order && (ok ==> visited == order)
    requires !ok ==> visited != [] && fails(visited[|visited| - 1])
    requires forall j :: 0 <= j < |visited| && (ok || j < |visited| - 1) ==> !fails(visited[j])
    ensures ok <==> forall i :: i in order ==> !fails(i)
    ensures !ok ==>
              var last := visited[|visited| - 1];
              && last in order && (forall i :: i in order && i > last ==> !fails(i))
              && forall i :: i in visited <==> i in order && i >= last
  {
    if !ok {
      var n := |visited| - 1;
      assert order[n] == visited[n];
      forall i | i in order && i >= visited[n] ensures i in visited && (i > visited[n] ==> !fails(i)) {
        var j :| 0 <= j < |order| && order[j] == i;
        assert j <= n;
        assert visited[j] == i;
      }
      forall i | i in visited ensures i in order && i >= visited[n] {
        var j :| 0 <= j < |visited| && visited[j] == i;
        assert order[j] == i;
      }
    }
  }
}
