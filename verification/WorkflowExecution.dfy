/** Forward execution of a fresh workflow: steps in index order, each retried a bounded number of
    times (Backend/src/workflow/services/workflow-execution.service.ts). */
module WorkflowExecution {
  import opened WorkflowTables

  /** What a step's execute function does on one attempt. */
  datatype Attempt = Succeeds | Throws | TimesOut

  /** The behaviour of the step functions: step index and attempt number decide the outcome. */
  type Oracle = (nat, nat) -> Attempt

  datatype StepRow = StepRow(state: StepState, retryCount: nat, maxRetries: int)

  /** What the database holds after a save. */
  datatype Snapshot = Snapshot(workflow: WorkflowState, steps: seq<StepState>)

  // ---------------------------------------------------------------------------------------
  // Specification of one step

  datatype Trial = Trial(ok: bool, attempts: nat)

  /** Running step i from attempt k on: a success ends it, a timeout ends it, an error is retried
      while attempts are left. */
  function RunStep(o: Oracle, i: nat, maxRetries: int, k: nat): (t: Trial)
    decreases maxRetries - k
  {
    match o(i, k)
    case Succeeds => Trial(true, k + 1)
    case TimesOut => Trial(false, k + 1)
    case Throws => if ShouldRetry(k + 1, maxRetries) then RunStep(o, i, maxRetries, k + 1) else Trial(false, k + 1)
  }

  /** The attempts a step is allowed: at least one, whatever maxRetries says. */
  function Allowed(maxRetries: int): (n: nat) {
    if maxRetries < 1 then 1 else maxRetries
  }

  lemma RunStepUnfold(o: Oracle, i: nat, maxRetries: int, k: nat)
    ensures RunStep(o, i, maxRetries, k) ==
              match o(i, k)
              case Succeeds => Trial(true, k + 1)
              case TimesOut => Trial(false, k + 1)
              case Throws =>
                if ShouldRetry(k + 1, maxRetries) then RunStep(o, i, maxRetries, k + 1) else Trial(false, k + 1)
  {
  }

  /** From attempt k on, attempt j is the first that does not throw, and it succeeds. */
  ghost predicate SucceedsAt(o: Oracle, i: nat, k: nat, j: nat) {
    o(i, j) == Succeeds && forall m :: k <= m < j ==> o(i, m) == Throws
  }

  /** All attempts but the last threw; the last one succeeded, timed out, or threw with none left. */
  ghost predicate StopsAfter(o: Oracle, i: nat, maxRetries: int, k: nat, t: Trial) {
    && k < t.attempts
    && (forall m :: k <= m < t.attempts - 1 ==> o(i, m) == Throws)
    && var last := o(i, t.attempts - 1);
    && (t.ok <==> last == Succeeds)
    && (last == Throws ==> t.attempts == Allowed(maxRetries))
  }

  lemma {:induction false} RunStepBound(o: Oracle, i: nat, maxRetries: int, k: nat)
    requires k < Allowed(maxRetries)
    ensures k < RunStep(o, i, maxRetries, k).attempts <= Allowed(maxRetries)
    ensures RunStep(o, i, maxRetries, k).ok <==>
              exists j :: k <= j < Allowed(maxRetries) && SucceedsAt(o, i, k, j)
    ensures StopsAfter(o, i, maxRetries, k, RunStep(o, i, maxRetries, k))
    decreases maxRetries - k
  {
    if o(i, k) == Throws && ShouldRetry(k + 1, maxRetries) {
      RunStepBound(o, i, maxRetries, k + 1);
      if RunStep(o, i, maxRetries, k).ok {
        var j :| k + 1 <= j < Allowed(maxRetries) && SucceedsAt(o, i, k + 1, j);
        assert SucceedsAt(o, i, k, j);
      }
      if j :| k <= j < Allowed(maxRetries) && SucceedsAt(o, i, k, j) {
        assert SucceedsAt(o, i, k + 1, j);
      }
      assert StopsAfter(o, i, maxRetries, k + 1, RunStep(o, i, maxRetries, k + 1));
    } else if o(i, k) == Succeeds {
      assert SucceedsAt(o, i, k, k);
    }
  }

  /** A step completes exactly when some allowed attempt succeeds and all attempts before it fail
      with an ordinary error; its execute function runs at most max(1, maxRetries) times. */
  lemma StepCompletesIff(o: Oracle, i: nat, maxRetries: int)
    ensures 1 <= RunStep(o, i, maxRetries, 0).attempts <= Allowed(maxRetries)
    ensures RunStep(o, i, maxRetries, 0).ok <==>
              exists j :: 0 <= j < Allowed(maxRetries) && SucceedsAt(o, i, 0, j)
    ensures StopsAfter(o, i, maxRetries, 0, RunStep(o, i, maxRetries, 0))
  {
    RunStepBound(o, i, maxRetries, 0);
  }

  // ---------------------------------------------------------------------------------------
  // Shape and history

  /** Completed steps before k, pending steps after k. */
  ghost predicate Around(steps: seq<StepState>, k: nat) {
    && (forall i :: 0 <= i < k && i < |steps| ==> steps[i] == StCompleted)
    && (forall i :: k < i < |steps| ==> steps[i] == StPending)
    && (k < |steps| ==> steps[k] in {StPending, StRunning, StFailed, StCompleted})
  }

  lemma AroundFresh(steps: seq<StepState>)
    requires forall i :: 0 <= i < |steps| ==> steps[i] == StPending
    ensures Around(steps, 0)
  {
  }

  lemma AroundNext(steps: seq<StepState>, k: nat)
    requires Around(steps, k) && k < |steps| && steps[k] == StCompleted
    ensures Around(steps, k + 1)
  {
  }

  lemma AroundEnd(steps: seq<StepState>)
    requires Around(steps, |steps|)
    ensures AllCompleted(steps)
  {
  }

  /** A completed prefix, at most one step running or failed, a pending suffix. */
  ghost predicate PrefixShape(steps: seq<StepState>) {
    exists k: nat :: k <= |steps| && Around(steps, k)
  }

  /** Two successive saves differ only along edges of the transition tables. */
  ghost predicate TableStep(x: Snapshot, y: Snapshot) {
    && |x.steps| == |y.steps|
    && (x.workflow == y.workflow || CanTransitionWorkflow(x.workflow, y.workflow))
    && forall i :: 0 <= i < |x.steps| ==> x.steps[i] == y.steps[i] || CanTransitionStep(x.steps[i], y.steps[i])
  }

  ghost predicate Lawful(saves: seq<Snapshot>) {
    && (forall i :: 0 <= i < |saves| ==> PrefixShape(saves[i].steps))
    && (forall i :: 0 <= i < |saves| ==> (saves[i].workflow == WfCompleted ==> AllCompleted(saves[i].steps)))
    && (forall i :: 0 < i < |saves| ==> TableStep(saves[i - 1], saves[i]))
  }

  ghost predicate AllCompleted(steps: seq<StepState>) {
    forall i :: 0 <= i < |steps| ==> steps[i] == StCompleted
  }

  lemma LawfulSnoc(saves: seq<Snapshot>, s: Snapshot, k: nat)
    requires Lawful(saves) && k <= |s.steps| && Around(s.steps, k)
    requires s.workflow == WfCompleted ==> AllCompleted(s.steps)
    requires saves != [] ==> TableStep(saves[|saves| - 1], s)
    ensures Lawful(saves + [s])
  {
    assert PrefixShape(s.steps);
  }

  function StatesOf(rows: seq<StepRow>): (r: seq<StepState>)
    ensures |r| == |rows|
    ensures forall i :: 0 <= i < |rows| ==> r[i] == rows[i].state
  {
    seq(|rows|, i requires 0 <= i < |rows| => rows[i].state)
  }

  /** The index of the first step that does not complete, or the number of steps. */
  function FirstFailure(o: Oracle, rows: seq<StepRow>, i: nat): (k: nat)
    requires i <= |rows|
    ensures i <= k <= |rows|
    ensures forall j :: i <= j < k ==> RunStep(o, j, rows[j].maxRetries, 0).ok
    ensures k < |rows| ==> !RunStep(o, k, rows[k].maxRetries, 0).ok
    decreases |rows| - i
  {
    if i == |rows| || !RunStep(o, i, rows[i].maxRetries, 0).ok then i else FirstFailure(o, rows, i + 1)
  }

  // ---------------------------------------------------------------------------------------
  // The engine

  class Engine {
    var workflow: WorkflowState
    var currentStepIndex: nat
    var steps: seq<StepRow>
    /** How often each step's execute function was called. */
    var calls: seq<nat>
    /** Every state the repositories were asked to save, in order. */
    ghost var saves: seq<Snapshot>

    ghost function Now(): (s: Snapshot)
      reads this
    {
      Snapshot(workflow, StatesOf(steps))
    }

    ghost predicate Valid()
      reads this
    {
      && |calls| == |steps|
      && saves != [] && saves[|saves| - 1] == Now()
      && Lawful(saves)
    }

    /** A workflow and its steps as startWorkflow saves them. */
    constructor (maxRetries: seq<int>)
      ensures Valid()
      ensures workflow == WfPending && |steps| == |maxRetries|
      ensures forall i :: 0 <= i < |steps| ==> steps[i] == StepRow(StPending, 0, maxRetries[i]) && calls[i] == 0
      ensures saves == [Now()]
    {
      workflow, currentStepIndex := WfPending, 0;
      steps := seq(|maxRetries|, i requires 0 <= i < |maxRetries| => StepRow(StPending, 0, maxRetries[i]));
      calls := seq(|maxRetries|, i => 0);
      new;
      saves := [Now()];
      assert Around(saves[0].steps, 0);
    }

    /** Save the workflow row. */
    method SaveWorkflow(state: WorkflowState, ghost k: nat)
      requires Valid() && k <= |steps| && Around(StatesOf(steps), k)
      requires state == workflow || CanTransitionWorkflow(workflow, state)
      requires state == WfCompleted ==> AllCompleted(StatesOf(steps))
      modifies this`workflow, this`saves
      ensures Valid() && workflow == state
      ensures saves == old(saves) + [Now()]
    {
      workflow := state;
      LawfulSnoc(saves, Now(), k);
      saves := saves + [Now()];
    }

    /** Save one step row. */
    method SaveStep(i: nat, row: StepRow)
      requires Valid() && i < |steps| && Around(StatesOf(steps), i)
      requires row.state in {StRunning, StFailed, StCompleted} && workflow == WfRunning
      requires row.state == steps[i].state || CanTransitionStep(steps[i].state, row.state)
      modifies this`steps, this`saves
      ensures Valid() && steps == old(steps)[i := row] && Around(StatesOf(steps), i)
      ensures saves == old(saves) + [Now()]
    {
      steps := steps[i := row];
      LawfulSnoc(saves, Now(), i);
      saves := saves + [Now()];
    }

    /** executeStep: returns whether the step completed; otherwise it threw. A timed-out step asks for
        compensation, which a RUNNING workflow refuses, so it too ends in an ordinary error. */
    method ExecuteStep(o: Oracle, i: nat) returns (ok: bool)
      requires Valid() && workflow == WfRunning && i < |steps| && Around(StatesOf(steps), i)
      requires steps[i].state in {StPending, StFailed} && calls[i] == steps[i].retryCount
      requires steps[i].retryCount < Allowed(steps[i].maxRetries)
      modifies this`steps, this`calls, this`saves
      ensures Valid() && Around(StatesOf(steps), i) && |steps| == |old(steps)|
      ensures var t := RunStep(o, i, old(steps)[i].maxRetries, old(steps)[i].retryCount);
              && ok == t.ok
              && calls == old(calls)[i := t.attempts]
              && steps[i].state == (if ok then StCompleted else StFailed)
              && (if ok then steps[i].retryCount + 1 == t.attempts else steps[i].retryCount == t.attempts)
      ensures steps == old(steps)[i := steps[i]] && steps[i].maxRetries == old(steps)[i].maxRetries
      ensures old(saves) <= saves
      decreases steps[i].maxRetries - steps[i].retryCount
    {
      hide Lawful, Around, RunStep, PrefixShape, TableStep, StatesOf;
      RunStepUnfold(o, i, steps[i].maxRetries, steps[i].retryCount);
      var row := steps[i];
      SaveStep(i, row.(state := StRunning));
      var attempt := o(i, row.retryCount);
      calls := calls[i := calls[i] + 1];
      match attempt {
        case Succeeds =>
          SaveStep(i, row.(state := StCompleted));
          ok := true;
        case TimesOut =>
          SaveStep(i, row.(state := StFailed, retryCount := row.retryCount + 1));
          assert !CanWorkflowCompensate(workflow);
          ok := false;
        case Throws =>
          SaveStep(i, row.(state := StFailed, retryCount := row.retryCount + 1));
          if ShouldRetry(steps[i].retryCount, steps[i].maxRetries) {
            ok := ExecuteStep(o, i);
          } else {
            ok := false;
          }
      }
    }

    /** executeSteps: the steps in index order, up to the first one that throws. */
    method ExecuteSteps(o: Oracle) returns (ok: bool)
      requires Valid() && workflow == WfRunning && Around(StatesOf(steps), 0)
      requires Progress(o, steps, steps, calls, 0)
      modifies this`currentStepIndex, this`workflow, this`steps, this`calls, this`saves
      ensures Valid() && workflow == WfRunning && old(saves) <= saves
      ensures var k, n := FirstFailure(o, old(steps), 0), |old(steps)|;
              n > 0 ==> currentStepIndex == if k < n then k else n - 1
      ensures var k := FirstFailure(o, old(steps), 0);
              && ok == (k == |old(steps)|)
              && |steps| == |old(steps)|
              && Around(StatesOf(steps), k)
              && EndedAt(o, old(steps), steps, calls, k)
    {
      hide Lawful, Around, RunStep, Progress, EndedAt;
      ghost var rows := steps;
      for i := 0 to |steps|
        invariant Valid() && workflow == WfRunning && |steps| == |rows| && old(saves) <= saves
        invariant i <= FirstFailure(o, rows, 0)
        invariant Around(StatesOf(steps), i)
        invariant Progress(o, rows, steps, calls, i)
        invariant i > 0 ==> currentStepIndex == i - 1
      {
        currentStepIndex := i;
        SaveWorkflow(workflow, i);
        ProgressHere(o, rows, steps, calls, i);
        ghost var (steps0, calls0) := (steps, calls);
        var done := ExecuteStep(o, i);
        ProgressStep(o, rows, steps0, calls0, steps, calls, i);
        if !done {
          return false;
        }
        AroundNext(StatesOf(steps), i);
      }
      ProgressDone(o, rows, steps, calls);
      ok := true;
    }

    /** executeWorkflow on a fresh workflow: it completes exactly when every step does. Otherwise it
        fails at the first step that does not; the steps before it are completed, those after it
        were never touched, and nothing is compensated. Every save has the prefix shape and follows
        the tables, and COMPLETED is only ever saved over completed steps. */
    method ExecuteWorkflow(o: Oracle) returns (ok: bool)
      requires Valid() && workflow == WfPending
      requires forall i :: 0 <= i < |steps| ==> steps[i].state == StPending && steps[i].retryCount == 0 && calls[i] == 0
      modifies this
      ensures Valid() && Lawful(saves) && old(saves) <= saves
      ensures var k := FirstFailure(o, old(steps), 0);
              && ok == (k == |old(steps)|)
              && workflow == (if ok then WfCompleted else WfFailed)
              && (|steps| > 0 ==> currentStepIndex == if ok then |steps| - 1 else k)
              && EndedAt(o, old(steps), steps, calls, k)
      ensures |steps| == |old(steps)|
      ensures forall i :: 0 <= i < |steps| ==> calls[i] <= Allowed(old(steps)[i].maxRetries)
    {
      hide Lawful, Around, RunStep, Progress, EndedAt, AllCompleted;
      ghost var k := FirstFailure(o, steps, 0);
      AroundFresh(StatesOf(steps));
      ProgressFresh(o, steps, calls);
      SaveWorkflow(WfRunning, 0);
      ok := ExecuteSteps(o);
      CallsBounded(o, old(steps), steps, calls, k);
      if ok {
        AroundEnd(StatesOf(steps));
        SaveWorkflow(WfCompleted, k);
      } else {
        SaveWorkflow(WfFailed, k);
      }
    }
  }

  // ---------------------------------------------------------------------------------------
  // Progress of the step loop

  /** Steps before i are completed after their trials, steps from i on are untouched. */
  ghost predicate Progress(o: Oracle, rows: seq<StepRow>, steps: seq<StepRow>, calls: seq<nat>, i: nat) {
    && |rows| == |steps| == |calls|
    && (forall j :: 0 <= j < i && j < |rows| ==>
          && steps[j].state == StCompleted && calls[j] == RunStep(o, j, rows[j].maxRetries, 0).attempts
          && steps[j].retryCount + 1 == calls[j])
    && (forall j :: i <= j < |rows| ==>
          steps[j] == rows[j] && rows[j].state == StPending && rows[j].retryCount == 0 && calls[j] == 0)
  }

  /** The steps after a run that stopped at step k: those before it completed, step k failed, those
      after it untouched, and every step's function called exactly as often as its trial says. */
  ghost predicate EndedAt(o: Oracle, rows: seq<StepRow>, steps: seq<StepRow>, calls: seq<nat>, k: nat) {
    && |rows| == |steps| == |calls| && k <= |rows|
    && (forall j :: 0 <= j < k ==> steps[j].state == StCompleted && steps[j].retryCount + 1 == calls[j])
    && (k < |rows| ==> steps[k].state == StFailed && steps[k].retryCount == calls[k])
    && (forall j :: k < j < |rows| ==> steps[j] == rows[j] && calls[j] == 0)
    && (forall j :: 0 <= j < |rows| && j <= k ==> calls[j] == RunStep(o, j, rows[j].maxRetries, 0).attempts)
  }

  lemma ProgressFresh(o: Oracle, rows: seq<StepRow>, calls: seq<nat>)
    requires |rows| == |calls|
    requires forall i :: 0 <= i < |rows| ==> rows[i].state == StPending && rows[i].retryCount == 0 && calls[i] == 0
    ensures Progress(o, rows, rows, calls, 0)
  {
  }

  lemma ProgressHere(o: Oracle, rows: seq<StepRow>, steps: seq<StepRow>, calls: seq<nat>, i: nat)
    requires Progress(o, rows, steps, calls, i) && i < |rows|
    ensures steps[i] == rows[i] && rows[i].state == StPending && rows[i].retryCount == 0 && calls[i] == 0
  {
  }

  lemma ProgressStep(o: Oracle, rows: seq<StepRow>, steps0: seq<StepRow>, calls0: seq<nat>,
                     steps: seq<StepRow>, calls: seq<nat>, i: nat)
    requires Progress(o, rows, steps0, calls0, i) && i < |rows| == |steps|
    requires var t := RunStep(o, i, rows[i].maxRetries, 0);
             && steps == steps0[i := steps[i]] && steps[i].state == (if t.ok then StCompleted else StFailed)
             && calls == calls0[i := t.attempts]
             && (if t.ok then steps[i].retryCount + 1 == t.attempts else steps[i].retryCount == t.attempts)
    ensures if RunStep(o, i, rows[i].maxRetries, 0).ok then Progress(o, rows, steps, calls, i + 1)
            else EndedAt(o, rows, steps, calls, i)
  {
    hide RunStep;
  }

  lemma ProgressDone(o: Oracle, rows: seq<StepRow>, steps: seq<StepRow>, calls: seq<nat>)
    requires Progress(o, rows, steps, calls, |rows|)
    ensures EndedAt(o, rows, steps, calls, |rows|)
  {
    hide RunStep;
  }

  lemma CallsBounded(o: Oracle, rows: seq<StepRow>, steps: seq<StepRow>, calls: seq<nat>, k: nat)
    requires EndedAt(o, rows, steps, calls, k)
    ensures forall i :: 0 <= i < |rows| ==> calls[i] <= Allowed(rows[i].maxRetries)
  {
    hide RunStep;
    forall i | 0 <= i < |rows| ensures calls[i] <= Allowed(rows[i].maxRetries) {
      StepCompletesIff(o, i, rows[i].maxRetries);
    }
  }
}
