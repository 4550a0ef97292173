/** The transition tables of workflows and steps and the predicates over them
    (Backend/src/workflow/services/workflow-state-machine.service.ts). */
module WorkflowTables {

  datatype WorkflowState =
    | WfPending | WfRunning | WfCompleted | WfFailed | WfCancelled | WfCompensating | WfCompensated

  datatype StepState =
    | StPending | StRunning | StCompleted | StFailed | StSkipped | StCompensating | StCompensated

  function WorkflowTransitions(from: WorkflowState): (to: set<WorkflowState>) {
    match from
    case WfPending => {WfRunning, WfCancelled}
    case WfRunning => {WfCompleted, WfFailed, WfCancelled, WfCompensating}
    case WfCompleted => {WfCompensating}
    case WfFailed => {WfRunning, WfCancelled, WfCompensating}
    case WfCancelled => {WfCompensating}
    case WfCompensating => {WfCompensated, WfFailed}
    case WfCompensated => {}
  }

  function StepTransitions(from: StepState): (to: set<StepState>) {
    match from
    case StPending => {StRunning, StSkipped}
    case StRunning => {StCompleted, StFailed, StSkipped}
    case StCompleted => {StCompensating}
    case StFailed => {StRunning, StSkipped, StCompensating}
    case StSkipped => {StCompensating}
    case StCompensating => {StCompensated, StFailed}
    case StCompensated => {}
  }

  predicate CanTransitionWorkflow(from: WorkflowState, to: WorkflowState) {
    to in WorkflowTransitions(from)
  }

  predicate CanTransitionStep(from: StepState, to: StepState) {
    to in StepTransitions(from)
  }

  predicate CanWorkflowCompensate(s: WorkflowState) {
    s in {WfCompleted, WfFailed, WfCancelled}
  }

  /** shouldRetry for a failed step. */
  predicate ShouldRetry(retryCount: int, maxRetries: int) {
    retryCount < maxRetries
  }

  /** The workflow table: PENDING is never re-entered, only a COMPENSATED workflow is final, COMPENSATED is
      entered from COMPENSATING alone, RUNNING from PENDING or FAILED alone, and COMPENSATING from every
      state that may be compensated and from RUNNING, though a RUNNING workflow may not be. */
  lemma WorkflowTableShape(from: WorkflowState)
    ensures !CanTransitionWorkflow(from, WfPending) && !CanTransitionWorkflow(from, from)
    ensures (forall t :: !CanTransitionWorkflow(from, t)) <==> from == WfCompensated
    ensures CanTransitionWorkflow(from, WfCompensated) <==> from == WfCompensating
    ensures CanTransitionWorkflow(from, WfCompleted) <==> from == WfRunning
    ensures CanTransitionWorkflow(from, WfRunning) <==> from == WfPending || from == WfFailed
    ensures CanTransitionWorkflow(from, WfFailed) <==> from == WfRunning || from == WfCompensating
    ensures CanTransitionWorkflow(from, WfCancelled) <==> from == WfPending || from == WfRunning || from == WfFailed
    ensures CanTransitionWorkflow(from, WfCompensating) <==> CanWorkflowCompensate(from) || from == WfRunning
    ensures CanWorkflowCompensate(from) <==> from == WfCompleted || from == WfFailed || from == WfCancelled
  {
    if from != WfCompensated {
      assert CanTransitionWorkflow(from, if from == WfPending then WfRunning
                                         else if from == WfCompensating then WfFailed
                                         else WfCompensating);
    }
  }

  /** The step table: PENDING is never re-entered, only a COMPENSATED step is final, COMPLETED is entered from
      RUNNING alone, RUNNING from PENDING or FAILED alone, and a step is compensated only after it ended. */
  lemma StepTableShape(from: StepState)
    ensures !CanTransitionStep(from, StPending) && !CanTransitionStep(from, from)
    ensures (forall t :: !CanTransitionStep(from, t)) <==> from == StCompensated
    ensures CanTransitionStep(from, StCompensated) <==> from == StCompensating
    ensures CanTransitionStep(from, StCompleted) <==> from == StRunning
    ensures CanTransitionStep(from, StRunning) <==> from == StPending || from == StFailed
    ensures CanTransitionStep(from, StFailed) <==> from == StRunning || from == StCompensating
    ensures CanTransitionStep(from, StSkipped) <==> from == StPending || from == StRunning || from == StFailed
    ensures CanTransitionStep(from, StCompensating) <==> from == StCompleted || from == StFailed || from == StSkipped
  {
    if from != StCompensated {
      assert CanTransitionStep(from, if from == StPending then StRunning else if from == StRunning then StCompleted
                                     else if from == StCompensating then StFailed else StCompensating);
    }
  }
}
