/** The start protocol of a workflow: any number of workers call startWorkflow with one idempotency
    key and interleave at every database or Redis operation
    (Backend/src/workflow/services/workflow-execution.service.ts). */
module WorkflowStart {
  import opened Wrappers

  type Worker = nat
  type RowId = nat

  /** How a call ends. */
  datatype Outcome = Returned(row: RowId) | Threw

  /** Where a call stands: the next operation it will perform. A worker draws its own lock token, so
      the worker's name stands for the token. */
  datatype Pc =
    | Lookup
    | Acquire
    | Waiting
    | Inserting
    | SavingSteps(row: RowId)
    | Executing(row: RowId)
    | Reading(row: RowId)
    | Releasing(outcome: Outcome)
    | Deleting(outcome: Outcome)
    | Done(outcome: Outcome)
    | Crashed

  /** Shared tables plus every worker's place. `creator` and `entered` record who inserted a row and
      who entered executeWorkflow, in order. */
  datatype State = State(
    rows: set<RowId>,
    lock: Option<Worker>,
    pcs: map<Worker, Pc>,
    creator: Option<Worker>,
    entered: seq<Worker>)
  {
    function At(w: Worker): (pc: Pc) {
      if w in pcs then pcs[w] else Lookup
    }

    function Goto(w: Worker, pc: Pc): (s: State) {
      this.(pcs := pcs[w := pc])
    }
  }

  const Initial: State := State({}, None, map[], None, [])

  /** One atomic operation. Find and Poll return whichever row the query yields. Execute says whether
      executeWorkflow returned. Fail is any operation that ends in an error; `effect` says whether the
      database or Redis carried it out all the same, and `id` is then the row inserted. Expire is the
      lock's lease running out. */
  datatype Action =
    | Find(w: Worker, hit: Option<RowId>)
    | TryLock(w: Worker)
    | Poll(w: Worker, hit: Option<RowId>)
    | GiveUp(w: Worker)
    | Insert(w: Worker, id: RowId)
    | SaveSteps(w: Worker)
    | Execute(w: Worker, ok: bool)
    | ReadBack(w: Worker)
    | GetToken(w: Worker)
    | Delete(w: Worker)
    | Fail(w: Worker, effect: bool, id: RowId)
    | Crash(w: Worker)
    | Expire

  /** A query on the unique key answers with a stored row, or with nothing if there is none. */
  predicate Answers(s: State, hit: Option<RowId>) {
    match hit
    case None => s.rows == {}
    case Some(id) => id in s.rows
  }

  /** The state after an action, or None where the action is not possible. */
  function Apply(s: State, a: Action): (r: Option<State>) {
    match a
    case Find(w, hit) =>
      if !s.At(w).Lookup? || !Answers(s, hit) then None
      else if hit.Some? then Some(s.Goto(w, Done(Returned(hit.value))))
      else Some(s.Goto(w, Acquire))
    case TryLock(w) =>
      if !s.At(w).Acquire? then None
      else if s.lock.None? then Some(s.(lock := Some(w)).Goto(w, Inserting))
      else Some(s.Goto(w, Waiting))
    case Poll(w, hit) =>
      if !s.At(w).Waiting? || !Answers(s, hit) then None
      else if hit.Some? then Some(s.Goto(w, Done(Returned(hit.value))))
      else Some(s)
    case GiveUp(w) =>
      if !s.At(w).Waiting? then None else Some(s.Goto(w, Done(Threw)))
    case Insert(w, id) =>
      if !s.At(w).Inserting? then None
      else if s.rows != {} then Some(s.Goto(w, Releasing(Threw)))
      else Some(s.(rows := {id}, creator := Some(w)).Goto(w, SavingSteps(id)))
    case SaveSteps(w) =>
      if !s.At(w).SavingSteps? then None
      else Some(s.(entered := s.entered + [w]).Goto(w, Executing(s.At(w).row)))
    case Execute(w, ok) =>
      if !s.At(w).Executing? then None
      else Some(s.Goto(w, if ok then Reading(s.At(w).row) else Releasing(Threw)))
    case ReadBack(w) =>
      if !s.At(w).Reading? then None
      else Some(s.Goto(w, Releasing(Returned(s.At(w).row))))
    case GetToken(w) =>
      if !s.At(w).Releasing? then None
      else if s.lock == Some(w) then Some(s.Goto(w, Deleting(s.At(w).outcome)))
      else Some(s.Goto(w, Done(s.At(w).outcome)))
    case Delete(w) =>
      if !s.At(w).Deleting? then None
      else Some(s.(lock := None).Goto(w, Done(s.At(w).outcome)))
    case Fail(w, effect, id) =>
      Failed(s, w, effect, id)
    case Crash(w) =>
      if s.At(w).Done? then None else Some(s.Goto(w, Crashed))
    case Expire =>
      Some(s.(lock := None))
  }

  /** An error before the lock is taken ends the call; one while it is held leads to its release; one
      during the release is logged and swallowed. */
  function Failed(s: State, w: Worker, effect: bool, id: RowId): (r: Option<State>) {
    match s.At(w)
    case Lookup => Some(s.Goto(w, Done(Threw)))
    case Acquire => Some(s.(lock := if effect && s.lock.None? then Some(w) else s.lock).Goto(w, Done(Threw)))
    case Waiting => Some(s.Goto(w, Done(Threw)))
    case Inserting =>
      if effect && s.rows == {} then Some(s.(rows := {id}, creator := Some(w)).Goto(w, Releasing(Threw)))
      else Some(s.Goto(w, Releasing(Threw)))
    case SavingSteps(_) => Some(s.Goto(w, Releasing(Threw)))
    case Executing(_) => Some(s.Goto(w, Releasing(Threw)))
    case Reading(_) => Some(s.Goto(w, Releasing(Threw)))
    case Releasing(o) => Some(s.Goto(w, Done(o)))
    case Deleting(o) => Some(s.Goto(w, Done(o)))
    case _ => None
  }

  /** The state after a whole interleaving. */
  function Run(actions: seq<Action>): (r: Option<State>) {
    if actions == [] then Some(Initial)
    else
      var before :- Run(actions[..|actions| - 1]);
      Apply(before, actions[|actions| - 1])
  }

  /** The row a call has in hand. */
  function RowOf(pc: Pc): (r: Option<RowId>) {
    match pc
    case SavingSteps(row) => Some(row)
    case Executing(row) => Some(row)
    case Reading(row) => Some(row)
    case Releasing(o) => if o.Returned? then Some(o.row) else None
    case Deleting(o) => if o.Returned? then Some(o.row) else None
    case Done(o) => if o.Returned? then Some(o.row) else None
    case _ => None
  }

  ghost predicate Inv(s: State) {
    && (s.rows == {} || exists id :: s.rows == {id})
    && (s.creator.None? <==> s.rows == {})
    && (forall w <- s.pcs :: RowOf(s.pcs[w]).Some? ==> RowOf(s.pcs[w]).value in s.rows)
    && (forall w <- s.pcs :: s.pcs[w].SavingSteps? ==> s.creator == Some(w) && s.entered == [])
    && |s.entered| <= 1
    && (s.entered != [] ==> s.creator == Some(s.entered[0]))
  }

  /** What an action does to the shared tables: nothing, insert the one row, or enter execution. */
  ghost predicate TablesMove(s: State, a: Action, t: State) {
    || (t.rows == s.rows && t.creator == s.creator && t.entered == s.entered)
    || (&& a.Insert? && s.rows == {} && t.rows == {a.id} && t.creator == Some(a.w) && t.entered == s.entered
        && t.At(a.w) == SavingSteps(a.id))
    || (&& a.Fail? && s.rows == {} && t.rows == {a.id} && t.creator == Some(a.w) && t.entered == s.entered
        && t.At(a.w) == Releasing(Threw))
    || (&& a.SaveSteps? && s.At(a.w).SavingSteps? && t.At(a.w).Executing?
        && t.rows == s.rows && t.creator == s.creator && t.entered == s.entered + [a.w])
  }

  lemma ActionMovesTables(s: State, a: Action)
    requires Apply(s, a).Some?
    ensures TablesMove(s, a, Apply(s, a).value)
  {
  }

  /** An action moves only its own worker, and the row it then has in hand it had before, found in the
      table or inserted. */
  lemma ActionMovesOne(s: State, a: Action, v: Worker)
    requires Apply(s, a).Some?
    ensures var t := Apply(s, a).value;
            if !a.Expire? && v == a.w then
              && (RowOf(t.At(v)).Some? ==> RowOf(t.At(v)) == RowOf(s.At(v)) || RowOf(t.At(v)).value in t.rows)
              && (t.At(v).SavingSteps? ==> a.Insert? && s.rows == {})
            else
              t.At(v) == s.At(v)
  {
  }

  lemma StepKeepsInv(s: State, a: Action)
    requires Inv(s) && Apply(s, a).Some?
    ensures Inv(Apply(s, a).value)
  {
    hide Apply;
    var t := Apply(s, a).value;
    ActionMovesTables(s, a);
    forall v | v in t.pcs
      ensures RowOf(t.pcs[v]).Some? ==> RowOf(t.pcs[v]).value in t.rows
      ensures t.pcs[v].SavingSteps? ==> t.creator == Some(v) && t.entered == []
    {
      ActionMovesOne(s, a, v);
    }
  }

  lemma {:induction false} RunKeepsInv(actions: seq<Action>)
    requires Run(actions).Some?
    ensures Inv(Run(actions).value)
  {
    if actions != [] {
      var init := actions[..|actions| - 1];
      RunKeepsInv(init);
      StepKeepsInv(Run(init).value, actions[|actions| - 1]);
    }
  }

  /** Under every interleaving, with leases expiring and workers crashing at any point: at most one
      row exists, executeWorkflow is entered at most once and only by the worker that inserted the
      row, and every call that returns a workflow returns that row. */
  lemma StartedAtMostOnce(actions: seq<Action>)
    requires Run(actions).Some?
    ensures var s := Run(actions).value;
            && |s.rows| <= 1
            && |s.entered| <= 1
            && (s.entered != [] ==> s.creator == Some(s.entered[0]))
            && forall w <- s.pcs :: s.pcs[w].Done? && s.pcs[w].outcome.Returned? ==> s.rows == {s.pcs[w].outcome.row}
  {
    RunKeepsInv(actions);
    var s := Run(actions).value;
    forall w | w in s.pcs && s.pcs[w].Done? && s.pcs[w].outcome.Returned?
      ensures s.rows == {s.pcs[w].outcome.row}
    {
      assert RowOf(s.pcs[w]) == Some(s.pcs[w].outcome.row);
    }
  }

  // ---------------------------------------------------------------------------------------
  // Leases that do not expire

  /** Between taking the lock and giving it back. */
  predicate Holds(pc: Pc) {
    pc.Inserting? || pc.SavingSteps? || pc.Executing? || pc.Reading? || pc.Releasing? || pc.Deleting?
  }

  ghost predicate Exclusive(s: State) {
    forall w <- s.pcs :: Holds(s.pcs[w]) ==> s.lock == Some(w)
  }

  lemma StepKeepsExclusive(s: State, a: Action)
    requires Exclusive(s) && !a.Expire? && Apply(s, a).Some?
    ensures Exclusive(Apply(s, a).value)
  {
  }

  lemma {:induction false} RunKeepsExclusive(actions: seq<Action>)
    requires Run(actions).Some? && Expire !in actions
    ensures Exclusive(Run(actions).value)
  {
    hide Apply, Exclusive;
    if actions == [] {
      NobodyHoldsInitially();
    } else {
      var init, last := actions[..|actions| - 1], actions[|actions| - 1];
      assert last in actions;
      RunKeepsExclusive(init);
      StepKeepsExclusive(Run(init).value, last);
    }
  }

  lemma NobodyHoldsInitially()
    ensures Exclusive(Initial)
  {
  }

  /** If no lease expires, at most one worker is between taking and releasing the lock, and a release
      deletes only the lock of the worker that performs it. */
  lemma LockIsExclusive(actions: seq<Action>, v: Worker, w: Worker)
    requires Run(actions).Some? && Expire !in actions
    ensures var s := Run(actions).value;
            && (Holds(s.At(v)) && Holds(s.At(w)) ==> v == w)
            && (Apply(s, Delete(w)).Some? ==> s.lock == Some(w))
  {
    RunKeepsExclusive(actions);
  }

  lemma RunSnoc(actions: seq<Action>, a: Action)
    requires Run(actions).Some?
    ensures Run(actions + [a]) == Apply(Run(actions).value, a)
  {
    assert (actions + [a])[..|actions|] == actions;
  }

  lemma EmptyRun()
    ensures Run([]) == Some(Initial)
  {
  }

  /** Worker 0 inserts the row while worker 1 has already looked. */
  lemma TwoWorkers() returns (actions: seq<Action>)
    ensures Run(actions) == Some(State({7}, Some(0), map[0 := SavingSteps(7), 1 := Acquire], Some(0), []))
    ensures Expire !in actions
  {
    hide Run;
    actions := [];
    EmptyRun();
    RunSnoc(actions, Find(0, None)); actions := actions + [Find(0, None)];
    RunSnoc(actions, Find(1, None)); actions := actions + [Find(1, None)];
    RunSnoc(actions, TryLock(0)); actions := actions + [TryLock(0)];
    RunSnoc(actions, Insert(0, 7)); actions := actions + [Insert(0, 7)];
    assert Run(actions).value.pcs == map[0 := SavingSteps(7), 1 := Acquire];
  }

  // ---------------------------------------------------------------------------------------
  // When a caller fails although the workflow exists

  /** How far a call has come; no action takes a call back. */
  function Stage(pc: Pc): (n: nat) {
    match pc
    case Lookup => 0
    case Acquire => 1
    case Waiting => 7
    case Inserting => 2
    case SavingSteps(_) => 3
    case Executing(_) => 4
    case Reading(_) => 5
    case Releasing(_) => 6
    case Deleting(_) => 7
    case Done(_) => 8
    case Crashed => 8
  }

  lemma StageGrows(s: State, a: Action, w: Worker)
    requires Apply(s, a).Some?
    ensures var t := Apply(s, a).value;
            t.At(w) == s.At(w) || Stage(s.At(w)) < Stage(t.At(w)) || (t.At(w).Crashed? && Stage(s.At(w)) == 8)
  {
  }

  lemma RunUnsnoc(actions: seq<Action>, more: seq<Action>)
    requires Run(actions + more).Some? && more != []
    ensures var init := actions + more[..|more| - 1];
            Run(init).Some? && Run(actions + more) == Apply(Run(init).value, more[|more| - 1])
  {
    assert (actions + more)[..|actions + more| - 1] == actions + more[..|more| - 1];
  }

  lemma {:induction false} StagesGrow(actions: seq<Action>, more: seq<Action>, w: Worker)
    requires Run(actions + more).Some?
    ensures Run(actions).Some?
    ensures Stage(Run(actions).value.At(w)) <= Stage(Run(actions + more).value.At(w))
    decreases |more|
  {
    hide Run, Apply;
    if more == [] {
      assert actions + more == actions;
    } else {
      RunUnsnoc(actions, more);
      StagesGrow(actions, more[..|more| - 1], w);
      StageGrows(Run(actions + more[..|more| - 1]).value, more[|more| - 1], w);
    }
  }

  /** A worker that has the lock and has not yet inserted sees the tables as they were when it took it. */
  lemma {:induction false} RowsFrozen(actions: seq<Action>, more: seq<Action>, w: Worker)
    requires Run(actions + more).Some? && Expire !in actions + more
    requires Run(actions).Some? && Run(actions).value.At(w).Inserting?
    requires Run(actions + more).value.At(w).Inserting?
    ensures Run(actions + more).value.rows == Run(actions).value.rows
    decreases |more|
  {
    hide Run, Apply, Exclusive;
    if more == [] {
      assert actions + more == actions;
    } else {
      var init, a := more[..|more| - 1], more[|more| - 1];
      assert Expire !in actions + init by {
        assert forall x :: x in actions + init ==> x in actions + more;
      }
      RunUnsnoc(actions, more);
      var s := Run(actions + init).value;
      StagesGrow(actions, init, w);
      StageGrows(s, a, w);
      RowsFrozen(actions, init, w);
      RunKeepsExclusive(actions + init);
      OnlyHolderInserts(s, a, w);
    }
  }

  lemma OnlyHolderInserts(s: State, a: Action, w: Worker)
    requires Exclusive(s) && Apply(s, a).Some? && s.At(w).Inserting? && Apply(s, a).value.At(w).Inserting?
    ensures Apply(s, a).value.rows == s.rows
  {
  }

  /** Without expiry, the insert of a worker fails on the unique key exactly when the row already existed
      when that worker took the lock, that is, when it appeared between its lookup and its lock. */
  lemma LateInsertThrowsIff(actions: seq<Action>, more: seq<Action>, w: Worker, id: RowId)
    requires Run(actions + [TryLock(w)] + more).Some? && Expire !in actions + [TryLock(w)] + more
    requires Run(actions + [TryLock(w)] + more).value.At(w).Inserting?
    ensures Run(actions).Some?
    ensures var t := Apply(Run(actions + [TryLock(w)] + more).value, Insert(w, id)).value;
            && (t.At(w) == Releasing(Threw) <==> Run(actions).value.rows != {})
            && (t.At(w) == SavingSteps(id) <==> Run(actions).value.rows == {})
  {
    hide Run, Exclusive;
    var locked := actions + [TryLock(w)];
    StagesGrow(locked, more, w);
    StagesGrow(actions, [TryLock(w)], w);
    RunSnoc(actions, TryLock(w));
    RowsFrozen(locked, more, w);
  }

  /** It does happen: a caller that looked before the row was inserted and takes the lock after it was
      released fails on the unique key, although the workflow exists and no lease expired. */
  lemma LateCallerThrows() returns (actions: seq<Action>)
    ensures Run(actions).Some? && Expire !in actions
    ensures var s := Run(actions).value;
            s.rows == {7} && s.At(0) == Done(Returned(7)) && s.At(1) == Done(Threw)
  {
    hide Run;
    actions := TwoWorkers();
    var first := FirstCaller(actions);
    var rest := LateCaller(actions + first);
    actions := actions + first + rest;
  }

  lemma FirstCaller(actions: seq<Action>) returns (rest: seq<Action>)
    requires Run(actions) == Some(State({7}, Some(0), map[0 := SavingSteps(7), 1 := Acquire], Some(0), []))
    ensures Expire !in rest && Run(actions + rest).Some?
    ensures var t := Run(actions + rest).value;
            t.rows == {7} && t.lock == None && t.At(0) == Done(Returned(7)) && t.At(1) == Acquire
  {
    hide Run;
    rest := [SaveSteps(0), Execute(0, true), ReadBack(0), GetToken(0), Delete(0)];
    var a1 := actions + [SaveSteps(0)];
    RunSnoc(actions, SaveSteps(0));
    var a2 := a1 + [Execute(0, true)];
    RunSnoc(a1, Execute(0, true));
    var a3 := a2 + [ReadBack(0)];
    RunSnoc(a2, ReadBack(0));
    var a4 := a3 + [GetToken(0)];
    RunSnoc(a3, GetToken(0));
    RunSnoc(a4, Delete(0));
    assert actions + rest == a4 + [Delete(0)];
  }

  lemma LateCaller(actions: seq<Action>) returns (rest: seq<Action>)
    requires Run(actions).Some? && Run(actions).value.lock == None && Run(actions).value.At(1) == Acquire
    requires Run(actions).value.rows != {}
    ensures Expire !in rest && Run(actions + rest).Some?
    ensures var s, t := Run(actions).value, Run(actions + rest).value;
            t.rows == s.rows && t.At(0) == s.At(0) && t.At(1) == Done(Threw)
  {
    hide Run;
    rest := [TryLock(1), Insert(1, 8), GetToken(1), Delete(1)];
    var a1 := actions + [TryLock(1)];
    RunSnoc(actions, TryLock(1));
    var a2 := a1 + [Insert(1, 8)];
    RunSnoc(a1, Insert(1, 8));
    var a3 := a2 + [GetToken(1)];
    RunSnoc(a2, GetToken(1));
    RunSnoc(a3, Delete(1));
    assert actions + rest == a3 + [Delete(1)];
  }

  // ---------------------------------------------------------------------------------------
  // When a release frees another worker's lock

  /** The lock was freed at some point of `more`. */
  ghost predicate FreedIn(more: seq<Action>) {
    exists i :: 0 <= i < |more| && (more[i].Expire? || more[i].Delete?)
  }

  /** From reading its own token until its delete, a worker owns the lock exactly as long as no lease
      expired and no other worker deleted the key. An expiry since its own reading is not the only
      danger: the overdue delete of a worker whose lease ran out earlier frees the lock as well. */
  lemma {:induction false} OwnsLockIff(actions: seq<Action>, more: seq<Action>, w: Worker)
    requires Run(actions).Some? && Run(actions).value.At(w).Deleting? && Run(actions).value.lock == Some(w)
    requires Run(actions + more).Some? && Run(actions + more).value.At(w).Deleting?
    ensures Run(actions + more).value.lock == Some(w) <==> !FreedIn(more)
    decreases |more|
  {
    hide Run, Apply;
    if more == [] {
      assert actions + more == actions;
    } else {
      var init, a := more[..|more| - 1], more[|more| - 1];
      RunUnsnoc(actions, more);
      var s := Run(actions + init).value;
      StagesGrow(actions, init, w);
      StageGrows(s, a, w);
      OwnsLockIff(actions, init, w);
      LockStep(s, a, w);
      assert FreedIn(more) <==> FreedIn(init) || a.Expire? || a.Delete? by {
        if FreedIn(init) {
          var i :| 0 <= i < |init| && (init[i].Expire? || init[i].Delete?);
          assert more[i] == init[i];
        }
        if FreedIn(more) {
          var i :| 0 <= i < |more| && (more[i].Expire? || more[i].Delete?);
          if i < |init| {
            assert init[i] == more[i];
          }
        }
        if a.Expire? || a.Delete? {
          assert more[|more| - 1] == a;
        }
      }
    }
  }

  lemma LockStep(s: State, a: Action, w: Worker)
    requires Apply(s, a).Some? && s.At(w).Deleting? && Apply(s, a).value.At(w).Deleting?
    ensures Apply(s, a).value.lock == Some(w) <==> s.lock == Some(w) && !a.Expire? && !a.Delete?
  {
  }

  /** The delete of a worker removes its own lock, and no other worker's, exactly when nobody freed the
      lock since the worker read its token. */
  lemma DeletesOwnLockIff(actions: seq<Action>, more: seq<Action>, w: Worker)
    requires Run(actions + [GetToken(w)] + more).Some?
    requires Run(actions + [GetToken(w)] + more).value.At(w).Deleting?
    ensures Run(actions + [GetToken(w)] + more).value.lock == Some(w) <==> !FreedIn(more)
  {
    hide Run;
    var token := actions + [GetToken(w)];
    StagesGrow(token, more, w);
    StagesGrow(actions, [GetToken(w)], w);
    RunSnoc(actions, GetToken(w));
    OwnsLockIff(token, more, w);
  }

  /** It does happen: a lease that expires between reading the token and deleting the key lets a release
      free the lock of another worker. */
  lemma ExpiryFreesAnotherLock() returns (actions: seq<Action>)
    ensures Run(actions).Some?
    ensures var s := Run(actions).value;
            && s.At(1).Inserting? && s.rows != {} && Holds(s.At(1)) && s.lock == Some(1)
            && Apply(s, Delete(0)).Some? && Apply(s, Delete(0)).value.lock == None
            && Holds(Apply(s, Delete(0)).value.At(1))
  {
    hide Run;
    actions := TwoWorkers();
    RunSnoc(actions, Fail(0, false, 0)); actions := actions + [Fail(0, false, 0)];
    RunSnoc(actions, GetToken(0)); actions := actions + [GetToken(0)];
    RunSnoc(actions, Expire); actions := actions + [Expire];
    RunSnoc(actions, TryLock(1)); actions := actions + [TryLock(1)];
  }

  /** An expiry since the token was read is not needed: worker 1 reads its own token, no lease expires
      afterwards, and the overdue delete of worker 0 frees its lock. */
  lemma StaleDeleteFreesLock() returns (actions: seq<Action>)
    ensures Run(actions + [GetToken(1), Delete(0)]).Some?
    ensures var s := Run(actions + [GetToken(1), Delete(0)]).value;
            s.At(1).Deleting? && s.lock == None
  {
    hide Run;
    var before := ExpiryFreesAnotherLock();
    actions := before + [Insert(1, 8)];
    RunSnoc(before, Insert(1, 8));
    RunSnoc(actions, GetToken(1));
    RunSnoc(actions + [GetToken(1)], Delete(0));
    assert actions + [GetToken(1)] + [Delete(0)] == actions + [GetToken(1), Delete(0)];
  }

  // ---------------------------------------------------------------------------------------
  // How a call ends

  /** The outcome a call is bound to have, once it is decided. */
  function OutcomeOf(pc: Pc): (r: Option<Outcome>) {
    match pc
    case Releasing(o) => Some(o)
    case Deleting(o) => Some(o)
    case Done(o) => Some(o)
    case _ => None
  }

  /** The action decides its worker's outcome: it found the row, or executed and read it back; or it gave
      up, failed, saw the execution throw, or inserted over an existing row. */
  ghost predicate Decides(s: State, a: Action, w: Worker, o: Outcome) {
    match o
    case Returned(row) =>
      a == Find(w, Some(row)) || a == Poll(w, Some(row)) || (a == ReadBack(w) && s.At(w) == Reading(row))
    case Threw =>
      || a == GiveUp(w) || (a.Fail? && a.w == w) || a == Execute(w, false)
      || (a.Insert? && a.w == w && s.rows != {})
  }

  /** An outcome is decided by one of these actions and then stays, unless the worker crashes; and each of
      these actions decides it, except a failure during the release, which comes too late. */
  lemma OutcomeDecided(s: State, a: Action, w: Worker)
    requires Apply(s, a).Some?
    ensures var t := Apply(s, a).value;
            if OutcomeOf(s.At(w)).Some? || s.At(w).Crashed? then
              t.At(w).Crashed? || OutcomeOf(t.At(w)) == OutcomeOf(s.At(w))
            else if a == Crash(w) then t.At(w).Crashed?
            else OutcomeOf(t.At(w)).Some? <==> exists o :: Decides(s, a, w, o)
    ensures OutcomeOf(s.At(w)).None? && OutcomeOf(Apply(s, a).value.At(w)).Some? ==>
              Decides(s, a, w, OutcomeOf(Apply(s, a).value.At(w)).value)
  {
    var t := Apply(s, a).value;
    if OutcomeOf(t.At(w)).Some? && OutcomeOf(s.At(w)).None? {
      assert Decides(s, a, w, OutcomeOf(t.At(w)).value);
    }
  }

  /** A caller whose execution threw throws, or crashes; it never returns a workflow. */
  lemma {:induction false} FailedExecutionThrows(actions: seq<Action>, w: Worker)
    requires Run(actions).Some? && Execute(w, false) in actions
    ensures var pc := Run(actions).value.At(w); pc.Crashed? || OutcomeOf(pc) == Some(Threw)
  {
    hide Apply, Decides;
    var init, last := actions[..|actions| - 1], actions[|actions| - 1];
    var s := Run(init).value;
    if Execute(w, false) in init {
      FailedExecutionThrows(init, w);
      OutcomeDecided(s, last, w);
      if s.At(w).Crashed? {
        CrashedStays(s, last, w);
      }
    } else {
      assert last == Execute(w, false);
      ExecuteFails(s, w);
    }
  }

  lemma CrashedStays(s: State, a: Action, w: Worker)
    requires Apply(s, a).Some? && s.At(w).Crashed?
    ensures Apply(s, a).value.At(w).Crashed?
  {
  }

  lemma ExecuteFails(s: State, w: Worker)
    requires Apply(s, Execute(w, false)).Some?
    ensures OutcomeOf(Apply(s, Execute(w, false)).value.At(w)) == Some(Threw)
  {
  }

  /** Every returned workflow was found by its caller or executed by it: the caller's own execution
      returned, and the caller inserted the row. */
  lemma {:induction false} ReturnedHow(actions: seq<Action>, w: Worker, row: RowId)
    requires Run(actions).Some? && OutcomeOf(Run(actions).value.At(w)) == Some(Returned(row))
    ensures Find(w, Some(row)) in actions || Poll(w, Some(row)) in actions || Execute(w, true) in actions
  {
    hide Apply;
    var init, last := actions[..|actions| - 1], actions[|actions| - 1];
    var s := Run(init).value;
    OutcomeDecided(s, last, w);
    if OutcomeOf(s.At(w)).Some? || s.At(w).Crashed? {
      if s.At(w).Crashed? {
        CrashedStays(s, last, w);
      } else {
        ReturnedHow(init, w, row);
      }
    } else if last == ReadBack(w) {
      ReadingHow(init, w);
    }
  }

  lemma {:induction false} ReadingHow(actions: seq<Action>, w: Worker)
    requires Run(actions).Some? && Run(actions).value.At(w).Reading?
    ensures Execute(w, true) in actions
  {
    hide Apply;
    var init, last := actions[..|actions| - 1], actions[|actions| - 1];
    var s := Run(init).value;
    ReadingStep(s, last, w);
    if last != Execute(w, true) {
      ReadingHow(init, w);
    }
  }

  lemma ReadingStep(s: State, a: Action, w: Worker)
    requires Apply(s, a).Some? && Apply(s, a).value.At(w).Reading?
    ensures a == Execute(w, true) || s.At(w).Reading?
  {
  }

  /** Taking or releasing the lock ended in an error. */
  ghost predicate Abandons(s: State, a: Action, w: Worker) {
    a.Fail? && a.w == w && (s.At(w).Acquire? || s.At(w).Releasing? || s.At(w).Deleting?)
  }

  ghost predicate LeftBehind(s: State, w: Worker) {
    s.lock == Some(w) && !Holds(s.At(w)) && !s.At(w).Crashed?
  }

  lemma LeavesLock(s: State, a: Action, w: Worker)
    requires Apply(s, a).Some? && LeftBehind(Apply(s, a).value, w)
    ensures LeftBehind(s, w) || Abandons(s, a, w)
  {
  }

  /** A call that is over leaves its lock behind only if it crashed or if taking or releasing the lock itself
      ended in an error; an error of any other operation leads to the release. */
  lemma {:induction false} LockReleased(actions: seq<Action>, w: Worker)
    requires Run(actions).Some? && LeftBehind(Run(actions).value, w)
    ensures exists i :: && 0 <= i < |actions| && Run(actions[..i]).Some?
                        && Abandons(Run(actions[..i]).value, actions[i], w)
  {
    hide Apply, Abandons, LeftBehind;
    if actions == [] {
      NothingLeftInitially(w);
      assert false;
    }
    var n := |actions| - 1;
    var init, last := actions[..n], actions[n];
    LeavesLock(Run(init).value, last, w);
    if LeftBehind(Run(init).value, w) {
      LockReleased(init, w);
      var i :| 0 <= i < |init| && Run(init[..i]).Some? && Abandons(Run(init[..i]).value, init[i], w);
      assert init[..i] == actions[..i] && init[i] == actions[i];
    } else {
      assert actions[..n] == init;
    }
  }

  lemma NothingLeftInitially(w: Worker)
    ensures !LeftBehind(Initial, w)
  {
  }
}
