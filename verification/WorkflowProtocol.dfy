/** Many workers on one ledger: what holds over every interleaving, stall and crash
    (src/workflow.rs driving src/workflow_run.rs). */
module WorkflowProtocol {
  import opened Wrappers
  import opened WorkflowLedger

  /** An activity of a run: one period, or the single step of a run without one. */
  type Activity = Option<int>

  /** What a worker is doing with its run:
      the row is inserted; the lease is granted and the operation runs; the lease was
      refused; the answer about it was lost; the heartbeat has stopped the operation; its own
      finish call has returned; the lease is given back; or the process is gone, after its
      finish call had returned or before. */
  datatype Phase = Starting | Working | Refused | LockLost | Dropped | Finished | Released | GoneFinished | Crashed

  /** `open` holds the activities under way and the step each of them is in. */
  datatype Worker = Worker(phase: Phase, open: map<Activity, Option<StepId>>)

  /** `granted` notes when each run's lease was last granted or renewed. */
  datatype Sys = Sys(db: Db, workers: map<RunId, Worker>, granted: map<RunId, int>)

  datatype Action =
    | Tick(seconds: nat)
    | Start
    | Acquire(run: RunId, answer: Answer)
    | RefuseRun(run: RunId)
    | Heartbeat(run: RunId, answer: Answer)
    | BeginActivity(run: RunId, activity: Activity)
    | BeginStep(run: RunId, activity: Activity, name: string, id: StepId)
    | EndStep(run: RunId, activity: Activity, status: StepStatus)
    | EndActivity(run: RunId, activity: Activity)
    | TimeOut(run: RunId, period: int)
    | FinishOk(run: RunId, outcome: RunStatus)
    | FinishErr(run: RunId)
    | Release(run: RunId)
    | Crash(run: RunId)
    | Reconcile(minimumAge: int)

  predicate In(sys: Sys, run: RunId, phase: Phase) {
    run in sys.workers && sys.workers[run].phase == phase
  }

  predicate IsGone(phase: Phase) {
    phase.GoneFinished? || phase.Crashed?
  }

  predicate IsOpen(sys: Sys, run: RunId, activity: Activity) {
    In(sys, run, Working) && activity in sys.workers[run].open
  }

  function SetPhase(sys: Sys, run: RunId, phase: Phase): Sys
    requires run in sys.workers
  {
    sys.(workers := sys.workers[run := sys.workers[run].(phase := phase)])
  }

  function SetOpen(sys: Sys, run: RunId, activity: Activity, step: Option<StepId>): Sys
    requires run in sys.workers
  {
    sys.(workers := sys.workers[run := sys.workers[run].(open := sys.workers[run].open[activity := step])])
  }

  function Closed(sys: Sys, run: RunId, activity: Activity): Sys
    requires run in sys.workers
  {
    sys.(workers := sys.workers[run := sys.workers[run].(open := sys.workers[run].open - {activity})])
  }

  /** When an action can be taken. */
  ghost predicate Enabled(sys: Sys, a: Action) {
    match a
    case Tick(_) => true
    case Start => true
    case Acquire(run, _) => In(sys, run, Starting)
    case RefuseRun(run) => In(sys, run, Refused) || In(sys, run, LockLost)
    case Heartbeat(run, _) => In(sys, run, Working)
    case BeginActivity(run, activity) => In(sys, run, Working) && activity !in sys.workers[run].open
    case BeginStep(run, activity, name, id) =>
      IsOpen(sys, run, activity) && sys.workers[run].open[activity].None?
      && (if exists old_ :: IsConflict(sys.db, old_, run, activity, name)
          then IsConflict(sys.db, id, run, activity, name) else id == sys.db.nextStep)
    case EndStep(run, activity, status) =>
      IsOpen(sys, run, activity) && sys.workers[run].open[activity].Some? && !status.StepRunning?
    case EndActivity(run, activity) => IsOpen(sys, run, activity) && sys.workers[run].open[activity].None?
    case TimeOut(run, period) => IsOpen(sys, run, Some(period))
    case FinishOk(run, outcome) => In(sys, run, Working) && sys.workers[run].open == map[] && !outcome.Running?
    case FinishErr(run) => In(sys, run, Working) || In(sys, run, Dropped)
    case Release(run) => In(sys, run, Finished)
    case Crash(run) => run in sys.workers && !sys.workers[run].phase.Released? && !IsGone(sys.workers[run].phase)
    case Reconcile(_) => true
  }

  /** The statement that asks for the lease, and what its worker makes of the answer. A
      grant counts even if its answer is lost; a statement that fails before it commits
      changes nothing. */
  function AfterAcquire(sys: Sys, run: RunId, answer: Answer): Sys
    requires run in sys.workers
  {
    var (db, acquired) := if answer.LostBeforeCommit? then (sys.db, false) else Acquired(sys.db, run);
    var taken := if acquired then sys.(db := db, granted := sys.granted[run := sys.db.now]) else sys;
    SetPhase(taken, run, if !answer.Answered? then LockLost else if acquired then Working else Refused)
  }

  /** The same for a heartbeat and its renewal. */
  function AfterHeartbeat(sys: Sys, run: RunId, answer: Answer): Sys
    requires run in sys.workers
  {
    var (db, alive) := if answer.LostBeforeCommit? then (sys.db, false) else Beaten(sys.db, run);
    var renewed := !answer.LostBeforeCommit? && sys.db.lease.holder == Some(run);
    var beaten := sys.(db := db, granted := if renewed then sys.granted[run := sys.db.now] else sys.granted);
    if alive && answer.Answered? then beaten else SetPhase(beaten, run, Dropped)
  }

  /** The status with which a worker closes a run that it has not begun. */
  function RefusalStatus(phase: Phase): RunStatus {
    if phase.LockLost? then Failed else Blocked
  }

  /** What an action does. */
  function Apply(sys: Sys, a: Action): Sys
    requires Enabled(sys, a)
  {
    match a
    case Tick(seconds) => sys.(db := sys.db.(now := sys.db.now + seconds))
    case Start =>
      var (db, run) := RunStarted(sys.db);
      sys.(db := db, workers := sys.workers[run := Worker(Starting, map[])])
    case Acquire(run, answer) => AfterAcquire(sys, run, answer)
    case RefuseRun(run) =>
      SetPhase(sys.(db := RunFailed(sys.db, run, RefusalStatus(sys.workers[run].phase))), run, Released)
    case Heartbeat(run, answer) => AfterHeartbeat(sys, run, answer)
    case BeginActivity(run, activity) => SetOpen(sys, run, activity, None)
    case BeginStep(run, activity, name, id) =>
      var steps := sys.db.steps[id := StepRow(run, activity, name, StepRunning)];
      var nextStep := if id == sys.db.nextStep then id + 1 else sys.db.nextStep;
      SetOpen(sys.(db := sys.db.(steps := steps, nextStep := nextStep)), run, activity, Some(id))
    case EndStep(run, activity, status) =>
      var id := sys.workers[run].open[activity].value;
      SetOpen(sys.(db := StepFinished(sys.db, id, status)), run, activity, None)
    case EndActivity(run, activity) => Closed(sys, run, activity)
    case TimeOut(run, period) => Closed(sys.(db := ActivityStepsFailed(sys.db, run, period)), run, Some(period))
    case FinishOk(run, outcome) => SetPhase(sys.(db := RunFinished(sys.db, run, outcome)), run, Finished)
    case FinishErr(run) => SetPhase(sys.(db := RunFailed(sys.db, run, Failed)), run, Finished)
    case Release(run) => SetPhase(sys.(db := LeaseReleased(sys.db, run), granted := sys.granted - {run}), run, Released)
    case Crash(run) => SetPhase(sys, run, if sys.workers[run].phase.Finished? then GoneFinished else Crashed)
    case Reconcile(minimumAge) => sys.(db := Reconciled(sys.db, minimumAge))
  }

  ghost predicate Initial(sys: Sys) {
    && sys.workers == map[] && sys.granted == map[]
    && sys.db.runs == map[] && sys.db.steps == map[]
    && sys.db.lease.holder.None? && sys.db.lease.until <= sys.db.now
  }

  /** A history: each state follows from the one before by an action that was
      possible there. */
  ghost predicate IsHistory(states: seq<Sys>, actions: seq<Action>) {
    && |states| == |actions| + 1
    && Initial(states[0])
    && forall k :: 0 <= k < |actions| ==>
       Enabled(states[k], actions[k]) && states[k + 1] == Apply(states[k], actions[k])
  }

  // ----------------------------------------------------------------------- invariants

  /** A grant that has not run out and was not given back is the lease row. */
  ghost predicate GrantsHold(sys: Sys) {
    forall r :: r in sys.granted && sys.db.now < sys.granted[r] + LEASE_SECONDS ==>
      sys.db.lease == Lease(Some(r), sys.granted[r] + LEASE_SECONDS)
  }

  /** Workers and ledger rows belong together; row ids are below the counters. */
  ghost predicate Consistent(sys: Sys) {
    && (forall r :: r in sys.workers <==> r in sys.db.runs)
    && (forall r :: r in sys.db.runs ==> r < sys.db.nextRun)
    && (forall r :: r in sys.granted ==> r in sys.workers)
    && (forall s :: s in sys.db.steps ==> s < sys.db.nextStep)
  }

  /** A step still running belongs to an activity of a live worker that is in it, or
      to a worker that has been stopped or is gone. */
  ghost predicate StepsAccounted(sys: Sys) {
    forall s :: s in sys.db.steps && sys.db.steps[s].status.StepRunning? ==> Accounted(sys, s)
  }

  ghost predicate Accounted(sys: Sys, s: StepId)
    requires s in sys.db.steps
  {
    var row := sys.db.steps[s];
    && row.run in sys.workers
    && var w := sys.workers[row.run];
    || w.phase.Dropped? || w.phase.Crashed?
    || (w.phase.Working? && row.period in w.open && w.open[row.period] == Some(s))
  }

  ghost predicate Inv(sys: Sys) {
    GrantsHold(sys) && Consistent(sys) && StepsAccounted(sys)
  }

  /** A step begins in the ledger as `start_step` does it. */
  lemma BeginStepStartsStep(sys: Sys, a: Action)
    requires a.BeginStep? && Enabled(sys, a) && Consistent(sys)
    ensures StepStarted(sys.db, a.run, a.activity, a.name, Apply(sys, a).db, a.id)
  {
    if exists old_ :: IsConflict(sys.db, old_, a.run, a.activity, a.name) {
      assert IsConflict(sys.db, a.id, a.run, a.activity, a.name);
    }
  }

  // Each invariant is kept, shown for one group of actions at a time.

  /** Time passes, or the lease row is asked for. */
  predicate TouchesLease(a: Action) {
    a.Tick? || a.Acquire? || a.Heartbeat? || a.Release?
  }

  lemma GrantsHoldKept(sys: Sys, a: Action)
    requires Consistent(sys) && GrantsHold(sys) && Enabled(sys, a)
    ensures GrantsHold(Apply(sys, a))
  {
    if TouchesLease(a) {
      LeaseActionKeepsGrants(sys, a);
    } else {
      OtherActionKeepsGrants(sys, a);
    }
  }

  lemma LeaseActionKeepsGrants(sys: Sys, a: Action)
    requires Consistent(sys) && GrantsHold(sys) && Enabled(sys, a) && TouchesLease(a)
    ensures GrantsHold(Apply(sys, a))
  {
  }

  lemma OtherActionKeepsGrants(sys: Sys, a: Action)
    requires Consistent(sys) && GrantsHold(sys) && Enabled(sys, a) && !TouchesLease(a)
    ensures GrantsHold(Apply(sys, a))
  {
  }

  predicate TouchesSteps(a: Action) {
    a.BeginStep? || a.EndStep? || a.TimeOut?
  }

  predicate FailsSteps(a: Action) {
    a.RefuseRun? || a.FinishErr? || a.Reconcile?
  }

  lemma {:induction false} ConsistentKept(sys: Sys, a: Action)
    requires Consistent(sys) && Enabled(sys, a)
    ensures Consistent(Apply(sys, a))
  {
    hide Apply, Enabled, Consistent;
    if TouchesLease(a) {
      LeaseActionKeepsConsistent(sys, a);
    } else if TouchesSteps(a) {
      StepActionKeepsConsistent(sys, a);
    } else if FailsSteps(a) {
      FailingActionKeepsConsistent(sys, a);
    } else {
      OtherActionKeepsConsistent(sys, a);
    }
  }

  lemma LeaseActionKeepsConsistent(sys: Sys, a: Action)
    requires Consistent(sys) && Enabled(sys, a) && TouchesLease(a)
    ensures Consistent(Apply(sys, a))
  {
  }

  lemma StepActionKeepsConsistent(sys: Sys, a: Action)
    requires Consistent(sys) && Enabled(sys, a) && TouchesSteps(a)
    ensures Consistent(Apply(sys, a))
  {
  }

  lemma FailingActionKeepsConsistent(sys: Sys, a: Action)
    requires Consistent(sys) && Enabled(sys, a) && FailsSteps(a)
    ensures Consistent(Apply(sys, a))
  {
    if a.Reconcile? { ReconciledExactly(sys.db, a.minimumAge); }
  }

  lemma OtherActionKeepsConsistent(sys: Sys, a: Action)
    requires Consistent(sys) && Enabled(sys, a) && !TouchesLease(a) && !TouchesSteps(a) && !FailsSteps(a)
    ensures Consistent(Apply(sys, a))
  {
  }

  /** Steps that a worker may leave running: what it is in now, it is in afterwards, unless
      it is stopped or gone then. */
  ghost predicate KeepsAccount(w: Worker, w': Worker) {
    || w' == w || w'.phase.Dropped? || w'.phase.Crashed?
    || !(w.phase.Working? || w.phase.Dropped? || w.phase.Crashed?)
    || (w.phase.Working? && w'.phase.Working?
        && forall x :: x in w.open && w.open[x].Some? ==> x in w'.open && w'.open[x] == w.open[x])
    || (w.phase.Working? && w.open == map[])
  }

  ghost predicate WorkersKeepAccount(sys: Sys, after: Sys) {
    forall r :: r in sys.workers ==> r in after.workers && KeepsAccount(sys.workers[r], after.workers[r])
  }

  /** If the steps are the same and the workers keep account, the steps stay accounted
      for. */
  lemma SameStepsAccounted(sys: Sys, after: Sys)
    requires StepsAccounted(sys) && after.db.steps == sys.db.steps && WorkersKeepAccount(sys, after)
    ensures StepsAccounted(after)
  {
    forall s | s in after.db.steps && after.db.steps[s].status.StepRunning? ensures Accounted(after, s) {
      assert Accounted(sys, s);
      assert KeepsAccount(sys.workers[sys.db.steps[s].run], after.workers[sys.db.steps[s].run]);
    }
  }

  lemma {:induction false} StepsAccountedKept(sys: Sys, a: Action)
    requires Consistent(sys) && StepsAccounted(sys) && Enabled(sys, a)
    ensures StepsAccounted(Apply(sys, a))
  {
    hide Apply, Enabled, Consistent, StepsAccounted;
    if TouchesLease(a) {
      LeaseActionKeepsAccount(sys, a);
      SameStepsAccounted(sys, Apply(sys, a));
    } else if a.BeginStep? {
      BeginStepAccounted(sys, a);
    } else if a.EndStep? {
      EndStepAccounted(sys, a);
    } else if a.TimeOut? {
      TimeOutAccounted(sys, a);
    } else if a.Reconcile? {
      ReconcileAccounted(sys, a);
    } else if FailsSteps(a) {
      FailedRunAccounted(sys, a);
    } else {
      OtherActionKeepsAccount(sys, a);
      SameStepsAccounted(sys, Apply(sys, a));
    }
  }

  lemma LeaseActionKeepsAccount(sys: Sys, a: Action)
    requires Enabled(sys, a) && TouchesLease(a)
    ensures Apply(sys, a).db.steps == sys.db.steps && WorkersKeepAccount(sys, Apply(sys, a))
  {
  }

  lemma OtherActionKeepsAccount(sys: Sys, a: Action)
    requires Consistent(sys) && Enabled(sys, a) && !TouchesLease(a) && !TouchesSteps(a) && !FailsSteps(a)
    ensures Apply(sys, a).db.steps == sys.db.steps && WorkersKeepAccount(sys, Apply(sys, a))
  {
  }

  lemma BeginStepAccounted(sys: Sys, a: Action)
    requires StepsAccounted(sys) && Enabled(sys, a) && a.BeginStep?
    ensures StepsAccounted(Apply(sys, a))
  {
    var after := Apply(sys, a);
    forall s | s in after.db.steps && after.db.steps[s].status.StepRunning? ensures Accounted(after, s) {
      if s != a.id { assert Accounted(sys, s); }
    }
  }

  lemma EndStepAccounted(sys: Sys, a: Action)
    requires StepsAccounted(sys) && Enabled(sys, a) && a.EndStep?
    ensures StepsAccounted(Apply(sys, a))
  {
    var after := Apply(sys, a);
    forall s | s in after.db.steps && after.db.steps[s].status.StepRunning? ensures Accounted(after, s) {
      assert Accounted(sys, s);
    }
  }

  lemma TimeOutAccounted(sys: Sys, a: Action)
    requires StepsAccounted(sys) && Enabled(sys, a) && a.TimeOut?
    ensures StepsAccounted(Apply(sys, a))
  {
    var after := Apply(sys, a);
    forall s | s in after.db.steps && after.db.steps[s].status.StepRunning? ensures Accounted(after, s) {
      assert Accounted(sys, s);
    }
  }

  lemma FailedRunAccounted(sys: Sys, a: Action)
    requires StepsAccounted(sys) && Enabled(sys, a) && (a.RefuseRun? || a.FinishErr?)
    ensures StepsAccounted(Apply(sys, a))
  {
    var after := Apply(sys, a);
    forall s | s in after.db.steps && after.db.steps[s].status.StepRunning? ensures Accounted(after, s) {
      assert Accounted(sys, s);
    }
  }

  lemma ReconcileAccounted(sys: Sys, a: Action)
    requires StepsAccounted(sys) && a.Reconcile? && Enabled(sys, a)
    ensures StepsAccounted(Apply(sys, a))
  {
    var after := Apply(sys, a);
    ReconciledExactly(sys.db, a.minimumAge);
    forall s | s in after.db.steps && after.db.steps[s].status.StepRunning? ensures Accounted(after, s) {
      assert Accounted(sys, s);
    }
  }

  lemma {:induction false} InvAlways(states: seq<Sys>, actions: seq<Action>, k: nat)
    requires IsHistory(states, actions) && k < |states|
    ensures Inv(states[k])
  {
    hide Apply, Enabled, GrantsHold, Consistent, StepsAccounted;
    if k == 0 {
      InitialInv(states[0]);
    } else {
      InvAlways(states, actions, k - 1);
      assert states[k - 1 + 1] == Apply(states[k - 1], actions[k - 1]);
      GrantsHoldKept(states[k - 1], actions[k - 1]);
      ConsistentKept(states[k - 1], actions[k - 1]);
      StepsAccountedKept(states[k - 1], actions[k - 1]);
    }
  }

  lemma InitialInv(sys: Sys)
    requires Initial(sys)
    ensures Inv(sys)
  {
  }

  // --------------------------------------------------------------------- main results

  /** The run's last grant or renewal is less than the lease time ago and was not
      given back. */
  predicate InWindow(sys: Sys, run: RunId) {
    run in sys.granted && sys.db.now < sys.granted[run] + LEASE_SECONDS
  }

  /** Lease exclusion: whatever the interleaving, whoever stalls or crashes, a run in
      its window holds the lease row, and no two runs are in their windows at once. */
  lemma {:induction false} LeaseExclusion(states: seq<Sys>, actions: seq<Action>, k: nat, a: RunId, b: RunId)
    requires IsHistory(states, actions) && k < |states|
    requires InWindow(states[k], a)
    ensures HoldsLiveLease(states[k].db, a)
    ensures InWindow(states[k], b) ==> a == b
  {
    hide Apply, Enabled, Consistent, StepsAccounted;
    InvAlways(states, actions, k);
  }

  /** The lease time counts from the last beat: a worker that was told to go on less
      than the lease time ago is in its window. */
  lemma {:induction false} BeatOpensWindow(states: seq<Sys>, actions: seq<Action>, k: nat, run: RunId)
    requires IsHistory(states, actions) && k < |actions|
    requires actions[k] == Heartbeat(run, Answered) && In(states[k + 1], run, Working)
    ensures states[k].db.lease.holder == Some(run) && InWindow(states[k + 1], run)
    ensures states[k + 1].db.runs[run] == RunRow(Running, states[k].db.now)
  {
    hide GrantsHold, StepsAccounted;
    InvAlways(states, actions, k);
    assert Enabled(states[k], actions[k]) && states[k + 1] == Apply(states[k], actions[k]);
  }

  /** When a worker's own finish call has returned, none of its run's steps is still
      running, whatever became of its activities, and even if the worker goes before it
      gives the lease back. */
  lemma {:induction false} FinishedRunHasNoRunningStep(states: seq<Sys>, actions: seq<Action>, k: nat, run: RunId,
      s: StepId)
    requires IsHistory(states, actions) && k < |states|
    requires In(states[k], run, Finished) || In(states[k], run, Released) || In(states[k], run, GoneFinished)
    requires s in states[k].db.steps && states[k].db.steps[s].run == run
    ensures !states[k].db.steps[s].status.StepRunning?
  {
    hide Apply, Enabled, GrantsHold;
    InvAlways(states, actions, k);
  }

  predicate StillRunning(sys: Sys, run: RunId) {
    run in sys.db.runs && sys.db.runs[run].status.Running?
  }

  /** The ways in which a run stops running. */
  predicate Closes(sys: Sys, a: Action, run: RunId) {
    FinishesRun(a, run) || (a.Reconcile? && IsOrphan(sys.db, a.minimumAge, run))
  }

  /** What an action leaves of the row of a run. */
  ghost function RowAfter(sys: Sys, a: Action, run: RunId): RunRow
    requires run in sys.db.runs && run in sys.workers
  {
    var row := sys.db.runs[run];
    if FinishesRun(a, run) then row.(status := FinishStatus(sys, a, run))
    else if a.Reconcile? && IsOrphan(sys.db, a.minimumAge, run) then row.(status := Failed)
    else if Beats(sys, a, run) then row.(heartbeatAt := sys.db.now)
    else row
  }

  lemma {:induction false} RunRowStep(sys: Sys, a: Action, run: RunId)
    requires Consistent(sys) && Enabled(sys, a) && run in sys.db.runs
    ensures run in sys.workers && run in Apply(sys, a).db.runs && Apply(sys, a).db.runs[run] == RowAfter(sys, a, run)
  {
    hide Apply, Enabled, RowAfter;
    if TouchesLease(a) {
      LeaseActionOnRun(sys, a, run);
    } else if FailsSteps(a) {
      FailingActionOnRun(sys, a, run);
    } else {
      OtherActionOnRun(sys, a, run);
    }
  }

  lemma LeaseActionOnRun(sys: Sys, a: Action, run: RunId)
    requires Consistent(sys) && Enabled(sys, a) && run in sys.db.runs && TouchesLease(a)
    ensures run in Apply(sys, a).db.runs && Apply(sys, a).db.runs[run] == RowAfter(sys, a, run)
  {
  }

  lemma FailingActionOnRun(sys: Sys, a: Action, run: RunId)
    requires Consistent(sys) && Enabled(sys, a) && run in sys.db.runs && FailsSteps(a)
    ensures run in Apply(sys, a).db.runs && Apply(sys, a).db.runs[run] == RowAfter(sys, a, run)
  {
    if a.Reconcile? { ReconciledExactly(sys.db, a.minimumAge); }
  }

  lemma OtherActionOnRun(sys: Sys, a: Action, run: RunId)
    requires Consistent(sys) && Enabled(sys, a) && run in sys.db.runs && !TouchesLease(a) && !FailsSteps(a)
    ensures run in Apply(sys, a).db.runs && Apply(sys, a).db.runs[run] == RowAfter(sys, a, run)
  {
  }

  lemma FinisherMayFinish(sys: Sys, a: Action, run: RunId)
    requires Enabled(sys, a) && FinishesRun(a, run)
    ensures MayFinish(sys, run) && !FinishStatus(sys, a, run).Running?
  {
  }

  lemma {:induction false} StepOnRuns(sys: Sys, a: Action, run: RunId)
    requires Consistent(sys) && Enabled(sys, a) && run in sys.db.runs
    ensures run in Apply(sys, a).db.runs
    ensures StillRunning(Apply(sys, a), run) <==> StillRunning(sys, run) && !Closes(sys, a, run)
  {
    hide Apply, Enabled, Consistent, FinishStatus, Beats, MayFinish, IsOrphan;
    RunRowStep(sys, a, run);
    if FinishesRun(a, run) { FinisherMayFinish(sys, a, run); }
    OrphanRuns(sys.db, run);
  }

  lemma OrphanRuns(db: Db, run: RunId)
    ensures forall age :: IsOrphan(db, age, run) ==> run in db.runs && db.runs[run].status.Running?
  {
  }

  /** A run that has left `running` never comes back to it. */
  lemma {:induction false} RunNeverRunsAgain(states: seq<Sys>, actions: seq<Action>, i: nat, j: nat, run: RunId)
    requires IsHistory(states, actions) && i <= j < |states|
    requires run in states[i].db.runs && !StillRunning(states[i], run)
    ensures run in states[j].db.runs && !StillRunning(states[j], run)
  {
    hide Apply, Enabled, StillRunning, GrantsHold, StepsAccounted, Consistent;
    if i < j {
      RunNeverRunsAgain(states, actions, i, j - 1, run);
      InvAlways(states, actions, j - 1);
      assert Enabled(states[j - 1], actions[j - 1]) && states[j - 1 + 1] == Apply(states[j - 1], actions[j - 1]);
      StepOnRuns(states[j - 1], actions[j - 1], run);
    }
  }

  /** Recovery never takes a run in its window, and takes only runs whose last beat
      is older than the given age. */
  lemma {:induction false} RecoveryTakesOnlyStale(states: seq<Sys>, actions: seq<Action>, k: nat, run: RunId)
    requires IsHistory(states, actions) && k < |actions| && actions[k].Reconcile?
    requires run in states[k].db.runs && states[k + 1].db.runs[run] != states[k].db.runs[run]
    ensures StillRunning(states[k], run) && states[k + 1].db.runs[run].status == Failed
    ensures states[k].db.runs[run].heartbeatAt < states[k].db.now - actions[k].minimumAge
    ensures !InWindow(states[k], run)
  {
    hide StepsAccounted, Consistent, Enabled;
    InvAlways(states, actions, k);
    assert states[k + 1] == Apply(states[k], actions[k]);
    ReconciledExactly(states[k].db, actions[k].minimumAge);
  }

  /** And it takes every such run: at a recovery exactly those runs are failed that are
      running, have not beaten for longer than the age and do not hold an unexpired lease;
      no step of theirs is left running, and every other run keeps its row and its steps. */
  lemma {:induction false} RecoveryTakesEveryStale(states: seq<Sys>, actions: seq<Action>, k: nat, run: RunId)
    requires IsHistory(states, actions) && k < |actions| && actions[k].Reconcile?
    requires run in states[k].db.runs
    ensures var db, after := states[k].db, states[k + 1].db;
            var stale := && db.runs[run].status == Running
                         && db.runs[run].heartbeatAt < db.now - actions[k].minimumAge
                         && !(db.lease.holder == Some(run) && db.lease.until > db.now);
            && run in after.runs
            && (stale <==> after.runs[run] != db.runs[run])
            && (stale ==> after.runs[run].status == Failed)
            && (forall s :: s in db.steps && db.steps[s].run == run ==>
                  && s in after.steps
                  && (stale ==> after.steps[s].status != StepRunning)
                  && (stale && db.steps[s].status == StepRunning ==> after.steps[s].status == StepFailed)
                  && (!stale ==> after.steps[s] == db.steps[s]))
  {
    assert states[k + 1] == Apply(states[k], actions[k]);
    ReconciledExactly(states[k].db, actions[k].minimumAge);
  }

  predicate FinishesRun(a: Action, run: RunId) {
    a == RefuseRun(run) || a == FinishErr(run) || (a.FinishOk? && a.run == run)
  }

  // -------------------------------------------------------------------------- beats

  /** The run's row is written with the present time: it is inserted, or a heartbeat that
      commits finds the run as lease holder and still running. */
  predicate Beats(sys: Sys, a: Action, run: RunId) {
    || (a.Start? && run == sys.db.nextRun)
    || (a.Heartbeat? && a.run == run && !a.answer.LostBeforeCommit?
        && sys.db.lease.holder == Some(run) && StillRunning(sys, run))
  }

  ghost predicate BeatenSince(sys: Sys, run: RunId, time: int) {
    run in sys.db.runs && sys.db.runs[run].heartbeatAt >= time && sys.db.now >= time
  }

  lemma BeatBeats(sys: Sys, a: Action, run: RunId)
    requires Enabled(sys, a) && Beats(sys, a, run)
    ensures BeatenSince(Apply(sys, a), run, sys.db.now)
  {
  }

  lemma {:induction false} BeatenStays(sys: Sys, a: Action, run: RunId, time: int)
    requires Consistent(sys) && Enabled(sys, a) && BeatenSince(sys, run, time)
    ensures BeatenSince(Apply(sys, a), run, time)
  {
    hide Apply, Enabled, Consistent, Beats, FinishStatus, IsOrphan;
    RunRowStep(sys, a, run);
    TimePasses(sys, a);
  }

  lemma TimePasses(sys: Sys, a: Action)
    requires Enabled(sys, a)
    ensures Apply(sys, a).db.now >= sys.db.now
  {
  }

  /** After a beat the heartbeat is never older than it. */
  lemma {:induction false} BeatIsRemembered(states: seq<Sys>, actions: seq<Action>, b: nat, k: nat, run: RunId)
    requires IsHistory(states, actions) && b < k < |states|
    requires Beats(states[b], actions[b], run)
    ensures BeatenSince(states[k], run, states[b].db.now)
  {
    hide Apply, Enabled, Beats, BeatenSince, GrantsHold, Consistent, StepsAccounted;
    InvAlways(states, actions, k - 1);
    assert Enabled(states[k - 1], actions[k - 1]) && states[k - 1 + 1] == Apply(states[k - 1], actions[k - 1]);
    if b == k - 1 {
      BeatBeats(states[b], actions[b], run);
    } else {
      BeatIsRemembered(states, actions, b, k - 1, run);
      BeatenStays(states[k - 1], actions[k - 1], run, states[b].db.now);
    }
  }

  /** Some beat before step `k` is no older than the age. */
  ghost predicate BeatWithin(states: seq<Sys>, actions: seq<Action>, k: nat, run: RunId, age: int)
    requires IsHistory(states, actions) && k < |states|
  {
    exists b :: 0 <= b < k && Beats(states[b], actions[b], run) && states[b].db.now >= states[k].db.now - age
  }

  /** A run that beats within the age before every recovery, and is not finished by its
      own worker, is never recovered: it stays running. */
  lemma {:induction false} BeatingRunIsNeverRecovered(states: seq<Sys>, actions: seq<Action>, i: nat, j: nat,
      run: RunId)
    requires IsHistory(states, actions) && i <= j < |states|
    requires StillRunning(states[i], run)
    requires forall k :: i <= k < j ==> !FinishesRun(actions[k], run)
    requires forall k :: i <= k < j && actions[k].Reconcile? ==>
             BeatWithin(states, actions, k, run, actions[k].minimumAge)
    ensures StillRunning(states[j], run)
  {
    hide Apply, Enabled, GrantsHold, StepsAccounted, Consistent, Beats;
    if i < j {
      BeatingRunIsNeverRecovered(states, actions, i, j - 1, run);
      InvAlways(states, actions, j - 1);
      assert Enabled(states[j - 1], actions[j - 1]) && states[j - 1 + 1] == Apply(states[j - 1], actions[j - 1]);
      if actions[j - 1].Reconcile? {
        var b :| 0 <= b < j - 1 && Beats(states[b], actions[b], run)
                 && states[b].db.now >= states[j - 1].db.now - actions[j - 1].minimumAge;
        BeatIsRemembered(states, actions, b, j - 1, run);
      }
      StepOnRuns(states[j - 1], actions[j - 1], run);
    }
  }

  // ------------------------------------------------------- statuses that are overwritten

  /** The status that a worker's own finish writes. */
  function FinishStatus(sys: Sys, a: Action, run: RunId): RunStatus
    requires FinishesRun(a, run) && run in sys.workers
  {
    if a.FinishOk? then a.outcome else if a.FinishErr? then Failed else RefusalStatus(sys.workers[run].phase)
  }

  lemma {:induction false} ClosedStatusStep(sys: Sys, a: Action, run: RunId)
    requires Consistent(sys) && Enabled(sys, a) && run in sys.db.runs && !StillRunning(sys, run)
    ensures run in Apply(sys, a).db.runs
    ensures FinishesRun(a, run) ==>
            MayFinish(sys, run) && Apply(sys, a).db.runs[run].status == FinishStatus(sys, a, run)
    ensures !FinishesRun(a, run) ==> Apply(sys, a).db.runs[run].status == sys.db.runs[run].status
  {
    hide Apply, Enabled, Consistent, Beats, FinishStatus, IsOrphan, MayFinish;
    RunRowStep(sys, a, run);
    if FinishesRun(a, run) { FinisherMayFinish(sys, a, run); }
    OrphanRuns(sys.db, run);
  }

  /** The worker has not made its finish call, nor has it gone. */
  predicate MayFinish(sys: Sys, run: RunId) {
    || In(sys, run, Starting) || In(sys, run, Working)
    || In(sys, run, Refused) || In(sys, run, LockLost) || In(sys, run, Dropped)
  }

  /** Step `j` is a recovery that closes the run. */
  ghost predicate RecoveredAt(states: seq<Sys>, actions: seq<Action>, j: nat, run: RunId)
    requires j < |actions| && |states| == |actions| + 1
  {
    actions[j].Reconcile? && StillRunning(states[j], run) && !StillRunning(states[j + 1], run)
  }

  predicate IsFinish(a: Action) {
    a.RefuseRun? || a.FinishOk? || a.FinishErr?
  }

  lemma LeaseActionOnPhase(sys: Sys, a: Action, run: RunId)
    requires Enabled(sys, a) && MayFinish(Apply(sys, a), run) && TouchesLease(a)
    ensures MayFinish(sys, run)
  {
  }

  lemma FinishOnPhase(sys: Sys, a: Action, run: RunId)
    requires Enabled(sys, a) && MayFinish(Apply(sys, a), run) && IsFinish(a)
    ensures MayFinish(sys, run) && !FinishesRun(a, run)
  {
  }

  lemma OtherActionOnPhase(sys: Sys, a: Action, run: RunId)
    requires Enabled(sys, a) && MayFinish(Apply(sys, a), run) && !TouchesLease(a) && !IsFinish(a)
    ensures MayFinish(sys, run) || (a.Start? && run == sys.db.nextRun)
  {
  }

  /** A worker that may finish its run afterwards has inserted it just now, or might have
      finished it before and has not. */
  lemma {:induction false} PhaseStep(sys: Sys, a: Action, run: RunId)
    requires Consistent(sys) && Enabled(sys, a) && MayFinish(Apply(sys, a), run)
    ensures !FinishesRun(a, run)
    ensures MayFinish(sys, run) || (a.Start? && run == sys.db.nextRun)
  {
    hide Apply, Enabled, Consistent, MayFinish;
    if TouchesLease(a) {
      LeaseActionOnPhase(sys, a, run);
    } else if IsFinish(a) {
      FinishOnPhase(sys, a, run);
    } else {
      OtherActionOnPhase(sys, a, run);
    }
  }

  lemma {:induction false} MayFinishStep(sys: Sys, a: Action, run: RunId)
    requires Consistent(sys) && Enabled(sys, a) && MayFinish(Apply(sys, a), run) && !StillRunning(Apply(sys, a), run)
    ensures run in sys.db.runs && MayFinish(sys, run) && run in Apply(sys, a).db.runs
    ensures StillRunning(sys, run) ==> a.Reconcile? && Apply(sys, a).db.runs[run].status == Failed
    ensures !StillRunning(sys, run) ==> Apply(sys, a).db.runs[run].status == sys.db.runs[run].status
  {
    hide Apply, Enabled, Beats, FinishStatus, IsOrphan;
    PhaseStep(sys, a, run);
    if a.Start? { StartedRuns(sys); }
    RunRowStep(sys, a, run);
    OrphanRuns(sys.db, run);
  }

  lemma StartedRuns(sys: Sys)
    ensures Enabled(sys, Start) && StillRunning(Apply(sys, Start), sys.db.nextRun)
  {
  }

  /** If a run is closed before its worker has finished it, then recovery closed it, and
      it still is as recovery left it. */
  lemma {:induction false} ClosedByRecovery(states: seq<Sys>, actions: seq<Action>, k: nat, run: RunId)
    requires IsHistory(states, actions) && k < |states|
    requires MayFinish(states[k], run) && run in states[k].db.runs && !StillRunning(states[k], run)
    ensures states[k].db.runs[run].status == Failed
    ensures exists j :: 0 <= j < k && RecoveredAt(states, actions, j, run)
  {
    hide Apply, Enabled, GrantsHold, StepsAccounted, Consistent, MayFinish, StillRunning;
    assert k > 0 by { assert Initial(states[0]); }
    InvAlways(states, actions, k - 1);
    assert Enabled(states[k - 1], actions[k - 1]) && states[k - 1 + 1] == Apply(states[k - 1], actions[k - 1]);
    MayFinishStep(states[k - 1], actions[k - 1], run);
    if StillRunning(states[k - 1], run) {
      assert RecoveredAt(states, actions, k - 1, run);
    } else {
      ClosedByRecovery(states, actions, k - 1, run);
    }
  }

  /** A worker finds its run closed at its own finish exactly if recovery has closed it at
      some earlier step. */
  lemma {:induction false} FinishFindsRecovered(states: seq<Sys>, actions: seq<Action>, k: nat, run: RunId)
    requires IsHistory(states, actions) && k < |actions| && FinishesRun(actions[k], run)
    ensures run in states[k].db.runs && MayFinish(states[k], run)
    ensures !StillRunning(states[k], run) <==> exists j :: 0 <= j < k && RecoveredAt(states, actions, j, run)
  {
    hide Apply, GrantsHold, StepsAccounted, StillRunning;
    InvAlways(states, actions, k);
    assert Enabled(states[k], actions[k]);
    if !StillRunning(states[k], run) {
      ClosedByRecovery(states, actions, k, run);
    } else {
      forall j | 0 <= j < k && RecoveredAt(states, actions, j, run) ensures false {
        StillKnown(states, actions, j, run);
        RunNeverRunsAgain(states, actions, j + 1, k, run);
        assert false;
      }
    }
  }

  lemma {:induction false} StillKnown(states: seq<Sys>, actions: seq<Action>, j: nat, run: RunId)
    requires IsHistory(states, actions) && j < |actions| && StillRunning(states[j], run)
    ensures run in states[j + 1].db.runs
  {
    hide Apply, Enabled, GrantsHold, StepsAccounted, Consistent;
    InvAlways(states, actions, j);
    assert Enabled(states[j], actions[j]) && states[j + 1] == Apply(states[j], actions[j]);
    StepOnRuns(states[j], actions[j], run);
  }

  /** The status of a closed run changes exactly at its own worker's finish, after recovery
      has failed it, with a status other than failed; nothing else ever changes it. */
  lemma {:induction false} ClosedStatusChanges(states: seq<Sys>, actions: seq<Action>, k: nat, run: RunId)
    requires IsHistory(states, actions) && k < |actions|
    requires run in states[k].db.runs && !StillRunning(states[k], run)
    ensures run in states[k + 1].db.runs && (FinishesRun(actions[k], run) ==> run in states[k].workers)
    ensures states[k + 1].db.runs[run].status != states[k].db.runs[run].status
       <==> FinishesRun(actions[k], run) && FinishStatus(states[k], actions[k], run) != Failed
    ensures FinishesRun(actions[k], run) ==>
              states[k].db.runs[run].status == Failed && exists j :: 0 <= j < k && RecoveredAt(states, actions, j, run)
  {
    hide Apply, Enabled, GrantsHold, StepsAccounted, RecoveredAt, StillRunning, FinishStatus;
    InvAlways(states, actions, k);
    assert Enabled(states[k], actions[k]) && states[k + 1] == Apply(states[k], actions[k]);
    ClosedStatusStep(states[k], actions[k], run);
    if FinishesRun(actions[k], run) {
      ClosedByRecovery(states, actions, k, run);
    }
  }

  /** One run without steps. */
  function OneRun(now: int, lease: Lease, status: RunStatus, phase: Phase, granted: map<RunId, int>): Sys {
    Sys(Db(now, lease, map[0 := RunRow(status, 0)], 1, map[], 0), map[0 := Worker(phase, map[])], granted)
  }

  lemma OneRunRecovered()
    ensures Apply(OneRun(1000, Lease(Some(0), 60), Running, Working, map[0 := 0]), Reconcile(300))
         == OneRun(1000, Lease(None, 1000), Failed, Working, map[0 := 0])
  {
    var sys := OneRun(1000, Lease(Some(0), 60), Running, Working, map[0 := 0]);
    ReconciledExactly(sys.db, 300);
    assert Reconciled(sys.db, 300).runs == map[0 := RunRow(Failed, 0)];
    assert Reconciled(sys.db, 300).steps == map[];
  }

  lemma OneRunStarted()
    ensures Initial(Sys(Db(0, Lease(None, 0), map[], 0, map[], 0), map[], map[]))
    ensures Apply(Sys(Db(0, Lease(None, 0), map[], 0, map[], 0), map[], map[]), Start)
         == OneRun(0, Lease(None, 0), Running, Starting, map[])
    ensures Apply(OneRun(0, Lease(None, 0), Running, Starting, map[]), Acquire(0, Answered))
         == OneRun(0, Lease(Some(0), 60), Running, Working, map[0 := 0])
  {
  }

  lemma OneRunTicks()
    ensures Apply(OneRun(0, Lease(Some(0), 60), Running, Working, map[0 := 0]), Tick(1000))
         == OneRun(1000, Lease(Some(0), 60), Running, Working, map[0 := 0])
  {
  }

  lemma OneRunFinished()
    ensures Apply(OneRun(1000, Lease(None, 1000), Failed, Working, map[0 := 0]), FinishOk(0, Succeeded))
         == OneRun(1000, Lease(None, 1000), Succeeded, Finished, map[0 := 0])
  {
  }

  /** It happens: a worker that stalls past its lease and the recovery age finishes its
      run after recovery has failed it. */
  lemma {:induction false} RecoveredRunSucceeds() returns (states: seq<Sys>, actions: seq<Action>)
    ensures IsHistory(states, actions) && |actions| == 5 && RecoveredAt(states, actions, 3, 0)
    ensures 0 in states[4].db.runs && states[4].db.runs[0].status == Failed
    ensures 0 in states[5].db.runs && states[5].db.runs[0].status == Succeeded
  {
    hide Apply, Initial;
    OneRunStarted();
    OneRunTicks();
    OneRunRecovered();
    OneRunFinished();
    actions := [Start, Acquire(0, Answered), Tick(1000), Reconcile(300), FinishOk(0, Succeeded)];
    states := [Sys(Db(0, Lease(None, 0), map[], 0, map[], 0), map[], map[]),
               OneRun(0, Lease(None, 0), Running, Starting, map[]),
               OneRun(0, Lease(Some(0), 60), Running, Working, map[0 := 0]),
               OneRun(1000, Lease(Some(0), 60), Running, Working, map[0 := 0]),
               OneRun(1000, Lease(None, 1000), Failed, Working, map[0 := 0]),
               OneRun(1000, Lease(None, 1000), Succeeded, Finished, map[0 := 0])];
  }
}
