/** The run ledger, the step ledger and the execution lease (src/workflow_run.rs).
    Every SQL statement or transaction is one step on the database. */
module WorkflowLedger {
  import opened Wrappers

  type RunId = nat
  type StepId = nat

  const LEASE_SECONDS: int := 60

  datatype RunStatus = Running | Succeeded | PartialFailed | Failed | Blocked

  datatype StepStatus = StepRunning | StepSucceeded | StepFailed

  datatype RunRow = RunRow(status: RunStatus, heartbeatAt: int)

  datatype StepRow = StepRow(run: RunId, period: Option<int>, name: string, status: StepStatus)

  /** The single lease row. */
  datatype Lease = Lease(holder: Option<RunId>, until: int)

  datatype Db = Db(
    now: int,
    lease: Lease,
    runs: map<RunId, RunRow>,
    nextRun: RunId,
    steps: map<StepId, StepRow>,
    nextStep: StepId)

  // ----------------------------------------------------------------------- the lease

  predicate HoldsLiveLease(db: Db, run: RunId) {
    db.lease.holder == Some(run) && db.lease.until > db.now
  }

  function Acquired(db: Db, run: RunId): (Db, bool) {
    if db.lease.until <= db.now then (db.(lease := Lease(Some(run), db.now + LEASE_SECONDS)), true) else (db, false)
  }

  /** The lease is renewed for its holder even if the run has been closed; the
      answer is whether the run is still running. */
  function Beaten(db: Db, run: RunId): (Db, bool) {
    if db.lease.holder != Some(run) then (db, false)
    else
      var renewed := db.(lease := Lease(Some(run), db.now + LEASE_SECONDS));
      if run in db.runs && db.runs[run].status.Running?
      then (renewed.(runs := db.runs[run := db.runs[run].(heartbeatAt := db.now)]), true)
      else (renewed, false)
  }

  function LeaseReleased(db: Db, run: RunId): Db {
    if db.lease.holder == Some(run) then db.(lease := Lease(None, db.now)) else db
  }

  // ------------------------------------------------------------------------ the runs

  function RunStarted(db: Db): (Db, RunId) {
    (db.(runs := db.runs[db.nextRun := RunRow(Running, db.now)], nextRun := db.nextRun + 1), db.nextRun)
  }

  /** `finish_run_success`, `finish_run_partial_failure` and
      `finish_run_all_projects_failed` write the status whatever it was. */
  function RunFinished(db: Db, run: RunId, status: RunStatus): Db {
    if run in db.runs then db.(runs := db.runs[run := db.runs[run].(status := status)]) else db
  }

  /** The step ledger with the chosen running steps failed. */
  function StepsFailed(steps: map<StepId, StepRow>, chosen: StepRow -> bool): map<StepId, StepRow> {
    map id | id in steps ::
      if steps[id].status.StepRunning? && chosen(steps[id]) then steps[id].(status := StepFailed) else steps[id]
  }

  function OfRun(run: RunId): StepRow -> bool {
    (s: StepRow) => s.run == run
  }

  function OfActivity(run: RunId, period: int): StepRow -> bool {
    (s: StepRow) => s.run == run && s.period == Some(period)
  }

  function RunFailed(db: Db, run: RunId, status: RunStatus): Db {
    RunFinished(db.(steps := StepsFailed(db.steps, OfRun(run))), run, status)
  }

  // ----------------------------------------------------------------------- the steps

  /** Rows that the unique constraint makes one; a missing period is never equal to
      another. */
  predicate Conflicts(s: StepRow, run: RunId, period: Option<int>, name: string) {
    s.run == run && period.Some? && s.period == period && s.name == name
  }

  ghost predicate StepsUnique(steps: map<StepId, StepRow>) {
    forall a, b :: a in steps && b in steps && Conflicts(steps[a], steps[b].run, steps[b].period, steps[b].name) ==>
      a == b
  }

  ghost predicate DbOk(db: Db) {
    && (forall r :: r in db.runs ==> r < db.nextRun)
    && (forall s :: s in db.steps ==> s < db.nextStep && db.steps[s].run in db.runs)
    && StepsUnique(db.steps)
    && (db.lease.holder.Some? ==> db.lease.holder.value in db.runs)
    && (db.lease.holder.None? ==> db.lease.until <= db.now)
  }

  /** The conflicting row, if the unique constraint has one. */
  ghost predicate IsConflict(db: Db, id: StepId, run: RunId, period: Option<int>, name: string) {
    id in db.steps && Conflicts(db.steps[id], run, period, name)
  }

  /** `start_step`: reopen the row of this run, period and name, or insert one. */
  ghost predicate StepStarted(db: Db, run: RunId, period: Option<int>, name: string, db': Db, id: StepId) {
    var row := StepRow(run, period, name, StepRunning);
    if exists old_ :: IsConflict(db, old_, run, period, name) then
      IsConflict(db, id, run, period, name) && db' == db.(steps := db.steps[id := row])
    else
      id == db.nextStep && db' == db.(steps := db.steps[id := row], nextStep := db.nextStep + 1)
  }

  function StepFinished(db: Db, id: StepId, status: StepStatus): Db {
    if id in db.steps then db.(steps := db.steps[id := db.steps[id].(status := status)]) else db
  }

  function ActivityStepsFailed(db: Db, run: RunId, period: int): Db {
    db.(steps := StepsFailed(db.steps, OfActivity(run, period)))
  }

  // --------------------------------------------------------------- orphan recovery

  /** Runs whose heartbeat is too old and that no live lease protects. */
  predicate IsOrphan(db: Db, minimumAge: int, run: RunId) {
    && run in db.runs && db.runs[run].status.Running?
    && db.runs[run].heartbeatAt < db.now - minimumAge
    && !HoldsLiveLease(db, run)
  }

  function ExpiredLeaseCleared(db: Db): Db {
    if db.lease.until <= db.now then db.(lease := Lease(None, db.now)) else db
  }

  function Reconciled(db: Db, minimumAge: int): Db {
    var cleared := ExpiredLeaseCleared(db);
    cleared.(
      steps := StepsFailed(cleared.steps, (s: StepRow) => IsOrphan(cleared, minimumAge, s.run)),
      runs := map r | r in cleared.runs ::
        if IsOrphan(cleared, minimumAge, r) then cleared.runs[r].(status := Failed) else cleared.runs[r])
  }

  /** Recovery fails exactly the running runs whose heartbeat is too old and that do not
      hold an unexpired lease themselves, and closes exactly their running steps; it touches
      the lease only if it has run out. */
  lemma ReconciledExactly(db: Db, minimumAge: int)
    ensures var after := Reconciled(db, minimumAge);
            && after.runs.Keys == db.runs.Keys && after.steps.Keys == db.steps.Keys
            && (forall r :: r in db.runs ==>
                  after.runs[r]
                  == if && db.runs[r].status == Running
                        && db.runs[r].heartbeatAt < db.now - minimumAge
                        && !(db.lease.holder == Some(r) && db.lease.until > db.now)
                     then db.runs[r].(status := Failed) else db.runs[r])
            && (forall s :: s in db.steps ==>
                  var r := db.steps[s].run;
                  after.steps[s]
                  == if && db.steps[s].status == StepRunning
                        && r in db.runs && db.runs[r].status == Running
                        && db.runs[r].heartbeatAt < db.now - minimumAge
                        && !(db.lease.holder == Some(r) && db.lease.until > db.now)
                     then db.steps[s].(status := StepFailed) else db.steps[s])
            && (db.lease.until > db.now ==> after.lease == db.lease)
            && (db.lease.until <= db.now ==> after.lease == Lease(None, db.now))
            && after.now == db.now && after.nextRun == db.nextRun && after.nextStep == db.nextStep
  {
  }

  const MAX_AGE: int := 0x7FFF_FFFF

  function RecoveryAge(seconds: nat): int {
    if seconds <= MAX_AGE then seconds else MAX_AGE
  }

  // ------------------------------------------------------------------ the repository

  class WorkflowRunRepository {
    var now: int
    var lease: Lease
    var runs: map<RunId, RunRow>
    var nextRun: RunId
    var steps: map<StepId, StepRow>
    var nextStep: StepId

    ghost function State(): Db reads this {
      Db(now, lease, runs, nextRun, steps, nextStep)
    }

    constructor (now: int, expired: int)
      requires expired <= now
      ensures State() == Db(now, Lease(None, expired), map[], 0, map[], 0) && DbOk(State())
    {
      this.now := now;
      lease := Lease(None, expired);
      runs, nextRun := map[], 0;
      steps, nextStep := map[], 0;
    }

    method StartRun() returns (run: RunId)
      requires DbOk(State())
      modifies this`runs, this`nextRun
      ensures (State(), run) == RunStarted(old(State())) && DbOk(State()) && run !in old(runs)
    {
      run := nextRun;
      runs := runs[run := RunRow(Running, now)];
      nextRun := nextRun + 1;
    }

    /** The lease is granted exactly when no run holds it, and then to this run alone. */
    method TryAcquireRunLease(run: RunId) returns (acquired: bool)
      modifies this`lease
      ensures DbOk(old(State())) ==> (acquired <==> forall other :: !HoldsLiveLease(old(State()), other))
      ensures DbOk(old(State())) && run in runs ==> DbOk(State())
      ensures acquired ==> forall other :: HoldsLiveLease(State(), other) <==> other == run
      ensures acquired ==> lease.until == now + 60
      ensures !acquired ==> State() == old(State())
      ensures (State(), acquired) == Acquired(old(State()), run)
    {
      acquired := lease.until <= now;
      if acquired {
        lease := Lease(Some(run), now + LEASE_SECONDS);
      } else if lease.holder.Some? {
        assert HoldsLiveLease(State(), lease.holder.value);
      }
    }

    /** A live answer means that the run holds the lease from now on and has beaten; a run
        that is no longer the holder changes nothing; no other run is touched. */
    method HeartbeatRun(run: RunId) returns (alive: bool)
      modifies this`lease, this`runs
      ensures DbOk(old(State())) ==> DbOk(State())
      ensures alive ==> HoldsLiveLease(State(), run) && run in runs && runs[run] == RunRow(Running, now)
      ensures old(lease).holder == Some(run) ==> HoldsLiveLease(State(), run) && lease.until == now + 60
      ensures old(lease).holder != Some(run) ==> !alive && State() == old(State())
      ensures forall age :: age >= 0 && alive ==> !IsOrphan(State(), age, run)
      ensures runs.Keys == old(runs).Keys && forall r :: r in runs && r != run ==> runs[r] == old(runs)[r]
      ensures (State(), alive) == Beaten(old(State()), run)
    {
      if lease.holder != Some(run) { return false; }
      lease := Lease(Some(run), now + LEASE_SECONDS);
      alive := run in runs && runs[run].status.Running?;
      if alive {
        runs := runs[run := runs[run].(heartbeatAt := now)];
      }
    }

    /** Afterwards the run does not hold the lease; if it did, it is free for the next;
        and any other run holds it exactly if it did before. */
    method ReleaseRunLease(run: RunId)
      modifies this`lease
      ensures DbOk(old(State())) ==> DbOk(State())
      ensures !HoldsLiveLease(State(), run)
      ensures old(lease).holder == Some(run) ==> forall other :: Acquired(State(), other).1
      ensures forall other :: other != run ==> (HoldsLiveLease(State(), other) <==> HoldsLiveLease(old(State()), other))
      ensures State() == LeaseReleased(old(State()), run)
    {
      if lease.holder == Some(run) {
        lease := Lease(None, now);
      }
    }

    /** The run has the status whatever it had before, and once that is a closed one no
        recovery takes it; other runs are untouched. */
    method FinishRun(run: RunId, status: RunStatus)
      modifies this`runs
      ensures DbOk(old(State())) ==> DbOk(State())
      ensures runs.Keys == old(runs).Keys && forall r :: r in runs && r != run ==> runs[r] == old(runs)[r]
      ensures run in runs ==> runs[run].status == status && runs[run].heartbeatAt == old(runs)[run].heartbeatAt
      ensures !status.Running? ==> forall age :: !IsOrphan(State(), age, run)
      ensures State() == RunFinished(old(State()), run, status)
    {
      if run in runs {
        runs := runs[run := runs[run].(status := status)];
      }
    }

    method FinishRunFailure(run: RunId, status: RunStatus)
      modifies this`runs, this`steps
      ensures DbOk(old(State())) ==> DbOk(State())
      ensures forall id :: id in steps && steps[id].run == run ==> !steps[id].status.StepRunning?
      ensures steps.Keys == old(steps).Keys
      ensures forall id :: id in steps && (steps[id].run != run || !old(steps)[id].status.StepRunning?) ==>
              steps[id] == old(steps)[id]
      ensures run in runs ==> runs[run].status == status
      ensures runs.Keys == old(runs).Keys && forall r :: r in runs && r != run ==> runs[r] == old(runs)[r]
      ensures State() == RunFailed(old(State()), run, status)
    {
      steps := StepsFailed(steps, OfRun(run));
      FinishRun(run, status);
    }

    method StartStep(run: RunId, period: Option<int>, name: string) returns (id: StepId)
      requires DbOk(State()) && run in runs
      modifies this`steps, this`nextStep
      ensures StepStarted(old(State()), run, period, name, State(), id) && DbOk(State())
      ensures id in steps && steps[id] == StepRow(run, period, name, StepRunning)
      ensures steps.Keys == old(steps).Keys + {id}
      ensures forall other :: other in old(steps) && other != id ==> steps[other] == old(steps)[other]
      ensures id in old(steps) <==> exists s: StepId ::
                s in old(steps) && period.Some? && old(steps)[s].run == run && old(steps)[s].period == period
                && old(steps)[s].name == name
      ensures id in old(steps) ==>
                old(steps)[id].run == run && old(steps)[id].period == period && old(steps)[id].name == name
    {
      var row := StepRow(run, period, name, StepRunning);
      if id' :| id' in steps && Conflicts(steps[id'], run, period, name) {
        id := id';
        assert IsConflict(State(), id, run, period, name);
      } else {
        id := nextStep;
        nextStep := nextStep + 1;
      }
      steps := steps[id := row];
    }

    /** The one step is closed; no other step changes. */
    method FinishStep(id: StepId, status: StepStatus)
      requires !status.StepRunning?
      modifies this`steps
      ensures DbOk(old(State())) ==> DbOk(State())
      ensures steps.Keys == old(steps).Keys && forall other :: other in steps && other != id ==>
              steps[other] == old(steps)[other]
      ensures id in steps ==> steps[id] == old(steps)[id].(status := status) && !steps[id].status.StepRunning?
      ensures State() == StepFinished(old(State()), id, status)
    {
      if id in steps {
        steps := steps[id := steps[id].(status := status)];
      }
    }

    method FailRunningStepsForActivity(run: RunId, period: int)
      modifies this`steps
      ensures State() == ActivityStepsFailed(old(State()), run, period)
      ensures steps.Keys == old(steps).Keys
      ensures forall id :: id in steps ==>
                steps[id]
                == if && old(steps)[id].run == run && old(steps)[id].period == Some(period)
                      && old(steps)[id].status == StepRunning
                   then old(steps)[id].(status := StepFailed) else old(steps)[id]
    {
      steps := StepsFailed(steps, OfActivity(run, period));
    }

    /** Two statements: the cheap look for a candidate, then the transaction. The age is
        given in seconds and capped at the largest i32. Either way exactly the runs are failed
        that are running, have not beaten for longer than the age and do not hold an
        unexpired lease, and exactly their running steps. */
    method ReconcileOrphanedRunsIfIdle(minimumAge: nat) returns (touched: bool)
      modifies this`lease, this`runs, this`steps
      ensures var age := if minimumAge <= 0x7FFF_FFFF then minimumAge else 0x7FFF_FFFF;
              touched <==> exists r ::
                r in old(runs) && old(runs)[r].status == Running && old(runs)[r].heartbeatAt < now - age
      ensures runs.Keys == old(runs).Keys && steps.Keys == old(steps).Keys
      ensures forall r :: r in runs ==>
                var age := if minimumAge <= 0x7FFF_FFFF then minimumAge else 0x7FFF_FFFF;
                runs[r]
                == if && old(runs)[r].status == Running && old(runs)[r].heartbeatAt < now - age
                      && !(old(lease).holder == Some(r) && old(lease).until > now)
                   then old(runs)[r].(status := Failed) else old(runs)[r]
      ensures forall s :: s in steps ==>
                var age, r := if minimumAge <= 0x7FFF_FFFF then minimumAge else 0x7FFF_FFFF, old(steps)[s].run;
                steps[s]
                == if && old(steps)[s].status == StepRunning
                      && r in old(runs) && old(runs)[r].status == Running && old(runs)[r].heartbeatAt < now - age
                      && !(old(lease).holder == Some(r) && old(lease).until > now)
                   then old(steps)[s].(status := StepFailed) else old(steps)[s]
      ensures lease == if touched && old(lease).until <= now then Lease(None, now) else old(lease)
      ensures State() == if touched then Reconciled(old(State()), RecoveryAge(minimumAge)) else old(State())
    {
      var age := RecoveryAge(minimumAge);
      ReconciledExactly(State(), age);
      touched := exists r :: r in runs && runs[r].status.Running? && runs[r].heartbeatAt < now - age;
      if touched { ReconcileOrphanedRuns(age); }
    }

    /** The transaction: first an expired lease, then the steps, then the runs. */
    method ReconcileOrphanedRuns(minimumAge: int)
      modifies this`lease, this`runs, this`steps
      ensures State() == Reconciled(old(State()), minimumAge)
    {
      if lease.until <= now {
        lease := Lease(None, now);
      }
      ghost var cleared := State();
      var orphans := Orphans(minimumAge);
      steps := StepsFailed(steps, (s: StepRow) => s.run in orphans);
      runs := map r | r in runs :: if r in orphans then runs[r].(status := Failed) else runs[r];
      SameStepsFailed(cleared.steps, orphans, cleared, minimumAge);
    }

    method Orphans(minimumAge: int) returns (orphans: set<RunId>)
      ensures forall r :: r in orphans <==> IsOrphan(State(), minimumAge, r)
    {
      var l, t, ledger := lease, now, runs;
      orphans := set r | r in ledger && ledger[r].status.Running? && ledger[r].heartbeatAt < t - minimumAge
                         && !(l.holder == Some(r) && l.until > t);
    }
  }

  lemma SameStepsFailed(steps: map<StepId, StepRow>, orphans: set<RunId>, db: Db, minimumAge: int)
    requires forall r :: r in orphans <==> IsOrphan(db, minimumAge, r)
    ensures StepsFailed(steps, (s: StepRow) => s.run in orphans)
         == StepsFailed(steps, (s: StepRow) => IsOrphan(db, minimumAge, s.run))
  {
  }

  // ------------------------------------------------------------- its use by a worker

  datatype BeginError = LockFailed | Busy

  /** What becomes of the statement that asks for the lease. */
  datatype Answer = Answered | LostBeforeCommit | LostAfterCommit

  /** `begin_exclusive_run`: it goes ahead exactly when the answer arrives and no run held
      the lease, and then with a fresh running run that holds it; otherwise its run is
      closed again. Only an answer lost after the commit leaves the lease with a closed
      run. */
  method BeginExclusiveRun(repo: WorkflowRunRepository, answer: Answer) returns (r: Result<RunId, BeginError>)
    requires DbOk(repo.State())
    modifies repo
    ensures DbOk(repo.State()) && repo.now == old(repo.now)
    ensures r.Ok? <==> answer.Answered? && forall other :: !HoldsLiveLease(old(repo.State()), other)
    ensures r == Err(LockFailed) <==> !answer.Answered?
    ensures r.Ok? ==>
            r.value !in old(repo.runs) && r.value in repo.runs && repo.runs[r.value] == RunRow(Running, repo.now)
    ensures r.Ok? ==> HoldsLiveLease(repo.State(), r.value)
    ensures r.Err? ==> forall run :: run in repo.runs && repo.runs[run].status.Running? ==> run in old(repo.runs)
    ensures r.Err? && !answer.LostAfterCommit? ==> repo.lease == old(repo.lease)
    ensures forall run :: run in old(repo.runs) ==> run in repo.runs && repo.runs[run] == old(repo.runs)[run]
    ensures repo.steps == old(repo.steps)
  {
    var run := repo.StartRun();
    NoStepsYet(repo.State(), run);
    assert forall other :: HoldsLiveLease(repo.State(), other) <==> HoldsLiveLease(old(repo.State()), other);
    var acquired := false;
    if !answer.LostBeforeCommit? { acquired := repo.TryAcquireRunLease(run); }
    if !answer.Answered? {
      repo.FinishRunFailure(run, Failed);
      assert repo.steps == old(repo.steps);
      return Err(LockFailed);
    }
    if !acquired {
      repo.FinishRunFailure(run, Blocked);
      assert repo.steps == old(repo.steps);
      return Err(Busy);
    }
    r := Ok(run);
  }

  /** A run that was just inserted has no steps. */
  lemma NoStepsYet(db: Db, run: RunId)
    ensures (forall s :: s in db.steps ==> db.steps[s].run != run) ==> StepsFailed(db.steps, OfRun(run)) == db.steps
  {
  }

  /** `tracked_optional_step`, undisturbed: the step is closed with the outcome of the
      operation, and nothing else changes. */
  method TrackedStep(repo: WorkflowRunRepository, run: RunId, period: Option<int>, name: string, succeeds: bool)
      returns (id: StepId)
    requires DbOk(repo.State()) && run in repo.runs
    modifies repo
    ensures DbOk(repo.State()) && repo.runs == old(repo.runs) && repo.lease == old(repo.lease)
    ensures id in repo.steps
    ensures repo.steps[id] == StepRow(run, period, name, if succeeds then StepSucceeded else StepFailed)
    ensures repo.steps.Keys == old(repo.steps).Keys + {id}
    ensures forall s :: s in old(repo.steps) && s != id ==> repo.steps[s] == old(repo.steps)[s]
  {
    id := repo.StartStep(run, period, name);
    repo.FinishStep(id, if succeeds then StepSucceeded else StepFailed);
  }

  /** The end of `run_workflow_exclusive`: the run is closed and gives the lease back; a
      failed one leaves no step of its own running; other runs keep what they had. */
  method EndRun(repo: WorkflowRunRepository, run: RunId, outcome: Option<RunStatus>)
    requires DbOk(repo.State()) && run in repo.runs && (outcome.Some? ==> !outcome.value.Running?)
    modifies repo
    ensures DbOk(repo.State()) && !HoldsLiveLease(repo.State(), run)
    ensures run in repo.runs && repo.runs[run].status == if outcome.Some? then outcome.value else Failed
    ensures outcome.None? ==> forall s :: s in repo.steps && repo.steps[s].run == run ==>
            !repo.steps[s].status.StepRunning?
    ensures outcome.Some? ==> repo.steps == old(repo.steps)
    ensures forall other :: other in repo.runs && other != run ==>
            other in old(repo.runs) && repo.runs[other] == old(repo.runs)[other]
    ensures forall other :: other != run ==>
            (HoldsLiveLease(repo.State(), other) <==> HoldsLiveLease(old(repo.State()), other))
  {
    match outcome {
      case Some(status) => repo.FinishRun(run, status);
      case None => repo.FinishRunFailure(run, Failed);
    }
    repo.ReleaseRunLease(run);
  }
}
