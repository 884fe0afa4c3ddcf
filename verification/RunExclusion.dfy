/**
 At most one run per job (internal/syncer/syncer.go:24-71): the whole `Run` as one caller sees
 it, then all interleavings of scheduled and manual runs of any jobs (internal/web/handler.go:419
 starts one goroutine per request).
 */
module RunExclusion {
  import opened Wrappers
  import opened Resolver
  import opened Store
  import opened Timestamps
  import H = RunHistory
  import S = Syncer

  class Syncer {
    /** The keys of the `running` map. */
    var running: set<int>

    /** Every call of `execute` so far. */
    ghost var executions: seq<S.Execution>

    /** Every recorded execution is one of `execute`. */
    ghost predicate Valid()
      reads this
    {
      AllExecuted(executions)
    }

    /** The recorded executions of every job form a chain that ends at this database's cache. */
    ghost predicate ChainEndsAt(db: Database)
      reads this, db`observed
    {
      H.AllChainsEndAt(executions, db.observed)
    }

    constructor ()
      ensures Valid() && running == {} && executions == []
    {
      running, executions := {}, [];
    }

    method Perform(db: Database, list: S.NetworkList, d: Dns, job: SyncJob, nowNs: int, faults: S.Faults)
      returns (result: S.SyncResult)
      requires Valid()
      modifies this`executions, db`observed, list
      ensures Valid()
      ensures executions == old(executions) + [S.ExecutionOf(
                S.Inputs(d, db.enabledServers, job, nowNs, faults),
                old(S.WorldOf(db, list)), S.WorldOf(db, list), result)]
      ensures old(ChainEndsAt(db)) ==> ChainEndsAt(db)
    {
      ghost var on := S.Inputs(d, db.enabledServers, job, nowNs, faults);
      result := S.Execute(db, list, d, job, nowNs, faults);
      ghost var e := S.ExecutionOf(on, old(S.WorldOf(db, list)), S.WorldOf(db, list), result);
      OneMoreExecuted(executions, e);
      executions := executions + [e];
    }

    /** Claims the job, loads it and opens its log row; the claim is given back on failure. */
    method Begin(db: Database, jobID: int, t: Times, faults: S.Faults) returns (admission: Admission)
      requires db.Valid()
      modifies this`running, db`runLogs, db`nextLogID
      ensures db.Valid()
      ensures admission.Refused? ==> running == old(running) && unchanged(db)
      ensures admission.Refused? ==> admission.result == if jobID in old(running) then SKIPPED else S.FAILED
      ensures admission.Admitted? <==>
        jobID !in old(running) && !faults.getJob && jobID in db.jobs && !faults.createLog
      ensures admission.Admitted? ==>
        && running == old(running) + {jobID}
        && admission.job == ReadJob(db.jobs[jobID])
        && admission.logID == old(db.nextLogID) && admission.logID !in old(db.runLogs)
        && db.nextLogID == old(db.nextLogID) + 1
        && db.runLogs == old(db.runLogs)[admission.logID := OpenLog(jobID, t)]
    {
      if jobID in running {
        return Refused(SKIPPED);
      }
      running := running + {jobID};
      var job := db.GetJob(jobID, faults.getJob);
      if job.None? {
        running := running - {jobID};
        return Refused(S.FAILED);
      }
      var logID := db.CreateRunLog(OpenLog(jobID, t), faults.createLog);
      if logID.None? {
        running := running - {jobID};
        return Refused(S.FAILED);
      }
      return Admitted(job.value, logID.value);
    }

    /**
     Closes the log row, notes the result on the job and gives the claim back. A job deleted in
     the meantime, and with it its rows, is no error.
     */
    method End(db: Database, jobID: int, logID: int, result: S.SyncResult, t: Times, faults: S.Faults)
      requires db.Valid()
      modifies this`running, db`runLogs, db`jobs
      ensures db.Valid()
      ensures running == old(running) - {jobID}
      ensures db.runLogs == LogsAfter(old(db.runLogs), logID, result, t, faults)
      ensures db.jobs == JobsAfter(old(db.jobs), jobID, result, faults)
    {
      db.UpdateRunLog(logID, Seconds(t.endNs), result.status, result.changesMade, faults.updateLog);
      db.UpdateJobLastRun(jobID, result.status, faults.updateJob);
      running := running - {jobID};
    }

    /**
     `Run`. A claimed job is skipped without touching anything, and a run that cannot load its
     job or open its log row fails without touching anything. Any other run executes the job
     and leaves exactly one new row behind: closed with the status it returns, or still marked
     running if the closing statement failed, an error the code does not look at. The claim is
     given back on every way out, and the runs of each job on one database form a chain.
     */
    method Run(db: Database, list: S.NetworkList, d: Dns, jobID: int, t: Times, faults: S.Faults)
      returns (result: S.SyncResult)
      requires Valid() && db.Valid()
      modifies this, db, list
      ensures Valid() && db.Valid() && running == old(running)
      ensures old(ChainEndsAt(db)) ==> ChainEndsAt(db)
      ensures var admitted := jobID !in old(running) && !faults.getJob && jobID in old(db.jobs) && !faults.createLog;
        && (!admitted ==>
              && result == (if jobID in old(running) then SKIPPED else S.FAILED)
              && unchanged(db) && unchanged(list) && executions == old(executions))
        && (admitted ==>
              && executions == old(executions) + [S.ExecutionOf(
                   S.Inputs(d, db.enabledServers, ReadJob(old(db.jobs)[jobID]), t.nowNs, faults),
                   old(S.WorldOf(db, list)), S.WorldOf(db, list), result)]
              && old(db.nextLogID) !in old(db.runLogs)
              && db.runLogs == old(db.runLogs)[old(db.nextLogID) := LogAfter(OpenLog(jobID, t), result, t, faults)]
              && db.jobs == JobsAfter(old(db.jobs), jobID, result, faults))
      ensures executions != old(executions) ==> ByStoredSettings(executions[|executions| - 1], old(db.jobs)[jobID])
    {
      var admission := Begin(db, jobID, t, faults);
      if admission.Refused? {
        return admission.result;
      }
      SettingsOfAdmitted(db.jobs[jobID]);
      result := Perform(db, list, d, admission.job, t.nowNs, faults);
      End(db, jobID, admission.logID, result, t, faults);
    }
  }

  ghost predicate AllExecuted(executions: seq<S.Execution>) {
    forall e :: e in executions ==> S.Executed(e)
  }

  lemma OneMoreExecuted(executions: seq<S.Execution>, e: S.Execution)
    requires AllExecuted(executions) && S.Executed(e)
    ensures AllExecuted(executions + [e])
    ensures H.AllChainsEndAt(executions, e.before.cache) ==> H.AllChainsEndAt(executions + [e], e.after.cache)
  {
    if H.AllChainsEndAt(executions, e.before.cache) {
      H.AllChainsExtend(executions, e);
    }
  }

  /** The retention, in nanoseconds, that a stored setting in hours asks for. */
  predicate AsksFor(hours: int, retention: int) {
    && (hours == 0 ==> retention == 0)
    && (hours < 0 ==> retention == 168 * 3_600_000_000_000)
    && (0 < hours <= 2_562_047 ==> retention == hours * 3_600_000_000_000)
  }

  /** The execution works for the stored job: its hostnames and list, and the retention it asks for. */
  ghost predicate ByStoredSettings(e: S.Execution, stored: SyncJob) {
    && e.run.job == stored.id && HoldsSettings(e.on.job, stored.id, stored)
    && AsksFor(stored.ttlHours, e.run.retention)
  }

  lemma SettingsOfAdmitted(stored: SyncJob)
    ensures HoldsSettings(ReadJob(stored), stored.id, stored)
    ensures AsksFor(stored.ttlHours, ObservedIPRetention(Some(ReadJob(stored))))
  {
    if stored.ttlHours < 0 {
      NegativeSettingMeansDefault(stored);
    } else {
      RetentionExactIff(stored);
    }
  }

  /** What an admitted run leaves in the tables, field by field. */
  lemma ClosingMeans(jobs: map<int, SyncJob>, jobID: int, result: S.SyncResult, t: Times, faults: S.Faults)
    ensures LogAfter(OpenLog(jobID, t), result, t, faults)
         == if faults.updateLog then RunLog(jobID, Seconds(t.startNs), None, Running, 0)
            else RunLog(jobID, Seconds(t.startNs), Some(Seconds(t.endNs)), result.status, result.changesMade)
    ensures var jobs' := JobsAfter(jobs, jobID, result, faults);
      && (forall id :: id in jobs' <==> id in jobs)
      && (forall id :: id in jobs && (id != jobID || faults.updateJob) ==> jobs'[id] == jobs[id])
      && (jobID in jobs && !faults.updateJob ==>
            var row, row' := jobs[jobID], jobs'[jobID];
            row' == SyncJob(row.id, row.networkListID, row.hostnames, row.schedule, row.ttlHours, row.enabled,
                            Some(result.status)))
  {
  }

  const SKIPPED := S.SyncResult(Skipped, 0)

  datatype Admission = Refused(result: S.SyncResult) | Admitted(job: SyncJob, logID: int)

  /** The clock readings of a run: before, inside and after `execute`. */
  datatype Times = Times(startNs: int, nowNs: int, endNs: int)

  function JobsAfter(jobs: map<int, SyncJob>, jobID: int, result: S.SyncResult, faults: S.Faults): map<int, SyncJob> {
    if faults.updateJob || jobID !in jobs then jobs
    else jobs[jobID := jobs[jobID].(lastResult := Some(result.status))]
  }

  function OpenLog(jobID: int, t: Times): RunLog {
    RunLog(jobID, Seconds(t.startNs), None, Running, 0)
  }

  /** The log row of a finished run. */
  function LogAfter(row: RunLog, result: S.SyncResult, t: Times, faults: S.Faults): RunLog {
    if faults.updateLog then row
    else row.(finishedAt := Some(Seconds(t.endNs)), status := result.status, changesMade := result.changesMade)
  }

  function LogsAfter(logs: map<int, RunLog>, logID: int, result: S.SyncResult, t: Times, faults: S.Faults):
    map<int, RunLog>
  {
    if logID in logs then logs[logID := LogAfter(logs[logID], result, t, faults)] else logs
  }

  // ----- All interleavings -----

  /** How far a run's goroutine got. From `Claimed` to `Closing` it holds its job's claim. */
  datatype Pc = Starting | Claimed | Loaded | Executing | Executed | Closing | Finished

  /** `log` is the row the run created, if it got that far. */
  datatype Run = Run(job: int, pc: Pc, log: Option<int>)

  /** `leftOpen` remembers the rows whose closing statement failed. */
  datatype State = State(claims: set<int>, runs: seq<Run>, rows: map<int, RunLog>, nextLogID: int, leftOpen: set<int>)

  datatype Action =
    | Spawn(job: int)
    | Claim(i: nat)
    | LoadJob(i: nat, ok: bool)
    | CreateLog(i: nat, ok: bool, startedAt: int)
    | Execute(i: nat)
    | CloseLog(i: nat, ok: bool, success: bool, changesMade: nat, finishedAt: int)
    | Release(i: nat)

  const INITIAL := State({}, [], map[], 1, {})

  predicate Holds(r: Run) {
    r.pc in {Claimed, Loaded, Executing, Executed, Closing}
  }

  function MoveTo(s: State, i: nat, pc: Pc): State
    requires i < |s.runs|
  {
    s.(runs := s.runs[i := s.runs[i].(pc := pc)])
  }

  /** An action that is not enabled changes nothing, so every action list is an interleaving. */
  function Step(s: State, a: Action): State {
    match a
    case Spawn(job) => s.(runs := s.runs + [Run(job, Starting, None)])
    case Claim(i) =>
      if i >= |s.runs| || !s.runs[i].pc.Starting? then s
      else if s.runs[i].job in s.claims then MoveTo(s, i, Finished)
      else MoveTo(s, i, Claimed).(claims := s.claims + {s.runs[i].job})
    case LoadJob(i, ok) =>
      if i >= |s.runs| || !s.runs[i].pc.Claimed? then s
      else MoveTo(s, i, if ok then Loaded else Closing)
    case CreateLog(i, ok, startedAt) =>
      if i >= |s.runs| || !s.runs[i].pc.Loaded? then s
      else if !ok then MoveTo(s, i, Closing)
      else s.(runs := s.runs[i := Run(s.runs[i].job, Executing, Some(s.nextLogID))],
              rows := s.rows[s.nextLogID := RunLog(s.runs[i].job, startedAt, None, Running, 0)],
              nextLogID := s.nextLogID + 1)
    case Execute(i) =>
      if i >= |s.runs| || !s.runs[i].pc.Executing? then s else MoveTo(s, i, Executed)
    case CloseLog(i, ok, success, changesMade, finishedAt) =>
      if i >= |s.runs| || !s.runs[i].pc.Executed? || s.runs[i].log.None? then s
      else
        var id := s.runs[i].log.value;
        var s' := MoveTo(s, i, Closing);
        if !ok then s'.(leftOpen := s.leftOpen + {id})
        else if id !in s.rows then s'
        else s'.(rows := s.rows[id := s.rows[id].(status := if success then Success else Error,
                                                  finishedAt := Some(finishedAt), changesMade := changesMade)])
    case Release(i) =>
      if i >= |s.runs| || !s.runs[i].pc.Closing? then s
      else MoveTo(s, i, Finished).(claims := s.claims - {s.runs[i].job})
  }

  function Reach(actions: seq<Action>): State {
    if actions == [] then INITIAL
    else Step(Reach(actions[..|actions| - 1]), actions[|actions| - 1])
  }

  /** The run is between creating its log row and closing it. */
  predicate Owns(r: Run, id: int) {
    r.log == Some(id) && (r.pc == Executing || r.pc == Executed)
  }

  ghost predicate ClaimInv(s: State) {
    && (forall i :: 0 <= i < |s.runs| && Holds(s.runs[i]) ==> s.runs[i].job in s.claims)
    && (forall job :: job in s.claims ==> Held(s.runs, job))
    && forall i, j :: 0 <= i < j < |s.runs| && Holds(s.runs[i]) && Holds(s.runs[j]) ==> s.runs[i].job != s.runs[j].job
  }

  ghost predicate LogInv(s: State) {
    && (forall id :: id in s.rows ==> id < s.nextLogID)
    && (forall i :: 0 <= i < |s.runs| ==> RowInv(s, s.runs[i]))
    && (forall i, j :: 0 <= i < j < |s.runs| && s.runs[i].log.Some? ==> s.runs[i].log != s.runs[j].log)
    && (forall id :: id in s.rows && s.rows[id].status == Running ==>
          id in s.leftOpen || Owned(s.runs, id))
    && forall id :: id in s.leftOpen ==> id in s.rows && s.rows[id].status == Running
  }

  ghost predicate RowInv(s: State, r: Run) {
    && (r.pc.Executing? || r.pc.Executed? ==> r.log.Some?)
    && (r.log.Some? ==> r.log.value in s.rows && s.rows[r.log.value].jobID == r.job)
    && (r.pc in {Starting, Claimed, Loaded} ==> r.log.None?)
    && forall id :: Owns(r, id) ==> s.rows[id].status == Running && id !in s.leftOpen
  }

  /** Some run of the job holds its claim. */
  ghost predicate Held(runs: seq<Run>, job: int) {
    exists i :: 0 <= i < |runs| && HolderAt(runs, i, job)
  }

  ghost predicate HolderAt(runs: seq<Run>, i: int, job: int)
    requires 0 <= i < |runs|
  {
    runs[i].job == job && Holds(runs[i])
  }

  lemma SpawnKeepsClaims(s: State, job: int)
    requires ClaimInv(s)
    ensures ClaimInv(Step(s, Spawn(job)))
  {
    var s' := Step(s, Spawn(job));
    forall j | j in s'.claims ensures Held(s'.runs, j) {
      var i :| 0 <= i < |s.runs| && HolderAt(s.runs, i, j);
      assert HolderAt(s'.runs, i, j);
    }
  }

  /** A run that moves on without taking or releasing its claim. */
  lemma MoveKeepsClaims(s: State, i: nat, r: Run)
    requires ClaimInv(s) && i < |s.runs| && r.job == s.runs[i].job && (Holds(r) <==> Holds(s.runs[i]))
    ensures ClaimInv(s.(runs := s.runs[i := r]))
  {
    var s' := s.(runs := s.runs[i := r]);
    forall j | j in s'.claims ensures Held(s'.runs, j) {
      var k :| 0 <= k < |s.runs| && HolderAt(s.runs, k, j);
      assert HolderAt(s'.runs, k, j);
    }
  }

  lemma ClaimKeepsClaims(s: State, i: nat)
    requires ClaimInv(s) && i < |s.runs| && s.runs[i].pc.Starting? && s.runs[i].job !in s.claims
    ensures ClaimInv(MoveTo(s, i, Claimed).(claims := s.claims + {s.runs[i].job}))
  {
    var s' := MoveTo(s, i, Claimed).(claims := s.claims + {s.runs[i].job});
    forall j | j in s'.claims ensures Held(s'.runs, j) {
      if j in s.claims {
        var k :| 0 <= k < |s.runs| && HolderAt(s.runs, k, j);
        assert HolderAt(s'.runs, k, j);
      } else {
        assert HolderAt(s'.runs, i, j);
      }
    }
  }

  lemma ReleaseKeepsClaims(s: State, i: nat)
    requires ClaimInv(s) && i < |s.runs| && s.runs[i].pc.Closing?
    ensures ClaimInv(MoveTo(s, i, Finished).(claims := s.claims - {s.runs[i].job}))
  {
    var s' := MoveTo(s, i, Finished).(claims := s.claims - {s.runs[i].job});
    forall j | j in s'.claims ensures Held(s'.runs, j) {
      var k :| 0 <= k < |s.runs| && HolderAt(s.runs, k, j);
      assert k != i;
      assert HolderAt(s'.runs, k, j);
    }
  }

  /** The claim invariant reads neither rows nor counters. */
  lemma ClaimsIgnoreRows(s: State, s': State)
    requires ClaimInv(s) && s'.claims == s.claims && s'.runs == s.runs
    ensures ClaimInv(s')
  {
  }

  lemma StepKeepsClaims(s: State, a: Action)
    requires ClaimInv(s)
    ensures ClaimInv(Step(s, a))
  {
    var s' := Step(s, a);
    if s' != s {
      match a
      case Spawn(job) => SpawnKeepsClaims(s, job);
      case Claim(i) =>
        if s.runs[i].job in s.claims {
          MoveKeepsClaims(s, i, s'.runs[i]);
        } else {
          ClaimKeepsClaims(s, i);
        }
      case Release(i) => ReleaseKeepsClaims(s, i);
      case _ =>
        MoveKeepsClaims(s, a.i, s'.runs[a.i]);
        ClaimsIgnoreRows(s.(runs := s.runs[a.i := s'.runs[a.i]]), s');
    }
  }

  predicate OwnsSome(r: Run) {
    r.pc == Executing || r.pc == Executed
  }

  ghost predicate Owned(runs: seq<Run>, id: int) {
    exists i :: 0 <= i < |runs| && Owns(runs[i], id)
  }

  /** A run that moves on without creating or closing its row. */
  lemma MoveKeepsLogs(s: State, i: nat, pc: Pc)
    requires LogInv(s) && i < |s.runs|
    requires (pc == Executing || pc == Executed) <==> OwnsSome(s.runs[i])
    requires pc in {Starting, Claimed, Loaded} ==> s.runs[i].log.None?
    ensures LogInv(MoveTo(s, i, pc))
  {
    var s' := MoveTo(s, i, pc);
    forall k | 0 <= k < |s'.runs| ensures RowInv(s', s'.runs[k]) {
      assert RowInv(s, s.runs[k]);
    }
    forall id | id in s'.rows && s'.rows[id].status == Running && id !in s'.leftOpen ensures Owned(s'.runs, id) {
      var k :| 0 <= k < |s.runs| && Owns(s.runs[k], id);
      assert Owns(s'.runs[k], id);
    }
  }

  lemma SpawnKeepsLogs(s: State, job: int)
    requires LogInv(s)
    ensures LogInv(Step(s, Spawn(job)))
  {
    var s' := Step(s, Spawn(job));
    forall k | 0 <= k < |s'.runs| ensures RowInv(s', s'.runs[k]) {
      if k < |s.runs| {
        assert RowInv(s, s.runs[k]);
      }
    }
    forall id | id in s'.rows && s'.rows[id].status == Running && id !in s'.leftOpen ensures Owned(s'.runs, id) {
      var k :| 0 <= k < |s.runs| && Owns(s.runs[k], id);
      assert Owns(s'.runs[k], id);
    }
  }

  lemma CreateKeepsLogs(s: State, i: nat, startedAt: int)
    requires LogInv(s) && i < |s.runs| && s.runs[i].pc.Loaded?
    ensures LogInv(Step(s, CreateLog(i, true, startedAt)))
  {
    var s' := Step(s, CreateLog(i, true, startedAt));
    assert RowInv(s, s.runs[i]);
    forall k | 0 <= k < |s'.runs| ensures RowInv(s', s'.runs[k]) && (k != i ==> s'.runs[k].log != s'.runs[i].log) {
      assert RowInv(s, s.runs[k]);
    }
    forall id | id in s'.rows && s'.rows[id].status == Running && id !in s'.leftOpen ensures Owned(s'.runs, id) {
      if id == s.nextLogID {
        assert Owns(s'.runs[i], id);
      } else {
        var k :| 0 <= k < |s.runs| && Owns(s.runs[k], id);
        assert Owns(s'.runs[k], id);
      }
    }
  }

  lemma CloseKeepsLogs(s: State, i: nat, ok: bool, success: bool, changesMade: nat, finishedAt: int)
    requires LogInv(s) && i < |s.runs| && s.runs[i].pc.Executed?
    ensures LogInv(Step(s, CloseLog(i, ok, success, changesMade, finishedAt)))
  {
    var s' := Step(s, CloseLog(i, ok, success, changesMade, finishedAt));
    assert RowInv(s, s.runs[i]);
    var mine := s.runs[i].log.value;
    assert Owns(s.runs[i], mine);
    forall k | 0 <= k < |s'.runs| ensures RowInv(s', s'.runs[k]) {
      assert RowInv(s, s.runs[k]);
      assert k != i ==> s.runs[k].log != s.runs[i].log;
    }
    forall id | id in s'.rows && s'.rows[id].status == Running && id !in s'.leftOpen ensures Owned(s'.runs, id) {
      var k :| 0 <= k < |s.runs| && Owns(s.runs[k], id);
      assert k != i;
      assert Owns(s'.runs[k], id);
    }
  }

  lemma LogsIgnoreClaims(s: State, s': State)
    requires LogInv(s) && s' == s.(claims := s'.claims)
    ensures LogInv(s')
  {
    forall k | 0 <= k < |s'.runs| ensures RowInv(s', s'.runs[k]) {
      assert RowInv(s, s.runs[k]);
    }
  }

  lemma StepKeepsLogs(s: State, a: Action)
    requires LogInv(s)
    ensures LogInv(Step(s, a))
  {
    var s' := Step(s, a);
    if s' != s {
      match a
      case Spawn(job) => SpawnKeepsLogs(s, job);
      case CreateLog(i, true, startedAt) => CreateKeepsLogs(s, i, startedAt);
      case CloseLog(i, ok, success, changesMade, finishedAt) =>
        CloseKeepsLogs(s, i, ok, success, changesMade, finishedAt);
      case _ =>
        assert RowInv(s, s.runs[a.i]);
        MoveKeepsLogs(s, a.i, s'.runs[a.i].pc);
        LogsIgnoreClaims(MoveTo(s, a.i, s'.runs[a.i].pc), s');
    }
  }

  lemma {:induction false} ReachKeepsInv(actions: seq<Action>)
    ensures ClaimInv(Reach(actions)) && LogInv(Reach(actions))
  {
    if actions == [] {
    } else {
      var s := Reach(actions[..|actions| - 1]);
      ReachKeepsInv(actions[..|actions| - 1]);
      StepKeepsClaims(s, actions[|actions| - 1]);
      StepKeepsLogs(s, actions[|actions| - 1]);
    }
  }

  /**
   A job is claimed exactly while one run is between its claim and its release, and then that
   run is the only one, so two runs of a job never execute at the same time.
   */
  lemma ClaimMeansOneHolder(actions: seq<Action>, job: int)
    ensures var s := Reach(actions);
      && (job in s.claims <==> Held(s.runs, job))
      && forall i, j | 0 <= i < j < |s.runs| :: !(HolderAt(s.runs, i, job) && HolderAt(s.runs, j, job))
  {
    ReachKeepsInv(actions);
  }

  /**
   A row says "running" exactly if some run created it and has not closed it yet, or if the
   statement that should have closed it failed; in the first case that run is the one that now
   holds the claim of the row's job.
   */
  lemma RunningRowsBelongToTheHolder(actions: seq<Action>, id: int)
    requires id in Reach(actions).rows
    ensures var s := Reach(actions);
      && (s.rows[id].status == Running <==> id in s.leftOpen || Owned(s.runs, id))
      && forall i :: 0 <= i < |s.runs| && Owns(s.runs[i], id) ==>
           HolderAt(s.runs, i, s.rows[id].jobID) && s.rows[id].jobID in s.claims
  {
    ReachKeepsInv(actions);
    var s := Reach(actions);
    forall i | 0 <= i < |s.runs| && Owns(s.runs[i], id)
      ensures s.rows[id].status == Running && s.runs[i].job == s.rows[id].jobID
    {
      assert RowInv(s, s.runs[i]);
    }
  }

  /** A finished run has closed its own row unless that statement failed. */
  lemma FinishedRunsClosedTheirRows(actions: seq<Action>, i: nat)
    requires i < |Reach(actions).runs| && Reach(actions).runs[i].pc.Finished? && Reach(actions).runs[i].log.Some?
    ensures var s := Reach(actions); var id := s.runs[i].log.value;
      id in s.rows && (s.rows[id].status == Running <==> id in s.leftOpen)
  {
    ReachKeepsInv(actions);
    var s := Reach(actions);
    var id := s.runs[i].log.value;
    assert RowInv(s, s.runs[i]);
    forall j | 0 <= j < |s.runs| ensures !Owns(s.runs[j], id) {
      if j != i {
        assert s.runs[j].log != s.runs[i].log;
      }
    }
    assert !Owned(s.runs, id);
  }

  /** With every store write succeeding no row is ever left open. */
  lemma {:induction false} NothingLeftOpenWithoutFaults(actions: seq<Action>)
    requires forall a :: a in actions && a.CloseLog? ==> a.ok
    ensures Reach(actions).leftOpen == {}
  {
    if actions == [] {
    } else {
      var init, last := actions[..|actions| - 1], actions[|actions| - 1];
      assert last in actions && forall a :: a in init ==> a in actions;
      NothingLeftOpenWithoutFaults(init);
    }
  }

  // ----- One uninterrupted run -----

  /** A run whose steps nothing interrupts; `loads` says whether its job can be read. */
  function Alone(s: State, job: int, loads: bool, result: S.SyncResult, t: Times, faults: S.Faults): State {
    var i := |s.runs|;
    var s1 := Step(Step(Step(s, Spawn(job)), Claim(i)), LoadJob(i, loads));
    var s2 := Step(Step(s1, CreateLog(i, !faults.createLog, Seconds(t.startNs))), Execute(i));
    Step(Step(s2, CloseLog(i, !faults.updateLog, result.status == Success, result.changesMade, Seconds(t.endNs))),
         Release(i))
  }

  /** What an uninterrupted run leaves: the same claims, and its new row if it got that far. */
  ghost predicate Leaves(s: State, s': State, row: Option<RunLog>) {
    && s'.claims == s.claims
    && |s'.runs| == |s.runs| + 1 && s'.runs[|s.runs|].pc.Finished?
    && match row
       case None => s'.rows == s.rows && s'.nextLogID == s.nextLogID
       case Some(log) => s'.rows == s.rows[s.nextLogID := log] && s'.nextLogID == s.nextLogID + 1
  }

  lemma AloneSkipped(s: State, job: int, loads: bool, result: S.SyncResult, t: Times, faults: S.Faults)
    requires job in s.claims
    ensures Leaves(s, Alone(s, job, loads, result, t, faults), None)
  {
  }

  lemma AloneRefused(s: State, job: int, loads: bool, result: S.SyncResult, t: Times, faults: S.Faults)
    requires job !in s.claims && (!loads || faults.createLog)
    ensures Leaves(s, Alone(s, job, loads, result, t, faults), None)
  {
    assert s.claims + {job} - {job} == s.claims;
    var i := |s.runs|;
    var s3 := Step(Step(Step(s, Spawn(job)), Claim(i)), LoadJob(i, loads));
    assert s3.runs[i].pc == if loads then Loaded else Closing;
  }

  lemma AloneAdmitted(s: State, job: int, result: S.SyncResult, t: Times, faults: S.Faults)
    requires job !in s.claims && !faults.createLog && (result.status == Success || result == S.FAILED)
    ensures Leaves(s, Alone(s, job, true, result, t, faults), Some(LogAfter(OpenLog(job, t), result, t, faults)))
  {
    assert s.claims + {job} - {job} == s.claims;
    var i := |s.runs|;
    var s3 := Step(Step(Step(s, Spawn(job)), Claim(i)), LoadJob(i, true));
    var s5 := Step(Step(s3, CreateLog(i, true, Seconds(t.startNs))), Execute(i));
    assert s5.runs[i] == Run(job, Executed, Some(s.nextLogID));
    assert s5.rows == s.rows[s.nextLogID := OpenLog(job, t)] && s5.nextLogID == s.nextLogID + 1;
  }

  /**
   The steps of an uninterrupted run do to claims and rows what `Syncer.Run` is proved to do: a
   claimed job is skipped, a run that cannot load its job or create its row leaves nothing, and
   any other leaves one new row as `LogAfter` describes it.
   */
  lemma AloneMatchesRun(s: State, job: int, loads: bool, result: S.SyncResult, t: Times, faults: S.Faults)
    requires result.status == Success || result == S.FAILED
    ensures var admitted := job !in s.claims && loads && !faults.createLog;
      Leaves(s, Alone(s, job, loads, result, t, faults),
             if admitted then Some(LogAfter(OpenLog(job, t), result, t, faults)) else None)
  {
    if job in s.claims {
      AloneSkipped(s, job, loads, result, t, faults);
    } else if !loads || faults.createLog {
      AloneRefused(s, job, loads, result, t, faults);
    } else {
      AloneAdmitted(s, job, result, t, faults);
    }
  }
}
