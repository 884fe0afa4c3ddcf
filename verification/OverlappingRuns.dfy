/**
 Runs as they really overlap: scheduled and manual runs of all jobs, interleaved statement by
 statement (internal/syncer/syncer.go:34-147, internal/store/store.go:476-536; internal/web/handler.go:419
 starts one goroutine per request). The claims are those of `RunExclusion`; what an executing run
 does to the cache and to its list is spelled out step by step.
 */
module OverlappingRuns {
  import E = RunExclusion
  import opened NetworkLists
  import opened RetentionWindow
  import opened RunHistory
  import opened Store
  import opened Syncer
  import opened Wrappers

  /** What an executing run has left to do: cache statements, or its list with the cache it read. */
  datatype Stage = Caching(pending: seq<Statement>) | Pushing(cache: ObservedTable)

  /** A run inside `execute`; `start` is the cache when it began. */
  datatype Work = Work(on: Inputs, run: RunRecord, start: ObservedTable, stage: Stage)

  /** A list on the controller and the number of PUT requests made for it. */
  datatype ListState = ListState(items: seq<TrafficMatchItem>, puts: nat)

  /** `working` holds the runs inside `execute`, `executions` those that left it, in that order. */
  datatype State = State(
    base: E.State, working: map<nat, Work>, cache: ObservedTable, lists: map<int, ListState>,
    executions: seq<Execution>, clock: int)

  /** `Edit` is anybody else changing a job's list. */
  datatype Action =
    | Claims(a: E.Action)
    | Begin(i: nat, on: Inputs, resolved: Option<map<string, string>>)
    | NextStatement(i: nat)
    | ReadCache(i: nat)
    | Push(i: nat, list: ListState, result: SyncResult)
    | Edit(job: int, items: seq<TrafficMatchItem>)

  function Init(t: ObservedTable): State {
    State(E.INITIAL, map[], t, map[], [], 0)
  }

  function ListOf(s: State, job: int): ListState {
    if job in s.lists then s.lists[job] else ListState([], 0)
  }

  /** A run that may enter `execute` now: it has its log row, and the clock has not run back. */
  predicate MayBegin(s: State, i: nat, on: Inputs) {
    && i < |s.base.runs| && s.base.runs[i].pc.Executing? && i !in s.working
    && on.job.id == s.base.runs[i].job && on.nowNs >= s.clock
  }

  /** The execution that ends with the given list and result. */
  function Completed(s: State, w: Work, list: ListState, result: SyncResult): Execution
    requires w.stage.Pushing?
  {
    var before := ListOf(s, w.run.job);
    Execution(w.on, w.run, World(w.start, before.items, before.puts),
              World(w.stage.cache, list.items, list.puts), result)
  }

  /** The run leaves `execute`. */
  function Leave(s: State, i: nat, list: ListState, result: SyncResult): State
    requires i in s.working && s.working[i].stage.Pushing?
  {
    s.(base := E.Step(s.base, E.Execute(i)),
       working := s.working - {i},
       lists := s.lists[s.working[i].run.job := list],
       executions := s.executions + [Completed(s, s.working[i], list, result)])
  }

  ghost predicate MayPush(s: State, i: nat, list: ListState, result: SyncResult) {
    i in s.working && s.working[i].stage.Pushing? && ListStage(Completed(s, s.working[i], list, result))
  }

  /** An action that is not enabled changes nothing, so every action list is an interleaving. */
  ghost function Step(s: State, a: Action): State {
    match a
    case Claims(b) =>
      // Leaving `execute` is the effect of `Push`.
      if b.Execute? then s else s.(base := E.Step(s.base, b))
    case Begin(i, on, resolved) =>
      if !MayBegin(s, i, on) then s
      else
        var run := RecordWith(on, resolved);
        s.(working := s.working[i := Work(on, run, s.cache, Caching(StatementsOf(EventOfRun(run))))],
           clock := on.nowNs)
    case NextStatement(i) =>
      if !(i in s.working && s.working[i].stage.Caching? && s.working[i].stage.pending != []) then s
      else
        var w := s.working[i];
        s.(cache := RunStatement(s.cache, w.run.job, w.stage.pending[0]),
           working := s.working[i := w.(stage := Caching(w.stage.pending[1..]))])
    case ReadCache(i) =>
      if !(i in s.working && s.working[i].stage == Caching([])) then s
      else s.(working := s.working[i := s.working[i].(stage := Pushing(s.cache))])
    case Push(i, list, result) =>
      if MayPush(s, i, list, result) then Leave(s, i, list, result) else s
    case Edit(job, items) =>
      s.(lists := s.lists[job := ListOf(s, job).(items := items)])
  }

  ghost function Reach(t: ObservedTable, actions: seq<Action>): State {
    if actions == [] then Init(t)
    else Step(Reach(t, actions[..|actions| - 1]), actions[|actions| - 1])
  }

  // ----- The invariant -----

  /** The job's rows now, once the run's pending statements are done, are those its one event gives. */
  ghost predicate OnTrack(cache: ObservedTable, w: Work) {
    match w.stage
    case Caching(pending) =>
      SameRows(RunStatements(cache, w.run.job, pending), Apply(w.start, w.run.job, EventOfRun(w.run)), w.run.job)
    case Pushing(seen) =>
      && SameRows(seen, Apply(w.start, w.run.job, EventOfRun(w.run)), w.run.job)
      && SameRows(cache, seen, w.run.job)
  }

  /** A run inside `execute` is one that the claim machine says is executing. */
  ghost predicate WorkInv(s: State, i: nat)
    requires i in s.working
  {
    var w := s.working[i];
    && i < |s.base.runs| && s.base.runs[i].pc.Executing? && s.base.runs[i].job == w.run.job
    && w.run == RecordWith(w.on, w.run.resolved) && w.run.nowNs <= s.clock
    && OnTrack(s.cache, w)
  }

  /** The job has a run inside `execute`. */
  ghost predicate Busy(s: State, job: int) {
    exists i :: i in s.working && s.working[i].run.job == job
  }

  /** The job's chain so far began at `t`, and `cache` has the rows it ended with, none of it after `now`. */
  ghost predicate ChainTo(t: ObservedTable, own: seq<Execution>, job: int, cache: ObservedTable, now: int) {
    && EndsAt(own, job, cache)
    && ClockAdvances(RecordsOf(own))
    && (forall k :: 0 <= k < |own| ==> RecordsOf(own)[k].nowNs <= now)
    && SameRows(if own == [] then cache else own[0].before.cache, t, job)
    && forall k :: 0 <= k < |own| ==> ListStageAt(own, k)
  }

  ghost predicate JobInv(t: ObservedTable, s: State, job: int) {
    var own := OwnRuns(s.executions, job);
    && (!Busy(s, job) ==> ChainTo(t, own, job, s.cache, s.clock))
    && forall i :: i in s.working && s.working[i].run.job == job ==>
         ChainTo(t, own, job, s.working[i].start, s.working[i].run.nowNs)
  }

  ghost predicate Inv(t: ObservedTable, s: State) {
    && E.ClaimInv(s.base)
    && (forall i :: i in s.working ==> WorkInv(s, i))
    && forall job :: JobInv(t, s, job)
  }

  /** The claims keep two runs of a job from being inside `execute` together. */
  lemma OneAtATime(t: ObservedTable, s: State, i: nat, j: nat)
    requires Inv(t, s) && i < |s.base.runs| && s.base.runs[i].pc.Executing?
    requires j in s.working && s.working[j].run.job == s.base.runs[i].job
    ensures i == j
  {
    assert WorkInv(s, j);
    assert E.Holds(s.base.runs[i]) && E.Holds(s.base.runs[j]);
  }

  lemma ChainGoesTo(t: ObservedTable, own: seq<Execution>, job: int, cache: ObservedTable, cache': ObservedTable,
                    now: int, now': int)
    requires ChainTo(t, own, job, cache, now) && SameRows(cache', cache, job) && now <= now'
    ensures ChainTo(t, own, job, cache', now')
  {
    ChainGoesOn(own, job, cache, cache');
    if own == [] {
      SameRowsTransitive(cache', cache, t, job);
    }
  }

  lemma ChainGrows(t: ObservedTable, own: seq<Execution>, job: int, e: Execution)
    requires ChainTo(t, own, job, e.before.cache, e.run.nowNs) && OwnRun(e, job) && ListStage(e)
    ensures ChainTo(t, own + [e], job, e.after.cache, e.run.nowNs)
  {
    ChainExtends(own, job, e);
    ClockGrows(own, e);
    ListStagesGrow(own, e);
  }

  lemma ClockGrows(own: seq<Execution>, e: Execution)
    requires ClockAdvances(RecordsOf(own))
    requires forall k :: 0 <= k < |own| ==> RecordsOf(own)[k].nowNs <= e.run.nowNs
    ensures ClockAdvances(RecordsOf(own + [e]))
    ensures forall k :: 0 <= k <= |own| ==> RecordsOf(own + [e])[k].nowNs <= e.run.nowNs
  {
    assert RecordsOf(own + [e]) == RecordsOf(own) + [e.run];
  }

  lemma ListStagesGrow(own: seq<Execution>, e: Execution)
    requires ListStage(e) && forall k :: 0 <= k < |own| ==> ListStageAt(own, k)
    ensures forall k :: 0 <= k <= |own| ==> ListStageAt(own + [e], k)
  {
    forall k | 0 <= k <= |own| ensures ListStageAt(own + [e], k) {
      assert k < |own| ==> ListStageAt(own, k);
    }
  }

  // ----- Every step keeps it -----

  /** A step of the claim machine other than leaving `execute` moves no executing run. */
  lemma ExecutingStays(s: E.State, a: E.Action, i: nat)
    requires !a.Execute? && i < |s.runs| && s.runs[i].pc.Executing?
    ensures i < |E.Step(s, a).runs| && E.Step(s, a).runs[i] == s.runs[i]
  {
  }

  lemma ClaimsKeepInv(t: ObservedTable, s: State, a: E.Action)
    requires Inv(t, s) && !a.Execute?
    ensures Inv(t, s.(base := E.Step(s.base, a)))
  {
    var s' := s.(base := E.Step(s.base, a));
    E.StepKeepsClaims(s.base, a);
    forall i | i in s'.working ensures WorkInv(s', i) {
      assert WorkInv(s, i);
      ExecutingStays(s.base, a, i);
    }
    forall job ensures JobInv(t, s', job) {
      assert JobInv(t, s, job);
      assert Busy(s', job) <==> Busy(s, job);
    }
  }

  lemma BeginsOnTrack(t: ObservedTable, run: RunRecord, on: Inputs)
    ensures OnTrack(t, Work(on, run, t, Caching(StatementsOf(EventOfRun(run)))))
  {
    StatementsOfOneRun(t, run.job, EventOfRun(run));
  }

  lemma BeginKeepsWork(t: ObservedTable, s: State, i: nat, on: Inputs, resolved: Option<map<string, string>>)
    requires Inv(t, s) && MayBegin(s, i, on)
    ensures var s' := Step(s, Begin(i, on, resolved)); forall j :: j in s'.working ==> WorkInv(s', j)
  {
    var s' := Step(s, Begin(i, on, resolved));
    BeginsOnTrack(s.cache, RecordWith(on, resolved), on);
    forall j | j in s'.working ensures WorkInv(s', j) {
      assert j != i ==> WorkInv(s, j);
    }
  }

  /** The job of a run that may begin has no run inside `execute`. */
  lemma IdleBeforeBegin(t: ObservedTable, s: State, i: nat, on: Inputs)
    requires Inv(t, s) && MayBegin(s, i, on)
    ensures !Busy(s, on.job.id)
  {
    if j :| j in s.working && s.working[j].run.job == on.job.id {
      OneAtATime(t, s, i, j);
    }
  }

  lemma BeginKeepsInv(t: ObservedTable, s: State, i: nat, on: Inputs, resolved: Option<map<string, string>>)
    requires Inv(t, s) && MayBegin(s, i, on)
    ensures Inv(t, Step(s, Begin(i, on, resolved)))
  {
    var s' := Step(s, Begin(i, on, resolved));
    BeginKeepsWork(t, s, i, on, resolved);
    IdleBeforeBegin(t, s, i, on);
    forall job ensures JobInv(t, s', job) {
      assert JobInv(t, s, job);
      if job == on.job.id {
        OwnJobBegins(t, s, i, on, resolved);
      } else {
        BeginOnlyMoves(s, i, on, resolved, job);
        OtherJobStays(t, s, s', i, job);
      }
    }
  }

  lemma BeginOnlyMoves(s: State, i: nat, on: Inputs, resolved: Option<map<string, string>>, job: int)
    requires MayBegin(s, i, on) && job != on.job.id
    ensures OnlyRun(s, Step(s, Begin(i, on, resolved)), i, job)
  {
  }

  lemma OwnJobBegins(t: ObservedTable, s: State, i: nat, on: Inputs, resolved: Option<map<string, string>>)
    requires JobInv(t, s, on.job.id) && !Busy(s, on.job.id) && MayBegin(s, i, on)
    ensures JobInv(t, Step(s, Begin(i, on, resolved)), on.job.id)
  {
    var s' := Step(s, Begin(i, on, resolved));
    assert s'.working[i].run.job == on.job.id;
    ChainGoesTo(t, OwnRuns(s.executions, on.job.id), on.job.id, s.cache, s.cache, s.clock, on.nowNs);
  }

  /** Changing one run's entry in `working` does not make another job busy or idle. */
  lemma SameBusyOthers(s: State, s': State, i: nat, job: int)
    requires forall j :: j != i ==> (j in s'.working <==> j in s.working)
    requires forall j :: j != i && j in s.working ==> s'.working[j] == s.working[j]
    requires i in s.working ==> s.working[i].run.job != job
    requires i in s'.working ==> s'.working[i].run.job != job
    ensures Busy(s', job) <==> Busy(s, job)
  {
    if Busy(s, job) {
      var j :| j in s.working && s.working[j].run.job == job;
      assert j in s'.working && s'.working[j].run.job == job;
    }
    if Busy(s', job) {
      var j :| j in s'.working && s'.working[j].run.job == job;
      assert j in s.working && s.working[j].run.job == job;
    }
  }

  /** `s'` differs from `s` at most in run `i`, in the rows of its job, and in a later clock. */
  ghost predicate OnlyRun(s: State, s': State, i: nat, job: int) {
    && (forall j :: j != i ==> (j in s'.working <==> j in s.working))
    && (forall j :: j != i && j in s.working ==> s'.working[j] == s.working[j])
    && (i in s.working ==> s.working[i].run.job != job)
    && (i in s'.working ==> s'.working[i].run.job != job)
    && OwnRuns(s'.executions, job) == OwnRuns(s.executions, job)
    && SameRows(s'.cache, s.cache, job)
    && s.clock <= s'.clock
  }

  lemma OtherJobStays(t: ObservedTable, s: State, s': State, i: nat, job: int)
    requires JobInv(t, s, job) && OnlyRun(s, s', i, job)
    ensures JobInv(t, s', job)
  {
    SameBusyOthers(s, s', i, job);
    if !Busy(s, job) {
      ChainGoesTo(t, OwnRuns(s.executions, job), job, s.cache, s'.cache, s.clock, s'.clock);
    }
  }

  /** A statement of the run itself brings it one step on; one of another job leaves it where it is. */
  lemma StatementOnTrack(cache: ObservedTable, w: Work)
    requires OnTrack(cache, w) && w.stage.Caching? && w.stage.pending != []
    ensures OnTrack(RunStatement(cache, w.run.job, w.stage.pending[0]), w.(stage := Caching(w.stage.pending[1..])))
  {
    FirstStatement(cache, w.run.job, w.stage.pending);
  }

  lemma OthersStayOnTrack(cache: ObservedTable, cache': ObservedTable, w: Work)
    requires OnTrack(cache, w) && SameRows(cache', cache, w.run.job)
    ensures OnTrack(cache', w)
  {
    var goal := Apply(w.start, w.run.job, EventOfRun(w.run));
    match w.stage
    case Caching(pending) =>
      StatementsAreLocal(cache', cache, w.run.job, pending);
      SameRowsTransitive(RunStatements(cache', w.run.job, pending), RunStatements(cache, w.run.job, pending), goal,
                         w.run.job);
    case Pushing(seen) =>
      SameRowsTransitive(cache', cache, seen, w.run.job);
  }

  lemma StatementKeepsWork(t: ObservedTable, s: State, i: nat, j: nat)
    requires Inv(t, s) && i in s.working && s.working[i].stage.Caching? && s.working[i].stage.pending != []
    requires j in s.working
    ensures WorkInv(Step(s, NextStatement(i)), j)
  {
    var s', w := Step(s, NextStatement(i)), s.working[i];
    assert WorkInv(s, i) && WorkInv(s, j);
    if j == i {
      StatementOnTrack(s.cache, w);
    } else {
      NoOtherWorking(t, s, i);
      StatementIsLocal(s.cache, s.cache, s.working[j].run.job, w.run.job, w.stage.pending[0]);
      OthersStayOnTrack(s.cache, s'.cache, s.working[j]);
    }
  }

  lemma StatementKeepsInv(t: ObservedTable, s: State, i: nat)
    requires Inv(t, s) && i in s.working && s.working[i].stage.Caching? && s.working[i].stage.pending != []
    ensures Inv(t, Step(s, NextStatement(i)))
  {
    var s' := Step(s, NextStatement(i));
    forall j | j in s'.working ensures WorkInv(s', j) {
      StatementKeepsWork(t, s, i, j);
    }
    forall job ensures JobInv(t, s', job) {
      assert JobInv(t, s, job);
      StatementKeepsJob(t, s, i, job);
    }
  }

  lemma StatementOnlyMoves(s: State, i: nat)
    requires i in s.working && s.working[i].stage.Caching? && s.working[i].stage.pending != []
    ensures SameRuns(s, Step(s, NextStatement(i)))
    ensures forall job :: job != s.working[i].run.job ==> OnlyRun(s, Step(s, NextStatement(i)), i, job)
  {
    var w := s.working[i];
    forall job | job != w.run.job ensures SameRows(RunStatement(s.cache, w.run.job, w.stage.pending[0]), s.cache, job) {
      StatementIsLocal(s.cache, s.cache, job, w.run.job, w.stage.pending[0]);
    }
  }

  lemma StatementKeepsJob(t: ObservedTable, s: State, i: nat, job: int)
    requires JobInv(t, s, job) && i in s.working && s.working[i].stage.Caching? && s.working[i].stage.pending != []
    ensures JobInv(t, Step(s, NextStatement(i)), job)
  {
    StatementOnlyMoves(s, i);
    if job == s.working[i].run.job {
      OwnJobGoesOn(t, s, Step(s, NextStatement(i)), i);
    } else {
      OtherJobStays(t, s, Step(s, NextStatement(i)), i, job);
    }
  }

  /** The same runs are inside `execute`, and none has left it. */
  ghost predicate SameRuns(s: State, s': State) {
    && s'.executions == s.executions
    && (forall j :: j in s'.working <==> j in s.working)
    && forall j :: j in s.working ==> s'.working[j].run == s.working[j].run && s'.working[j].start == s.working[j].start
  }

  /** While its run goes on, the job's chain stays where that run began. */
  lemma OwnJobGoesOn(t: ObservedTable, s: State, s': State, i: nat)
    requires i in s.working && JobInv(t, s, s.working[i].run.job) && SameRuns(s, s')
    ensures JobInv(t, s', s.working[i].run.job)
  {
    var job := s.working[i].run.job;
    assert i in s'.working && s'.working[i].run.job == job;
    forall j | j in s'.working && s'.working[j].run.job == job
      ensures ChainTo(t, OwnRuns(s'.executions, job), job, s'.working[j].start, s'.working[j].run.nowNs)
    {
      assert j in s.working && s.working[j].run.job == job;
    }
  }

  lemma ReadKeepsWork(s: State, i: nat, j: nat)
    requires i in s.working && s.working[i].stage == Caching([]) && j in s.working && WorkInv(s, j)
    ensures WorkInv(Step(s, ReadCache(i)), j)
  {
  }

  lemma ReadKeepsInv(t: ObservedTable, s: State, i: nat)
    requires Inv(t, s) && i in s.working && s.working[i].stage == Caching([])
    ensures Inv(t, Step(s, ReadCache(i)))
  {
    var s' := Step(s, ReadCache(i));
    forall j | j in s'.working ensures WorkInv(s', j) {
      ReadKeepsWork(s, i, j);
    }
    forall job ensures JobInv(t, s', job) {
      assert JobInv(t, s, job);
      ReadKeepsJob(t, s, i, job);
    }
  }

  lemma ReadOnlyMoves(s: State, i: nat)
    requires i in s.working && s.working[i].stage == Caching([])
    ensures SameRuns(s, Step(s, ReadCache(i)))
    ensures forall job :: job != s.working[i].run.job ==> OnlyRun(s, Step(s, ReadCache(i)), i, job)
  {
  }

  lemma ReadKeepsJob(t: ObservedTable, s: State, i: nat, job: int)
    requires JobInv(t, s, job) && i in s.working && s.working[i].stage == Caching([])
    ensures JobInv(t, Step(s, ReadCache(i)), job)
  {
    ReadOnlyMoves(s, i);
    if job == s.working[i].run.job {
      OwnJobGoesOn(t, s, Step(s, ReadCache(i)), i);
    } else {
      OtherJobStays(t, s, Step(s, ReadCache(i)), i, job);
    }
  }

  lemma CompletedIsOwnRun(s: State, w: Work, list: ListState, result: SyncResult)
    requires w.stage.Pushing? && w.run == RecordWith(w.on, w.run.resolved) && OnTrack(s.cache, w)
    ensures OwnRun(Completed(s, w, list, result), w.run.job)
  {
  }

  lemma LeaveKeepsOther(s: State, i: nat, list: ListState, result: SyncResult, j: nat)
    requires i in s.working && s.working[i].stage.Pushing? && j in s.working && j != i && WorkInv(s, j)
    ensures WorkInv(Leave(s, i, list, result), j)
  {
  }

  lemma LeaveKeepsWork(t: ObservedTable, s: State, i: nat, list: ListState, result: SyncResult)
    requires Inv(t, s) && i in s.working && s.working[i].stage.Pushing?
    ensures var s' := Leave(s, i, list, result); E.ClaimInv(s'.base) && forall j :: j in s'.working ==> WorkInv(s', j)
  {
    E.StepKeepsClaims(s.base, E.Execute(i));
    forall j | j in s.working && j != i ensures WorkInv(Leave(s, i, list, result), j) {
      LeaveKeepsOther(s, i, list, result, j);
    }
  }

  lemma PushKeepsInv(t: ObservedTable, s: State, i: nat, list: ListState, result: SyncResult)
    requires Inv(t, s) && i in s.working && s.working[i].stage.Pushing?
    requires ListStage(Completed(s, s.working[i], list, result))
    ensures Inv(t, Leave(s, i, list, result))
  {
    LeaveKeepsWork(t, s, i, list, result);
    forall job ensures JobInv(t, Leave(s, i, list, result), job) {
      assert JobInv(t, s, job);
      if job == s.working[i].run.job {
        IdleAfterPush(t, s, i, list, result);
        ChainAfterPush(t, s, i, list, result);
      } else {
        OtherJobsSeePush(t, s, i, list, result, job);
      }
    }
  }

  lemma OtherJobsSeePush(t: ObservedTable, s: State, i: nat, list: ListState, result: SyncResult, job: int)
    requires JobInv(t, s, job) && i in s.working && s.working[i].stage.Pushing? && job != s.working[i].run.job
    ensures JobInv(t, Leave(s, i, list, result), job)
  {
    PushOnlyMoves(s, i, list, result, job);
    OtherJobStays(t, s, Leave(s, i, list, result), i, job);
  }

  lemma PushOnlyMoves(s: State, i: nat, list: ListState, result: SyncResult, job: int)
    requires i in s.working && s.working[i].stage.Pushing? && job != s.working[i].run.job
    ensures OnlyRun(s, Leave(s, i, list, result), i, job)
  {
    OwnRunsSnoc(s.executions, Completed(s, s.working[i], list, result), job);
  }

  lemma IdleAfterPush(t: ObservedTable, s: State, i: nat, list: ListState, result: SyncResult)
    requires Inv(t, s) && i in s.working && s.working[i].stage.Pushing?
    ensures !Busy(Leave(s, i, list, result), s.working[i].run.job)
  {
    NoOtherWorking(t, s, i);
  }

  lemma NoOtherWorking(t: ObservedTable, s: State, i: nat)
    requires Inv(t, s) && i in s.working
    ensures forall j :: j in s.working && j != i ==> s.working[j].run.job != s.working[i].run.job
  {
    assert WorkInv(s, i);
    forall j | j in s.working && s.working[j].run.job == s.working[i].run.job ensures j == i {
      OneAtATime(t, s, i, j);
    }
  }

  lemma ChainAfterPush(t: ObservedTable, s: State, i: nat, list: ListState, result: SyncResult)
    requires Inv(t, s) && i in s.working && s.working[i].stage.Pushing?
    requires ListStage(Completed(s, s.working[i], list, result))
    ensures var job, s' := s.working[i].run.job, Leave(s, i, list, result);
      ChainTo(t, OwnRuns(s'.executions, job), job, s'.cache, s'.clock)
  {
    var w := s.working[i];
    var job, e, own := w.run.job, Completed(s, w, list, result), OwnRuns(s.executions, w.run.job);
    assert WorkInv(s, i) && JobInv(t, s, job);
    OwnRunsSnoc(s.executions, e, job);
    CompletedIsOwnRun(s, w, list, result);
    ChainGrows(t, own, job, e);
    ChainGoesTo(t, own + [e], job, e.after.cache, s.cache, e.run.nowNs, s.clock);
  }

  lemma EditKeepsInv(t: ObservedTable, s: State, lists: map<int, ListState>)
    requires Inv(t, s)
    ensures Inv(t, s.(lists := lists))
  {
    var s' := s.(lists := lists);
    forall i | i in s'.working ensures WorkInv(s', i) {
      assert WorkInv(s, i);
    }
    forall job ensures JobInv(t, s', job) {
      assert JobInv(t, s, job);
      assert Busy(s', job) <==> Busy(s, job);
    }
  }

  lemma StepKeepsInv(t: ObservedTable, s: State, a: Action)
    requires Inv(t, s)
    ensures Inv(t, Step(s, a))
  {
    match a
    case Claims(b) =>
      if !b.Execute? {
        ClaimsKeepInv(t, s, b);
      }
    case Begin(i, on, resolved) =>
      if MayBegin(s, i, on) {
        BeginKeepsInv(t, s, i, on, resolved);
      }
    case NextStatement(i) =>
      if i in s.working && s.working[i].stage.Caching? && s.working[i].stage.pending != [] {
        StatementKeepsInv(t, s, i);
      }
    case ReadCache(i) =>
      if i in s.working && s.working[i].stage == Caching([]) {
        ReadKeepsInv(t, s, i);
      }
    case Push(i, list, result) =>
      if MayPush(s, i, list, result) {
        PushKeepsInv(t, s, i, list, result);
      }
    case Edit(job, items) => EditKeepsInv(t, s, s.lists[job := ListOf(s, job).(items := items)]);
  }

  lemma InitHasInv(t: ObservedTable)
    ensures Inv(t, Init(t))
  {
    var s := Init(t);
    forall job ensures JobInv(t, s, job) {
      assert OwnRuns([], job) == [];
    }
  }

  lemma {:induction false} ReachKeepsInv(t: ObservedTable, actions: seq<Action>)
    ensures Inv(t, Reach(t, actions))
  {
    if actions == [] {
      InitHasInv(t);
    } else {
      ReachKeepsInv(t, actions[..|actions| - 1]);
      StepKeepsInv(t, Reach(t, actions[..|actions| - 1]), actions[|actions| - 1]);
    }
  }

  // ----- What holds in every interleaving -----

  /**
   However runs of any jobs are interleaved, the completed runs of a job form a chain from the
   initial cache under an advancing clock, each with its controller stage, so everything proved
   of such chains holds of them.
   */
  lemma RunsOfEveryJobAreAChain(t: ObservedTable, actions: seq<Action>, job: int)
    ensures var own := OwnRuns(Reach(t, actions).executions, job);
      && OwnChain(own, job) && ClockAdvances(RecordsOf(own))
      && (own != [] ==> SameRows(own[0].before.cache, t, job))
      && forall k :: 0 <= k < |own| ==> ListStageAt(own, k)
  {
    var s := Reach(t, actions);
    ReachKeepsInv(t, actions);
    assert JobInv(t, s, job);
    if Busy(s, job) {
      var i :| i in s.working && s.working[i].run.job == job;
      assert ChainTo(t, OwnRuns(s.executions, job), job, s.working[i].start, s.working[i].run.nowNs);
    }
  }

  /**
   In every interleaving, each run of a job that had no rows at first wants exactly the sliding
   window of the job's own runs, whatever other jobs do in the meantime.
   */
  lemma WantedIsWindowInEveryInterleaving(t: ObservedTable, actions: seq<Action>, job: int, n: nat, ip: string)
    requires NoRowsOf(t, job) && n < |OwnRuns(Reach(t, actions).executions, job)|
    requires var e := OwnRuns(Reach(t, actions).executions, job)[n]; WantedBy(e).Some? && e.run.retention > 0
    ensures var own := OwnRuns(Reach(t, actions).executions, job);
      ip in WantedBy(own[n]).value <==> StillKept(RecordsOf(own[..n + 1]), ip)
  {
    var own := OwnRuns(Reach(t, actions).executions, job);
    RunsOfEveryJobAreAChain(t, actions, job);
    NoRowsEither(own[0].before.cache, t, job);
    WindowOfRun(own, job, n, ip);
  }

  lemma NoRowsEither(t: ObservedTable, u: ObservedTable, job: int)
    requires SameRows(t, u, job) && NoRowsOf(u, job)
    ensures NoRowsOf(t, job)
  {
    forall k | k in t ensures k.0 != job {
      assert k == (k.0, k.1) && (k.0 == job ==> k in u);
    }
  }

  // ----- The lists on the controller -----

  ghost predicate EditOf(a: Action, job: int) {
    a.Edit? && a.job == job
  }

  /** The job's completed runs after the first `n` actions. */
  ghost function OwnAt(t: ObservedTable, actions: seq<Action>, job: int, n: nat): seq<Execution>
    requires n <= |actions|
  {
    OwnRuns(Reach(t, actions[..n]).executions, job)
  }

  ghost function ListAt(t: ObservedTable, actions: seq<Action>, job: int, n: nat): ListState
    requires n <= |actions|
  {
    ListOf(Reach(t, actions[..n]), job)
  }

  /** The list that a run found, and the one it left. */
  function Found(e: Execution): ListState {
    ListState(e.before.items, e.before.puts)
  }

  function Left(e: Execution): ListState {
    ListState(e.after.items, e.after.puts)
  }

  /**
   One step and one job's list: a completing run finds the list as it is and leaves the list it
   wrote, an edit replaces the items, and nothing else touches it.
   */
  ghost predicate ListMoves(own: seq<Execution>, own': seq<Execution>, list: ListState, list': ListState,
                            a: Action, job: int) {
    if |own'| > |own| then
      && own' == own + [own'[|own'| - 1]]
      && Found(own'[|own'| - 1]) == list && Left(own'[|own'| - 1]) == list'
    else
      own' == own && list' == if EditOf(a, job) then ListState(a.items, list.puts) else list
  }

  lemma ListAfterStep(s: State, a: Action, job: int)
    ensures ListMoves(OwnRuns(s.executions, job), OwnRuns(Step(s, a).executions, job),
                      ListOf(s, job), ListOf(Step(s, a), job), a, job)
  {
    if a.Push? && MayPush(s, a.i, a.list, a.result) {
      ListAfterLeave(s, a.i, a.list, a.result, a, job);
    }
  }

  lemma ListAfterLeave(s: State, i: nat, list: ListState, result: SyncResult, a: Action, job: int)
    requires i in s.working && s.working[i].stage.Pushing? && !a.Edit?
    ensures ListMoves(OwnRuns(s.executions, job), OwnRuns(Leave(s, i, list, result).executions, job),
                      ListOf(s, job), ListOf(Leave(s, i, list, result), job), a, job)
  {
    OwnRunsSnoc(s.executions, Completed(s, s.working[i], list, result), job);
  }

  lemma ListAtNext(t: ObservedTable, actions: seq<Action>, job: int, n: nat)
    requires n < |actions|
    ensures ListMoves(OwnAt(t, actions, job, n), OwnAt(t, actions, job, n + 1),
                      ListAt(t, actions, job, n), ListAt(t, actions, job, n + 1), actions[n], job)
  {
    assert actions[..n + 1][..n] == actions[..n];
    ListAfterStep(Reach(t, actions[..n]), actions[n], job);
  }

  lemma AtTheEnd(t: ObservedTable, actions: seq<Action>, job: int)
    ensures OwnAt(t, actions, job, |actions|) == OwnRuns(Reach(t, actions).executions, job)
    ensures ListAt(t, actions, job, |actions|) == ListOf(Reach(t, actions), job)
  {
    assert actions[..|actions|] == actions;
  }

  /** The `m`-th action completed a run of the job. */
  ghost predicate CompletesAt(t: ObservedTable, actions: seq<Action>, job: int, m: nat)
    requires m <= |actions|
  {
    m > 0 && |OwnAt(t, actions, job, m)| > |OwnAt(t, actions, job, m - 1)|
  }

  ghost predicate NoEditFrom(actions: seq<Action>, job: int, m: nat) {
    forall k :: m <= k < |actions| ==> !EditOf(actions[k], job)
  }

  /**
   From the moment a run of the job completed, while nobody edits its list, every run finds the
   list that the run before it left, and the list is what the last run left.
   */
  lemma ListPassesOn(t: ObservedTable, actions: seq<Action>, job: int, m: nat, n: nat)
    requires m <= n <= |actions| && CompletesAt(t, actions, job, m)
    requires forall k :: m <= k < n ==> !EditOf(actions[k], job)
    ensures PassedOn(OwnAt(t, actions, job, m), OwnAt(t, actions, job, n), ListAt(t, actions, job, n))
  {
    var owns := seq(|actions| + 1, k requires 0 <= k <= |actions| => OwnAt(t, actions, job, k));
    var lists := seq(|actions| + 1, k requires 0 <= k <= |actions| => ListAt(t, actions, job, k));
    forall k | 0 <= k < |actions| ensures MovesAt(owns, lists, actions, job, k) {
      ListAtNext(t, actions, job, k);
    }
    TracePassesOn(owns, lists, actions, job, m, n);
  }

  ghost predicate MovesAt(owns: seq<seq<Execution>>, lists: seq<ListState>, actions: seq<Action>, job: int, k: nat)
    requires |owns| == |lists| == |actions| + 1 && k < |actions|
  {
    ListMoves(owns[k], owns[k + 1], lists[k], lists[k + 1], actions[k], job)
  }

  lemma {:induction false} TracePassesOn(owns: seq<seq<Execution>>, lists: seq<ListState>, actions: seq<Action>,
                                         job: int, m: nat, n: nat)
    requires |owns| == |lists| == |actions| + 1 && 0 < m <= n <= |actions| && |owns[m]| > |owns[m - 1]|
    requires forall k :: 0 <= k < |actions| ==> MovesAt(owns, lists, actions, job, k)
    requires forall k :: m <= k < n ==> !EditOf(actions[k], job)
    ensures PassedOn(owns[m], owns[n], lists[n])
    decreases n - m
  {
    if m == n {
      assert MovesAt(owns, lists, actions, job, m - 1);
      JustPassedOn(owns[m - 1], owns[m], lists[m - 1], lists[m], actions[m - 1], job);
    } else {
      TracePassesOn(owns, lists, actions, job, m, n - 1);
      assert MovesAt(owns, lists, actions, job, n - 1);
      PassesOn(owns[m], owns[n - 1], owns[n], lists[n - 1], lists[n], actions[n - 1], job);
    }
  }

  /** Each run after the first ones found what the one before it left, and the last one left the list. */
  ghost predicate PassedOn(first: seq<Execution>, own: seq<Execution>, list: ListState) {
    && first != [] && first <= own
    && list == Left(own[|own| - 1])
    && forall k :: |first| <= k < |own| ==> FoundAsLeft(own, k)
  }

  ghost predicate FoundAsLeft(own: seq<Execution>, k: nat)
    requires 0 < k < |own|
  {
    Found(own[k]) == Left(own[k - 1])
  }

  lemma JustPassedOn(own: seq<Execution>, own': seq<Execution>, list: ListState, list': ListState, a: Action, job: int)
    requires ListMoves(own, own', list, list', a, job) && |own'| > |own|
    ensures PassedOn(own', own', list')
  {
  }

  lemma PassesOn(first: seq<Execution>, own: seq<Execution>, own': seq<Execution>, list: ListState, list': ListState,
                 a: Action, job: int)
    requires PassedOn(first, own, list) && ListMoves(own, own', list, list', a, job) && !EditOf(a, job)
    ensures PassedOn(first, own', list')
  {
    forall k | |first| <= k < |own'| ensures FoundAsLeft(own', k) {
      assert k < |own| ==> FoundAsLeft(own, k);
    }
  }

  /**
   In every interleaving, a job's list has the items and the number of PUTs that the job's last
   completed run left, unless somebody edited it since.
   */
  lemma ListIsWhatTheLastRunLeft(t: ObservedTable, actions: seq<Action>, job: int, m: nat)
    requires m <= |actions| && CompletesAt(t, actions, job, m) && NoEditFrom(actions, job, m)
    ensures var own := OwnRuns(Reach(t, actions).executions, job);
      && own != []
      && ListOf(Reach(t, actions), job).items == own[|own| - 1].after.items
      && ListOf(Reach(t, actions), job).puts == own[|own| - 1].after.puts
  {
    ListPassesOn(t, actions, job, m, |actions|);
    AtTheEnd(t, actions, job);
  }

  /** What the next run finds: with no edit in between, exactly what the run before it left. */
  lemma NextRunFindsWhatWasLeft(t: ObservedTable, actions: seq<Action>, job: int, m: nat, k: nat)
    requires m <= |actions| && CompletesAt(t, actions, job, m) && NoEditFrom(actions, job, m)
    requires |OwnAt(t, actions, job, m)| <= k < |OwnRuns(Reach(t, actions).executions, job)|
    ensures var own := OwnRuns(Reach(t, actions).executions, job);
      && k > 0
      && own[k].before.items == own[k - 1].after.items && own[k].before.puts == own[k - 1].after.puts
  {
    ListPassesOn(t, actions, job, m, |actions|);
    AtTheEnd(t, actions, job);
    assert FoundAsLeft(OwnRuns(Reach(t, actions).executions, job), k);
  }

  /** An edit replaces the items of that job's list and of no other, and counts as no PUT. */
  lemma EditReplacesTheList(t: ObservedTable, actions: seq<Action>, job: int, items: seq<TrafficMatchItem>, other: int)
    ensures var s, s' := Reach(t, actions), Reach(t, actions + [Edit(job, items)]);
      && ListOf(s', job).items == items && ListOf(s', job).puts == ListOf(s, job).puts
      && (other != job ==> ListOf(s', other) == ListOf(s, other))
  {
    assert (actions + [Edit(job, items)])[..|actions|] == actions;
  }

  /**
   Steadiness in every interleaving: once a run of the job succeeded, as long as nobody edits the
   list and every later run of the job resolves only what was wanted, each wanted entry in time,
   no later run makes a PUT, whatever other jobs do, and the list stays as it was.
   */
  lemma SteadyInEveryInterleaving(t: ObservedTable, actions: seq<Action>, job: int, m: nat,
                                  own: seq<Execution>, b: nat, k: nat)
    requires m <= |actions| && CompletesAt(t, actions, job, m) && NoEditFrom(actions, job, m)
    requires own == OwnRuns(Reach(t, actions).executions, job) && b + 1 == |OwnAt(t, actions, job, m)|
    requires SteadyUntil(own, b, k)
    ensures KeepsTheList(own, b, k)
  {
    var first := OwnAt(t, actions, job, m);
    EveryInterleavingIsOrderly(t, actions, job, m);
    SteadyWhilePassedOn(first, own, b, job, k, ListOf(Reach(t, actions), job));
  }

  /** Run `b` succeeded, and every run from it to run `k` resolves only what it wanted, each entry in time. */
  ghost predicate SteadyUntil(own: seq<Execution>, b: nat, k: nat) {
    && b < k < |own|
    && Retained(own[b].run, own[b].after.cache) && own[b].result.status == Success
    && forall j: nat :: b < j <= k ==> Refreshes(own, WantedBy(own[b]).value.Keys, j)
  }

  /** Run `k` makes no PUT, leaves the list as run `b` did, and succeeds if it gets as far as the list. */
  ghost predicate KeepsTheList(own: seq<Execution>, b: nat, k: nat)
    requires b < |own| && k < |own|
  {
    && own[k].after.puts == own[k].before.puts && own[k].after.items == own[b].after.items
    && (ReachesList(own[k]) ==> own[k].result == SyncResult(Success, 0))
  }

  /** All that is known of a job's runs once some of them, `first`, were completed. */
  ghost predicate Orderly(first: seq<Execution>, own: seq<Execution>, job: int, list: ListState) {
    && PassedOn(first, own, list)
    && OwnChain(own, job) && ClockAdvances(RecordsOf(own))
    && forall j: nat :: j < |own| ==> ListStageAt(own, j)
  }

  lemma EveryInterleavingIsOrderly(t: ObservedTable, actions: seq<Action>, job: int, m: nat)
    requires m <= |actions| && CompletesAt(t, actions, job, m) && NoEditFrom(actions, job, m)
    ensures Orderly(OwnAt(t, actions, job, m), OwnRuns(Reach(t, actions).executions, job), job,
                    ListOf(Reach(t, actions), job))
  {
    RunsOfEveryJobAreAChain(t, actions, job);
    ListPassesOn(t, actions, job, m, |actions|);
    AtTheEnd(t, actions, job);
  }

  lemma SteadyWhilePassedOn(first: seq<Execution>, own: seq<Execution>, b: nat, job: int, k: nat, list: ListState)
    requires Orderly(first, own, job, list) && b + 1 == |first| && SteadyUntil(own, b, k)
    ensures KeepsTheList(own, b, k)
  {
    forall j: nat | |first| <= j <= k ensures ListUntouched(own, j) {
      assert FoundAsLeft(own, j);
    }
    SteadyListIsNotWritten(own, job, b, k);
  }

  // ----- Every run can happen -----

  ghost function StepAll(s: State, actions: seq<Action>): State {
    if actions == [] then s else Step(StepAll(s, actions[..|actions| - 1]), actions[|actions| - 1])
  }

  lemma StepAllSnoc(s: State, actions: seq<Action>, a: Action)
    ensures StepAll(s, actions + [a]) == Step(StepAll(s, actions), a)
  {
    assert (actions + [a])[..|actions|] == actions;
  }

  /** A new run of an unclaimed job gets as far as its log row. */
  lemma NewRunStarts(s: State, job: int, startedAt: int) returns (actions: seq<Action>)
    requires job !in s.base.claims
    ensures var s', i := StepAll(s, actions), |s.base.runs|;
      && s' == s.(base := s'.base) && |s'.base.runs| == i + 1
      && s'.base.runs[i].pc.Executing? && s'.base.runs[i].job == job
  {
    var i := |s.base.runs|;
    var a1 := [Claims(E.Spawn(job))];
    var a2 := a1 + [Claims(E.Claim(i))];
    var a3 := a2 + [Claims(E.LoadJob(i, true))];
    actions := a3 + [Claims(E.CreateLog(i, true, startedAt))];
    assert [] + [Claims(E.Spawn(job))] == a1;
    StepAllSnoc(s, [], Claims(E.Spawn(job)));
    StepAllSnoc(s, a1, Claims(E.Claim(i)));
    StepAllSnoc(s, a2, Claims(E.LoadJob(i, true)));
    StepAllSnoc(s, a3, Claims(E.CreateLog(i, true, startedAt)));
  }

  /** The statements that a run has left to do can be done one after another. */
  lemma {:induction false} StatementsFinish(s: State, i: nat, from: State, actions: seq<Action>)
    returns (actions': seq<Action>)
    requires s == StepAll(from, actions) && i in s.working && s.working[i].stage.Caching?
    ensures var w := s.working[i];
      StepAll(from, actions') == s.(cache := RunStatements(s.cache, w.run.job, w.stage.pending),
                                    working := s.working[i := w.(stage := Caching([]))])
    decreases |s.working[i].stage.pending|
  {
    var w := s.working[i];
    if w.stage.pending == [] {
      actions' := actions;
      assert s.working[i := w.(stage := Caching([]))] == s.working;
    } else {
      StepAllSnoc(from, actions, NextStatement(i));
      FirstStatement(s.cache, w.run.job, w.stage.pending);
      actions' := StatementsFinish(Step(s, NextStatement(i)), i, from, actions + [NextStatement(i)]);
    }
  }

  /**
   The machine leaves no run out: whenever a job is unclaimed, any execution of it that finds the
   cache and its list as they are, at a time not before the last run's, can happen, and then the
   cache, the list and the record are as that execution says.
   */
  lemma EveryExecutionCanHappen(s: State, e: Execution, startedAt: int) returns (actions: seq<Action>)
    requires e.run.job !in s.base.claims && |s.base.runs| !in s.working
    requires Ran(e) && e.before.cache == s.cache && Found(e) == ListOf(s, e.run.job) && e.on.nowNs >= s.clock
    ensures var s' := StepAll(s, actions);
      && s'.executions == s.executions + [e]
      && s'.cache == e.after.cache && ListOf(s', e.run.job) == Left(e)
      && s'.working == s.working
  {
    var i, resolved := |s.base.runs|, e.run.resolved;
    var a1 := NewRunStarts(s, e.run.job, startedAt);
    var s1 := StepAll(s, a1);
    var a2 := a1 + [Begin(i, e.on, resolved)];
    StepAllSnoc(s, a1, Begin(i, e.on, resolved));
    var s2 := StepAll(s, a2);
    assert MayBegin(s1, i, e.on) && s2.working[i].run == e.run;
    var a3 := StatementsFinish(s2, i, s, a2);
    var s3 := StepAll(s, a3);
    StatementsOfOneRun(s.cache, e.run.job, EventOfRun(e.run));
    assert s3.cache == e.after.cache;
    actions := ReadAndPush(s3, i, s, a3, e);
    assert s3.working - {i} == s.working;
  }

  lemma ReadAndPush(s: State, i: nat, from: State, before: seq<Action>, e: Execution) returns (actions: seq<Action>)
    requires s == StepAll(from, before) && i in s.working && s.working[i].stage == Caching([])
    requires s.working[i].on == e.on && s.working[i].run == e.run && s.working[i].start == e.before.cache
    requires s.cache == e.after.cache && Found(e) == ListOf(s, e.run.job) && ListStage(e)
    ensures var s' := StepAll(from, actions);
      && s'.executions == s.executions + [e] && s'.cache == s.cache
      && ListOf(s', e.run.job) == Left(e)
      && s'.working == s.working - {i}
  {
    ReadHappens(s, i, from, before);
    var s' := s.(working := s.working[i := s.working[i].(stage := Pushing(s.cache))]);
    CompletesAs(s', i, e);
    PushHappens(s', i, from, before + [ReadCache(i)], e);
    LeavesAs(s', i, e);
    actions := before + [ReadCache(i)] + [Push(i, Left(e), e.result)];
    assert s'.working - {i} == s.working - {i};
  }

  lemma ReadHappens(s: State, i: nat, from: State, before: seq<Action>)
    requires s == StepAll(from, before) && i in s.working && s.working[i].stage == Caching([])
    ensures StepAll(from, before + [ReadCache(i)])
         == s.(working := s.working[i := s.working[i].(stage := Pushing(s.cache))])
  {
    StepAllSnoc(from, before, ReadCache(i));
  }

  lemma PushHappens(s: State, i: nat, from: State, before: seq<Action>, e: Execution)
    requires s == StepAll(from, before) && i in s.working && s.working[i].stage.Pushing?
    requires Completed(s, s.working[i], Left(e), e.result) == e && ListStage(e)
    ensures StepAll(from, before + [Push(i, Left(e), e.result)]) == Leave(s, i, Left(e), e.result)
  {
    StepAllSnoc(from, before, Push(i, Left(e), e.result));
    assert MayPush(s, i, Left(e), e.result);
  }

  lemma CompletesAs(s: State, i: nat, e: Execution)
    requires i in s.working && s.working[i].stage == Pushing(e.after.cache)
    requires s.working[i].on == e.on && s.working[i].run == e.run && s.working[i].start == e.before.cache
    requires Found(e) == ListOf(s, e.run.job)
    ensures Completed(s, s.working[i], Left(e), e.result) == e
  {
  }

  lemma LeavesAs(s: State, i: nat, e: Execution)
    requires i in s.working && s.working[i].stage.Pushing? && s.working[i].run == e.run
    requires Completed(s, s.working[i], Left(e), e.result) == e
    ensures var s' := Leave(s, i, Left(e), e.result);
      && s'.executions == s.executions + [e] && s'.cache == s.cache
      && ListOf(s', e.run.job) == Left(e) && s'.working == s.working - {i}
  {
  }
}
