/**
 The scheduler's index of cron entries, kept in step with the stored jobs
 (internal/scheduler/scheduler.go:13-35, 57-130; internal/web/handler.go:321-405).
 */
module Scheduler {
  import opened Wrappers
  import opened Store

  datatype CronEntry = CronEntry(schedule: string, job: int)

  /** The cron library: live entries under identifiers that are never reused. */
  class Cron {
    const accepts: string -> bool
    var live: map<int, CronEntry>
    var nextID: int

    ghost predicate Valid()
      reads this
    {
      forall id :: id in live ==> id < nextID
    }

    constructor (accepts: string -> bool)
      ensures Valid() && live == map[] && this.accepts == accepts
    {
      this.accepts, live, nextID := accepts, map[], 1;
    }

    method AddFunc(schedule: string, job: int) returns (r: Option<int>)
      requires Valid()
      modifies this
      ensures Valid()
      ensures r.Some? <==> accepts(schedule)
      ensures r.None? ==> live == old(live)
      ensures r.Some? ==> r.value !in old(live) && live == old(live)[r.value := CronEntry(schedule, job)]
    {
      if !accepts(schedule) {
        return None;
      }
      live := live[nextID := CronEntry(schedule, job)];
      r := Some(nextID);
      nextID := nextID + 1;
    }

    method Remove(id: int)
      requires Valid()
      modifies this
      ensures Valid() && live == old(live) - {id}
    {
      live := live - {id};
    }
  }

  /** `entries` and the live cron entries name each other. */
  ghost predicate Indexed(entries: map<int, int>, live: map<int, CronEntry>) {
    && (forall job :: job in entries ==> entries[job] in live && live[entries[job]].job == job)
    && forall id :: id in live ==> live[id].job in entries && entries[live[id].job] == id
  }

  /** So no two jobs share an entry, no job has two, and no live entry is unknown. */
  lemma IndexIsExact(entries: map<int, int>, live: map<int, CronEntry>)
    requires Indexed(entries, live)
    ensures forall id :: id in live <==> exists job :: job in entries && entries[job] == id
    ensures forall j, k :: j in entries && k in entries && entries[j] == entries[k] ==> j == k
    ensures forall x, y :: x in live && y in live && live[x].job == live[y].job ==> x == y
  {
    forall id | id in live ensures exists job :: job in entries && entries[job] == id {
      assert entries[live[id].job] == id;
    }
  }

  ghost predicate Schedulable(accepts: string -> bool, jobs: map<int, SyncJob>, job: int) {
    job in jobs && jobs[job].enabled && jobs[job].schedule != "" && accepts(jobs[job].schedule)
  }

  /** Spelled out: agreement is about enabled jobs with an accepted, non-empty schedule, and that schedule. */
  lemma AgreementMeans(accepts: string -> bool, jobs: map<int, SyncJob>,
                       entries: map<int, int>, live: map<int, CronEntry>, job: int)
    requires Indexed(entries, live)
    ensures EntryAgrees(accepts, jobs, entries, live, job) <==>
      if job in jobs && jobs[job].enabled && jobs[job].schedule != "" && accepts(jobs[job].schedule)
      then job in entries && live[entries[job]] == CronEntry(jobs[job].schedule, job)
      else job !in entries
  {
  }

  /** The job has a cron entry exactly if it should have one, and then with its stored schedule. */
  ghost predicate EntryAgrees(accepts: string -> bool, jobs: map<int, SyncJob>,
                              entries: map<int, int>, live: map<int, CronEntry>, job: int)
    requires Indexed(entries, live)
  {
    && (job in entries <==> Schedulable(accepts, jobs, job))
    && (job in entries ==> live[entries[job]].schedule == jobs[job].schedule)
  }

  /** Nothing about the other jobs' entries changed. */
  ghost predicate OthersUnchanged(entries: map<int, int>, live: map<int, CronEntry>,
                                  entries': map<int, int>, live': map<int, CronEntry>, job: int)
    requires Indexed(entries, live) && Indexed(entries', live')
  {
    forall j :: j != job ==>
      && (j in entries' <==> j in entries)
      && (j in entries ==> entries'[j] == entries[j] && live'[entries[j]] == live[entries[j]])
  }

  class Scheduler {
    const db: Database
    const cron: Cron
    var entries: map<int, int>

    ghost predicate Valid()
      reads this, db, cron
    {
      db.Valid() && cron.Valid() && Indexed(entries, cron.live)
    }

    /** Exactly the jobs that should run have an entry. */
    ghost predicate Agrees()
      requires Valid()
      reads this, db, cron
    {
      forall job :: EntryAgrees(cron.accepts, db.jobs, entries, cron.live, job)
    }

    constructor (db: Database, accepts: string -> bool)
      requires db.Valid()
      ensures Valid() && this.db == db && fresh(cron) && entries == map[] && cron.accepts == accepts
    {
      var c := new Cron(accepts);
      this.db, cron, entries := db, c, map[];
    }

    method ScheduleJob(job: SyncJob)
      requires Valid() && job.id !in entries
      modifies this, cron
      ensures Valid()
      ensures job.id in entries <==> cron.accepts(job.schedule)
      ensures job.id in entries ==> cron.live[entries[job.id]].schedule == job.schedule
      ensures OthersUnchanged(old(entries), old(cron.live), entries, cron.live, job.id)
    {
      var entryID := cron.AddFunc(job.schedule, job.id);
      if entryID.None? {
        return;
      }
      entries := entries[job.id := entryID.value];
    }

    /** Loads every stored job, in any order, into an empty index. */
    method Start(order: seq<int>, fault: bool) returns (ok: bool)
      requires Valid() && entries == map[] && ListsOnce(order, db.jobs)
      modifies this, cron
      ensures Valid() && ok == !fault
      ensures ok ==> Agrees()
      ensures ok ==> forall job :: job in entries <==>
        job in db.jobs && db.jobs[job].enabled && db.jobs[job].schedule != "" && cron.accepts(db.jobs[job].schedule)
      ensures ok ==> forall job :: job in entries ==> cron.live[entries[job]] == CronEntry(db.jobs[job].schedule, job)
      ensures !ok ==> entries == map[]
    {
      var jobs := db.ListJobs(order, fault);
      if jobs.None? {
        return false;
      }
      for i := 0 to |order|
        invariant Valid()
        invariant forall k :: i <= k < |order| ==> order[k] !in entries
        invariant forall k :: 0 <= k < i ==> EntryAgrees(cron.accepts, db.jobs, entries, cron.live, order[k])
        invariant forall job :: job in entries ==> job in db.jobs
      {
        var job := jobs.value[i];
        if job.enabled && job.schedule != "" {
          ScheduleJob(job);
        }
      }
      forall job | true ensures EntryAgrees(cron.accepts, db.jobs, entries, cron.live, job) {
        if job in db.jobs {
          var k :| 0 <= k < |order| && order[k] == job;
        }
      }
      return true;
    }

    method DropEntry(jobID: int)
      requires Valid()
      modifies this, cron
      ensures Valid() && jobID !in entries
      ensures OthersUnchanged(old(entries), old(cron.live), entries, cron.live, jobID)
    {
      if jobID in entries {
        cron.Remove(entries[jobID]);
        entries := entries - {jobID};
      }
    }

    /** Replaces the job's entry by what the store now says; a job that cannot be read loses it. */
    method Reload(jobID: int, fault: bool)
      requires Valid()
      modifies this, cron
      ensures Valid()
      ensures !fault ==> EntryAgrees(cron.accepts, db.jobs, entries, cron.live, jobID)
      ensures jobID in entries <==>
        && !fault && jobID in db.jobs && db.jobs[jobID].enabled
        && db.jobs[jobID].schedule != "" && cron.accepts(db.jobs[jobID].schedule)
      ensures fault ==> jobID !in entries
      ensures OthersUnchanged(old(entries), old(cron.live), entries, cron.live, jobID)
    {
      DropEntry(jobID);
      var job := db.GetJob(jobID, fault);
      if job.None? {
        return;
      }
      if job.value.enabled && job.value.schedule != "" {
        ScheduleJob(job.value);
      }
    }

    method Remove(jobID: int)
      requires Valid()
      modifies this, cron
      ensures Valid() && jobID !in entries
      ensures OthersUnchanged(old(entries), old(cron.live), entries, cron.live, jobID)
    {
      DropEntry(jobID);
    }
  }

  // ----- The web handlers that change jobs, run one at a time -----

  method CreateJob(sch: Scheduler, job: SyncJob, freshID: int, writeFault: bool, readFault: bool)
    returns (id: Option<int>)
    requires sch.Valid() && sch.Agrees() && freshID !in sch.db.jobs
    modifies sch, sch.cron, sch.db`jobs
    ensures sch.Valid()
    ensures id == if writeFault then None else Some(freshID)
    ensures sch.db.jobs
         == if writeFault then old(sch.db.jobs) else old(sch.db.jobs)[freshID := CreatedJob(job, freshID)]
    ensures !writeFault ==> HoldsSettings(sch.db.jobs[freshID], freshID, job) && sch.db.jobs[freshID].lastResult.None?
    ensures OthersUnchanged(old(sch.entries), old(sch.cron.live), sch.entries, sch.cron.live, freshID)
    ensures sch.Agrees() <==> !readFault || !Schedulable(sch.cron.accepts, sch.db.jobs, freshID)
  {
    ghost var entries, live, jobs := sch.entries, sch.cron.live, sch.db.jobs;
    assert EntryAgrees(sch.cron.accepts, jobs, entries, live, freshID);
    id := sch.db.CreateJob(job, freshID, writeFault);
    if id.Some? {
      sch.Reload(id.value, readFault);
      AgreementFollows(sch.cron.accepts, jobs, sch.db.jobs, entries, live, sch.entries, sch.cron.live, freshID);
    }
  }

  method UpdateJob(sch: Scheduler, job: SyncJob, writeFault: bool, readFault: bool) returns (ok: bool)
    requires sch.Valid() && sch.Agrees()
    modifies sch, sch.cron, sch.db`jobs
    ensures sch.Valid() && ok == !writeFault
    ensures sch.db.jobs == if ok then JobsUpdated(old(sch.db.jobs), job) else old(sch.db.jobs)
    ensures ok && job.id in old(sch.db.jobs) ==>
      && job.id in sch.db.jobs && HoldsSettings(sch.db.jobs[job.id], job.id, job)
      && sch.db.jobs[job.id].lastResult == old(sch.db.jobs)[job.id].lastResult
    ensures OthersUnchanged(old(sch.entries), old(sch.cron.live), sch.entries, sch.cron.live, job.id)
    ensures sch.Agrees() <==> writeFault || !readFault || !Schedulable(sch.cron.accepts, sch.db.jobs, job.id)
  {
    ghost var entries, live, jobs := sch.entries, sch.cron.live, sch.db.jobs;
    ok := sch.db.UpdateJob(job, writeFault);
    if ok {
      sch.Reload(job.id, readFault);
      AgreementFollows(sch.cron.accepts, jobs, sch.db.jobs, entries, live, sch.entries, sch.cron.live, job.id);
    }
  }

  /**
   The entry goes first and the row second, so a row that cannot be deleted stays stored,
   possibly enabled, without an entry.
   */
  method DeleteJob(sch: Scheduler, jobID: int, writeFault: bool) returns (ok: bool)
    requires sch.Valid() && sch.Agrees()
    modifies sch, sch.cron, sch.db`jobs
    ensures sch.Valid() && ok == !writeFault
    ensures sch.db.jobs == if ok then old(sch.db.jobs) - {jobID} else old(sch.db.jobs)
    ensures jobID !in sch.entries
    ensures OthersUnchanged(old(sch.entries), old(sch.cron.live), sch.entries, sch.cron.live, jobID)
    ensures sch.Agrees() <==> !writeFault || !Schedulable(sch.cron.accepts, sch.db.jobs, jobID)
  {
    ghost var entries, live, jobs := sch.entries, sch.cron.live, sch.db.jobs;
    sch.Remove(jobID);
    ok := sch.db.DeleteJob(jobID, writeFault);
    AgreementFollows(sch.cron.accepts, jobs, sch.db.jobs, entries, live, sch.entries, sch.cron.live, jobID);
  }

  /** When only one job's row and entry change, agreement rests on that job alone. */
  lemma AgreementFollows(accepts: string -> bool, jobs: map<int, SyncJob>, jobs': map<int, SyncJob>,
                         entries: map<int, int>, live: map<int, CronEntry>,
                         entries': map<int, int>, live': map<int, CronEntry>, job: int)
    requires Indexed(entries, live) && Indexed(entries', live')
    requires forall j :: EntryAgrees(accepts, jobs, entries, live, j)
    requires forall j :: j != job ==> (j in jobs' <==> j in jobs) && (j in jobs ==> jobs'[j] == jobs[j])
    requires OthersUnchanged(entries, live, entries', live', job)
    ensures (forall j :: EntryAgrees(accepts, jobs', entries', live', j))
      <==> EntryAgrees(accepts, jobs', entries', live', job)
  {
    forall j | j != job ensures EntryAgrees(accepts, jobs', entries', live', j) {
      assert EntryAgrees(accepts, jobs, entries, live, j);
    }
  }
}
