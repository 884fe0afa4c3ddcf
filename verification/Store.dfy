/**
 The rows the sync logic keeps (internal/store/store.go:25-52, 250-362, 393-398, 457-536).
 Times are whole Unix seconds; `Timestamps` relates them to the text columns. Every statement
 may fail instead of taking effect, which its `fault` argument decides.
 */
module Store {
  import opened Wrappers

  const DEFAULT_OBSERVED_IP_TTL_HOURS := 7 * 24

  datatype SyncJob = SyncJob(id: int, networkListID: string, hostnames: string, schedule: string,
                             ttlHours: int, enabled: bool, lastResult: Option<Status>)

  datatype Status = Running | Skipped | Error | Success

  datatype RunLog = RunLog(jobID: int, startedAt: int, finishedAt: Option<int>, status: Status, changesMade: nat)

  datatype ObservedRow = ObservedRow(source: string, firstSeen: int, lastSeen: int)

  /** `job_observed_ips`, keyed by job and entry. */
  type ObservedTable = map<(int, string), ObservedRow>

  function NormalizeTTLHours(hours: int): int {
    if hours < 0 then DEFAULT_OBSERVED_IP_TTL_HOURS else hours
  }

  /** A stored job as it is read back. */
  function ReadJob(job: SyncJob): SyncJob {
    job.(ttlHours := NormalizeTTLHours(job.ttlHours))
  }

  /** The row of a new job: its retention setting normalised, nothing run yet. */
  function CreatedJob(job: SyncJob, id: int): SyncJob {
    ReadJob(job).(id := id, lastResult := None)
  }

  /** Updating keeps what the last run noted; a row that does not exist stays that way. */
  function JobsUpdated(jobs: map<int, SyncJob>, job: SyncJob): map<int, SyncJob> {
    if job.id in jobs then jobs[job.id := ReadJob(job).(lastResult := jobs[job.id].lastResult)] else jobs
  }

  function ClosedLog(row: RunLog, finishedAt: int, status: Status, changesMade: nat): RunLog {
    row.(finishedAt := Some(finishedAt), status := status, changesMade := changesMade)
  }

  /** The row holds what the user gave, with the default week in place of a negative retention setting. */
  predicate HoldsSettings(row: SyncJob, id: int, given: SyncJob) {
    && row.id == id
    && row.networkListID == given.networkListID && row.hostnames == given.hostnames
    && row.schedule == given.schedule && row.enabled == given.enabled
    && row.ttlHours == if given.ttlHours >= 0 then given.ttlHours else 168
  }

  /** What is stored for a job and read back later is what the user gave. */
  lemma SettingsSurvive(given: SyncJob, id: int, jobs: map<int, SyncJob>)
    ensures HoldsSettings(CreatedJob(given, id), id, given) && HoldsSettings(ReadJob(CreatedJob(given, id)), id, given)
    ensures given.id in jobs ==>
      && HoldsSettings(JobsUpdated(jobs, given)[given.id], given.id, given)
      && HoldsSettings(ReadJob(JobsUpdated(jobs, given)[given.id]), given.id, given)
  {
  }

  ghost predicate ListsOnce(order: seq<int>, jobs: map<int, SyncJob>) {
    && (forall i :: 0 <= i < |order| ==> order[i] in jobs)
    && (forall id :: id in jobs ==> exists i :: 0 <= i < |order| && order[i] == id)
    && forall i, j :: 0 <= i < j < |order| ==> order[i] != order[j]
  }

  // ----- What the statements mean -----

  function UpsertRow(t: ObservedTable, job: int, ip: string, source: string, seenAt: int): ObservedTable {
    var firstSeen := if (job, ip) in t then t[(job, ip)].firstSeen else seenAt;
    t[(job, ip) := ObservedRow(source, firstSeen, seenAt)]
  }

  ghost predicate IsUpsert(t: ObservedTable, job: int, hostIPs: map<string, string>, seenAt: int, t': ObservedTable) {
    && (forall k :: k in t' <==> k in t || (k.0 == job && k.1 in hostIPs))
    && forall k :: k in t' ==> t'[k] == UpsertedRow(t, job, hostIPs, seenAt, k)
  }

  ghost function UpsertedRow(t: ObservedTable, job: int, hostIPs: map<string, string>, seenAt: int,
                             k: (int, string)): ObservedRow
    requires k in t || (k.0 == job && k.1 in hostIPs)
  {
    if k.0 == job && k.1 in hostIPs
    then ObservedRow(hostIPs[k.1], if k in t then t[k].firstSeen else seenAt, seenAt)
    else t[k]
  }

  function Upserted(t: ObservedTable, job: int, hostIPs: map<string, string>, seenAt: int): (t': ObservedTable)
    ensures IsUpsert(t, job, hostIPs, seenAt, t')
  {
    var keys := t.Keys + set ip | ip in hostIPs :: (job, ip);
    map k | k in keys ::
      if k.0 == job && k.1 in hostIPs
      then ObservedRow(hostIPs[k.1], if k in t then t[k].firstSeen else seenAt, seenAt)
      else t[k]
  }

  function Expired(t: ObservedTable, job: int, before: int): ObservedTable {
    map k | k in t && !(k.0 == job && t[k].lastSeen < before) :: t[k]
  }

  function Cleared(t: ObservedTable, job: int): ObservedTable {
    map k | k in t && k.0 != job :: t[k]
  }

  function Listed(t: ObservedTable, job: int, since: int): map<string, string> {
    map k | k in t && k.0 == job && t[k].lastSeen >= since :: k.1 := t[k].source
  }

  lemma ListedMeans(t: ObservedTable, job: int, since: int, ip: string)
    ensures ip in Listed(t, job, since) <==> (job, ip) in t && t[(job, ip)].lastSeen >= since
    ensures ip in Listed(t, job, since) ==> Listed(t, job, since)[ip] == t[(job, ip)].source
  {
  }

  /** Expiring rows never shows in a list with the same or a later cutoff. */
  lemma ExpiryDoesNotShow(t: ObservedTable, job: int, before: int, since: int)
    requires before <= since
    ensures Listed(Expired(t, job, before), job, since) == Listed(t, job, since)
  {
    forall ip
      ensures ip in Listed(Expired(t, job, before), job, since) <==> ip in Listed(t, job, since)
      ensures ip in Listed(t, job, since) ==>
        Listed(Expired(t, job, before), job, since)[ip] == Listed(t, job, since)[ip]
    {
      ListedMeans(t, job, since, ip);
      ListedMeans(Expired(t, job, before), job, since, ip);
    }
  }

  class Database {
    var observed: ObservedTable
    var jobs: map<int, SyncJob>
    var runLogs: map<int, RunLog>
    var nextLogID: int
    var enabledServers: seq<string>

    ghost predicate Valid()
      reads this
    {
      && (forall id :: id in jobs ==> jobs[id].id == id)
      && forall id :: id in runLogs ==> id < nextLogID
    }

    /** Records a resolution in one transaction: on a fault nothing of it remains. */
    method UpsertObservedIPs(job: int, hostIPs: map<string, string>, seenAt: int, fault: bool) returns (ok: bool)
      modifies this`observed
      ensures ok == (hostIPs == map[] || !fault)
      ensures observed == if ok then Upserted(old(observed), job, hostIPs, seenAt) else old(observed)
      ensures ok ==> forall ip :: ip in hostIPs ==>
        && (job, ip) in observed
        && observed[(job, ip)].source == hostIPs[ip] && observed[(job, ip)].lastSeen == seenAt
        && observed[(job, ip)].firstSeen
             == if (job, ip) in old(observed) then old(observed)[(job, ip)].firstSeen else seenAt
      ensures ok ==> forall k: (int, string) :: !(k.0 == job && k.1 in hostIPs) ==>
        (k in observed <==> k in old(observed)) && (k in observed ==> observed[k] == old(observed)[k])
    {
      if |hostIPs| == 0 {
        assert IsUpsert(observed, job, hostIPs, seenAt, observed);
        UpsertIsDetermined(observed, job, hostIPs, seenAt, observed);
        return true;
      }
      var tx := UpsertRows(observed, job, hostIPs, seenAt);
      if fault {
        return false;
      }
      observed := tx;
      return true;
    }

    method DeleteExpiredObservedIPs(job: int, before: int, fault: bool) returns (ok: bool)
      modifies this`observed
      ensures ok == !fault
      ensures observed == if ok then Expired(old(observed), job, before) else old(observed)
      ensures ok ==> forall k: (int, string) :: k in observed <==>
        k in old(observed) && !(k.0 == job && old(observed)[k].lastSeen < before)
      ensures forall k :: k in observed ==> observed[k] == old(observed)[k]
    {
      if !fault {
        observed := map k | k in observed && !(k.0 == job && observed[k].lastSeen < before) :: observed[k];
      }
      return !fault;
    }

    method DeleteObservedIPs(job: int, fault: bool) returns (ok: bool)
      modifies this`observed
      ensures ok == !fault
      ensures observed == if ok then Cleared(old(observed), job) else old(observed)
      ensures ok ==> forall k :: k in observed <==> k in old(observed) && k.0 != job
      ensures forall k :: k in observed ==> observed[k] == old(observed)[k]
    {
      if !fault {
        observed := map k | k in observed && k.0 != job :: observed[k];
      }
      return !fault;
    }

    method ListObservedIPs(job: int, since: int, fault: bool) returns (r: Option<map<string, string>>)
      ensures r == if fault then None else Some(Listed(observed, job, since))
      ensures r.Some? ==> forall ip :: ip in r.value <==>
        (job, ip) in observed && observed[(job, ip)].lastSeen >= since
      ensures r.Some? ==> forall ip :: ip in r.value ==> r.value[ip] == observed[(job, ip)].source
    {
      if fault {
        return None;
      }
      return Some(Listed(observed, job, since));
    }

    /** The stored jobs, each once; `order` stands for their order by name, where equal names leave a choice. */
    method ListJobs(order: seq<int>, fault: bool) returns (r: Option<seq<SyncJob>>)
      requires ListsOnce(order, jobs)
      ensures r.None? <==> fault
      ensures r.Some? ==> |r.value| == |order|
      ensures r.Some? ==> forall i :: 0 <= i < |order| ==> r.value[i] == ReadJob(jobs[order[i]])
      ensures r.Some? ==> forall i :: 0 <= i < |order| ==> HoldsSettings(r.value[i], jobs[order[i]].id, jobs[order[i]])
    {
      if fault {
        return None;
      }
      var listed: seq<SyncJob> := [];
      for i := 0 to |order|
        invariant |listed| == i
        invariant forall k :: 0 <= k < i ==> listed[k] == ReadJob(jobs[order[k]])
      {
        listed := listed + [ReadJob(jobs[order[i]])];
      }
      return Some(listed);
    }

    method GetJob(id: int, fault: bool) returns (r: Option<SyncJob>)
      ensures r == if fault || id !in jobs then None else Some(ReadJob(jobs[id]))
      ensures r.Some? ==> HoldsSettings(r.value, jobs[id].id, jobs[id]) && r.value.lastResult == jobs[id].lastResult
    {
      if fault || id !in jobs {
        return None;
      }
      return Some(ReadJob(jobs[id]));
    }

    /** `freshID` is the key that the database assigns. */
    method CreateJob(job: SyncJob, freshID: int, fault: bool) returns (r: Option<int>)
      requires Valid() && freshID !in jobs
      modifies this`jobs
      ensures Valid()
      ensures r == if fault then None else Some(freshID)
      ensures jobs == if fault then old(jobs) else old(jobs)[freshID := CreatedJob(job, freshID)]
      ensures !fault ==> HoldsSettings(jobs[freshID], freshID, job) && jobs[freshID].lastResult.None?
    {
      if fault {
        return None;
      }
      jobs := jobs[freshID := CreatedJob(job, freshID)];
      return Some(freshID);
    }

    /** Updating a row that does not exist is not an error. */
    method UpdateJob(job: SyncJob, fault: bool) returns (ok: bool)
      requires Valid()
      modifies this`jobs
      ensures Valid()
      ensures ok == !fault
      ensures jobs == if fault then old(jobs) else JobsUpdated(old(jobs), job)
      ensures jobs.Keys == old(jobs).Keys
      ensures !fault && job.id in jobs ==>
        HoldsSettings(jobs[job.id], job.id, job) && jobs[job.id].lastResult == old(jobs)[job.id].lastResult
      ensures forall id :: id != job.id && id in jobs ==> jobs[id] == old(jobs)[id]
    {
      if !fault && job.id in jobs {
        jobs := jobs[job.id := ReadJob(job).(lastResult := jobs[job.id].lastResult)];
      }
      return !fault;
    }

    method DeleteJob(id: int, fault: bool) returns (ok: bool)
      requires Valid()
      modifies this`jobs
      ensures Valid()
      ensures ok == !fault
      ensures jobs == if fault then old(jobs) else old(jobs) - {id}
    {
      if !fault {
        jobs := jobs - {id};
      }
      return !fault;
    }

    method CreateRunLog(log: RunLog, fault: bool) returns (r: Option<int>)
      requires Valid()
      modifies this`runLogs, this`nextLogID
      ensures Valid()
      ensures r.None? <==> fault
      ensures fault ==> runLogs == old(runLogs) && nextLogID == old(nextLogID)
      ensures r.Some? ==> r.value == old(nextLogID) && r.value !in old(runLogs) && nextLogID == old(nextLogID) + 1
      ensures r.Some? ==> runLogs == old(runLogs)[r.value := log]
    {
      if fault {
        return None;
      }
      r := Some(nextLogID);
      runLogs := runLogs[nextLogID := log];
      nextLogID := nextLogID + 1;
    }

    /** The error of this statement is not looked at by its caller. */
    method UpdateRunLog(id: int, finishedAt: int, status: Status, changesMade: nat, fault: bool)
      requires Valid()
      modifies this`runLogs
      ensures Valid()
      ensures runLogs == if fault || id !in old(runLogs) then old(runLogs)
        else old(runLogs)[id := ClosedLog(old(runLogs)[id], finishedAt, status, changesMade)]
      ensures !fault && id in old(runLogs) ==>
        runLogs[id] == RunLog(old(runLogs)[id].jobID, old(runLogs)[id].startedAt, Some(finishedAt), status, changesMade)
    {
      if !fault && id in runLogs {
        runLogs := runLogs[id := ClosedLog(runLogs[id], finishedAt, status, changesMade)];
      }
    }

    method UpdateJobLastRun(id: int, status: Status, fault: bool)
      requires Valid()
      modifies this`jobs
      ensures Valid()
      ensures jobs == if fault || id !in old(jobs) then old(jobs)
        else old(jobs)[id := old(jobs)[id].(lastResult := Some(status))]
    {
      if !fault && id in jobs {
        jobs := jobs[id := jobs[id].(lastResult := Some(status))];
      }
    }
  }

  /** The loop inside the transaction, over the resolution in arbitrary order. */
  method UpsertRows(t: ObservedTable, job: int, hostIPs: map<string, string>, seenAt: int) returns (tx: ObservedTable)
    ensures tx == Upserted(t, job, hostIPs, seenAt)
  {
    tx := t;
    var rest := hostIPs.Keys;
    assert hostIPs - rest == map[];
    while rest != {}
      invariant rest <= hostIPs.Keys
      invariant IsUpsert(t, job, hostIPs - rest, seenAt, tx)
    {
      var ip :| ip in rest;
      UpsertOneMore(t, job, hostIPs, rest, ip, seenAt, tx);
      tx := UpsertRow(tx, job, ip, hostIPs[ip], seenAt);
      rest := rest - {ip};
    }
    assert hostIPs - rest == hostIPs;
    UpsertIsDetermined(t, job, hostIPs, seenAt, tx);
  }

  lemma UpsertIsDetermined(t: ObservedTable, job: int, hostIPs: map<string, string>, seenAt: int, t': ObservedTable)
    requires IsUpsert(t, job, hostIPs, seenAt, t')
    ensures t' == Upserted(t, job, hostIPs, seenAt)
  {
  }

  lemma UpsertOneMore(t: ObservedTable, job: int, hostIPs: map<string, string>, rest: set<string>, ip: string,
                      seenAt: int, tx: ObservedTable)
    requires rest <= hostIPs.Keys && ip in rest
    requires IsUpsert(t, job, hostIPs - rest, seenAt, tx)
    ensures IsUpsert(t, job, hostIPs - (rest - {ip}), seenAt, UpsertRow(tx, job, ip, hostIPs[ip], seenAt))
  {
    var done, done' := hostIPs - rest, hostIPs - (rest - {ip});
    var tx' := UpsertRow(tx, job, ip, hostIPs[ip], seenAt);
    forall k
      ensures k in tx' <==> k in t || (k.0 == job && k.1 in done')
      ensures k in tx' ==> tx'[k] == UpsertedRow(t, job, done', seenAt, k)
    {
      assert k in tx <==> k in t || (k.0 == job && k.1 in done);
      if k == (job, ip) {
        assert k in tx ==> tx[k] == UpsertedRow(t, job, done, seenAt, k);
      }
    }
  }
}
