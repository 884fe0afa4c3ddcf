/**
 What the runs of one job achieve over time (internal/syncer/syncer.go:73-147,
 internal/store/store.go:476-536), while runs of other jobs go on before, between and during them.
 */
module RunHistory {
  import opened NetworkLists
  import opened RetentionWindow
  import opened Store
  import opened Syncer
  import opened Timestamps

  // ----- The runs of one job -----

  /** The job's rows moved by the run's one event; other rows may have changed in any way. */
  ghost predicate MovedRows(r: RunRecord, before: ObservedTable, after: ObservedTable) {
    SameRows(after, Apply(before, r.job, EventOfRun(r)), r.job)
  }

  /** A run of the job as far as the cache is concerned. */
  ghost predicate OwnRun(e: Execution, job: int) {
    e.run == RecordWith(e.on, e.run.resolved) && e.run.job == job && MovedRows(e.run, e.before.cache, e.after.cache)
  }

  /**
   Runs of one job, each of which found the job's rows as the one before it left them. What a
   run resolved is that of its record, which for an `Executed` one is what its inputs determine.
   */
  ghost predicate OwnChain(es: seq<Execution>, job: int) {
    && (forall i :: 0 <= i < |es| ==> OwnRunAt(es, i, job))
    && forall i :: 0 < i < |es| ==> ContinuesAt(es, i, job)
  }

  ghost predicate OwnRunAt(es: seq<Execution>, i: nat, job: int)
    requires i < |es|
  {
    OwnRun(es[i], job)
  }

  ghost predicate ContinuesAt(es: seq<Execution>, i: nat, job: int)
    requires 0 < i < |es|
  {
    SameRows(es[i].before.cache, es[i - 1].after.cache, job)
  }

  lemma ChainPrefix(es: seq<Execution>, job: int, n: nat)
    requires OwnChain(es, job) && n <= |es|
    ensures OwnChain(es[..n], job)
  {
    var init := es[..n];
    forall i | 0 <= i < |init| ensures OwnRunAt(init, i, job) && (i > 0 ==> ContinuesAt(init, i, job)) {
      assert OwnRunAt(es, i, job) && (i > 0 ==> ContinuesAt(es, i, job));
    }
  }

  /** A chain whose last run left the job's rows as they are in the given cache. */
  ghost predicate EndsAt(es: seq<Execution>, job: int, cache: ObservedTable) {
    OwnChain(es, job) && (es != [] ==> SameRows(cache, es[|es| - 1].after.cache, job))
  }

  lemma ChainExtends(es: seq<Execution>, job: int, e: Execution)
    requires EndsAt(es, job, e.before.cache) && OwnRun(e, job)
    ensures EndsAt(es + [e], job, e.after.cache)
  {
    var all := es + [e];
    forall i | 0 <= i < |all| ensures OwnRunAt(all, i, job) && (i > 0 ==> ContinuesAt(all, i, job)) {
      if i < |es| {
        assert OwnRunAt(es, i, job) && (i > 0 ==> ContinuesAt(es, i, job));
      }
    }
  }

  /** The executions of one job, in order. */
  function OwnRuns(es: seq<Execution>, job: int): seq<Execution> {
    if es == [] then []
    else
      var init, last := OwnRuns(es[..|es| - 1], job), es[|es| - 1];
      if last.run.job == job then init + [last] else init
  }

  lemma OwnRunsSnoc(es: seq<Execution>, e: Execution, job: int)
    ensures OwnRuns(es + [e], job) == if e.run.job == job then OwnRuns(es, job) + [e] else OwnRuns(es, job)
  {
    assert (es + [e])[..|es|] == es;
  }

  /** The runs of every job form a chain that ends at the given cache. */
  ghost predicate AllChainsEndAt(es: seq<Execution>, cache: ObservedTable) {
    forall job :: EndsAt(OwnRuns(es, job), job, cache)
  }

  /** An execution that nothing overlaps continues the chain of its job and disturbs no other. */
  lemma AllChainsExtend(es: seq<Execution>, e: Execution)
    requires AllChainsEndAt(es, e.before.cache) && RanCache(e)
    ensures AllChainsEndAt(es + [e], e.after.cache)
  {
    forall job ensures EndsAt(OwnRuns(es + [e], job), job, e.after.cache) {
      assert EndsAt(OwnRuns(es, job), job, e.before.cache);
      OwnRunsSnoc(es, e, job);
      if e.run.job == job {
        ChainExtends(OwnRuns(es, job), job, e);
      } else {
        OtherRunIsLocal(e.run, e.before.cache, e.after.cache, job);
        ChainGoesOn(OwnRuns(es, job), job, e.before.cache, e.after.cache);
      }
    }
  }

  lemma OtherRunIsLocal(r: RunRecord, before: ObservedTable, after: ObservedTable, job: int)
    requires CacheMoved(r, before, after) && r.job != job
    ensures SameRows(after, before, job)
  {
    ApplyIsLocal(before, before, job, r.job, EventOfRun(r));
  }

  lemma ChainGoesOn(es: seq<Execution>, job: int, cache: ObservedTable, cache': ObservedTable)
    requires EndsAt(es, job, cache) && SameRows(cache', cache, job)
    ensures EndsAt(es, job, cache')
  {
    if es != [] {
      SameRowsTransitive(cache', cache, es[|es| - 1].after.cache, job);
    }
  }

  function RecordsOf(es: seq<Execution>): (runs: seq<RunRecord>)
    ensures |runs| == |es| && forall i :: 0 <= i < |es| ==> runs[i] == es[i].run
  {
    seq(|es|, i requires 0 <= i < |es| => es[i].run)
  }

  function History(runs: seq<RunRecord>): (events: seq<CacheEvent>)
    ensures |events| == |runs|
  {
    seq(|runs|, i requires 0 <= i < |runs| => EventOfRun(runs[i]))
  }

  /** After a chain the job's rows are what its own history makes of those it began with. */
  lemma {:induction false} OwnRows(es: seq<Execution>, job: int)
    requires OwnChain(es, job) && es != []
    ensures SameRows(es[|es| - 1].after.cache, After(es[0].before.cache, job, History(RecordsOf(es))), job)
  {
    var n := |es| - 1;
    var last, t, init := es[n], es[0].before.cache, es[..n];
    assert History(RecordsOf(es))[..n] == History(RecordsOf(init));
    var earlier := After(t, job, History(RecordsOf(init)));
    if n == 0 {
      assert History(RecordsOf(init)) == [];
    } else {
      ChainPrefix(es, job, n);
      OwnRows(init, job);
      assert ContinuesAt(es, n, job);
      SameRowsTransitive(last.before.cache, es[n - 1].after.cache, earlier, job);
    }
    ApplyIsLocal(last.before.cache, earlier, job, job, EventOfRun(last.run));
    assert OwnRunAt(es, n, job);
    SameRowsTransitive(last.after.cache, Apply(last.before.cache, job, EventOfRun(last.run)),
                       Apply(earlier, job, EventOfRun(last.run)), job);
  }

  /** A list shows only the job's own rows. */
  lemma SameRowsSameList(t: ObservedTable, u: ObservedTable, job: int, since: int, ip: string)
    requires SameRows(t, u, job)
    ensures ip in Listed(t, job, since) <==> ip in Listed(u, job, since)
  {
    ListedMeans(t, job, since, ip);
    ListedMeans(u, job, since, ip);
  }

  /** The last run lists an entry exactly if its own history alone would. */
  lemma ListOfOwnHistory(es: seq<Execution>, job: int, since: int, ip: string)
    requires OwnChain(es, job) && es != []
    ensures ip in Listed(es[|es| - 1].after.cache, job, since)
      <==> ip in Listed(After(es[0].before.cache, job, History(RecordsOf(es))), job, since)
  {
    OwnRows(es, job);
    SameRowsSameList(es[|es| - 1].after.cache, After(es[0].before.cache, job, History(RecordsOf(es))), job, since, ip);
  }

  lemma JobOfRun(es: seq<Execution>, job: int, i: nat)
    requires OwnChain(es, job) && i < |es|
    ensures es[i].run == RecordWith(es[i].on, es[i].run.resolved) && es[i].run.job == job
  {
    assert OwnRunAt(es, i, job);
  }

  // ----- The window -----

  /** A run of a job with retention that got as far as the list, and the cache it left. */
  ghost predicate Retained(r: RunRecord, cache: ObservedTable) {
    r.retention > 0 && WantedAfter(r, cache).Some?
  }

  ghost predicate ClockAdvances(runs: seq<RunRecord>) {
    forall i, j :: 0 <= i < j < |runs| ==> runs[i].nowNs <= runs[j].nowNs
  }

  /** The run resolved the entry and committed it to the cache. */
  predicate Records(r: RunRecord, ip: string) {
    r.resolved.Some? && ip in r.resolved.value && r.retention > 0 && !r.faults.upsert
  }

  /**
   The run leaves in the cache what was last seen at the given second: it did not resolve, or
   its statement failed, or retention is on and that second is not before its cutoff.
   */
  predicate Keeps(r: RunRecord, seenAt: int) {
    || r.resolved.None?
    || (if r.retention > 0 then r.faults.upsert || r.faults.expire || seenAt >= Seconds(r.nowNs - r.retention)
        else r.faults.clear)
  }

  /** Run `j` recorded the entry, and every run from it to the last kept it. */
  ghost predicate KeptSince(runs: seq<RunRecord>, ip: string, j: int) {
    && 0 <= j < |runs|
    && Records(runs[j], ip)
    && forall k :: j <= k < |runs| ==> Keeps(runs[k], Seconds(runs[j].nowNs))
  }

  ghost predicate StillKept(runs: seq<RunRecord>, ip: string) {
    exists j :: KeptSince(runs, ip, j)
  }

  lemma EventMeaning(r: RunRecord, ip: string)
    ensures Resolves(EventOfRun(r), ip) <==> Records(r, ip)
    ensures EventOfRun(r).Seen? ==> EventOfRun(r).at == Seconds(r.nowNs)
    ensures forall seenAt :: Spares(EventOfRun(r), seenAt) <==> Keeps(r, seenAt)
  {
  }

  lemma SameWindow(runs: seq<RunRecord>, ip: string, j: int)
    requires runs != [] && 0 <= j < |runs|
    requires var last := runs[|runs| - 1]; EventOfRun(last).Seen? && !last.faults.expire
    ensures InWindow(History(runs), ip, j) <==> KeptSince(runs, ip, j)
  {
    var history, n := History(runs), |runs| - 1;
    EventMeaning(runs[j], ip);
    if Resolves(history[j], ip) {
      var seenAt := history[j].at;
      forall k | 0 <= k < |runs| ensures Spares(history[k], seenAt) <==> Keeps(runs[k], seenAt) {
        EventMeaning(runs[k], ip);
      }
      assert Spares(history[n], seenAt) <==> seenAt >= history[n].cutoff;
    }
  }

  lemma WindowOfRuns(t: ObservedTable, job: int, runs: seq<RunRecord>, ip: string)
    requires NoRowsOf(t, job) && ClockAdvances(runs) && runs != []
    requires var last := runs[|runs| - 1]; last.resolved.Some? && last.retention > 0 && CacheSucceeds(1, last.faults)
    ensures var last := runs[|runs| - 1];
      ip in Listed(After(t, job, History(runs)), job, Cutoff(last))
      <==> StillKept(runs, ip)
  {
    var history, last := History(runs), runs[|runs| - 1];
    ClockOfHistory(runs);
    SameWindows(runs, ip);
    assert history[|runs| - 1].Seen? && history[|runs| - 1].cutoff == Cutoff(last);
    assert (exists j :: InWindow(history, ip, j)) <==> ip in Listed(After(t, job, history), job, Cutoff(last)) by {
      ListedIsSlidingWindow(t, job, history, ip);
    }
  }

  lemma SameWindows(runs: seq<RunRecord>, ip: string)
    requires runs != []
    requires var last := runs[|runs| - 1]; EventOfRun(last).Seen? && !last.faults.expire
    ensures (exists j :: InWindow(History(runs), ip, j)) <==> StillKept(runs, ip)
  {
    if j :| InWindow(History(runs), ip, j) {
      SameWindow(runs, ip, j);
    }
    if j :| KeptSince(runs, ip, j) {
      SameWindow(runs, ip, j);
    }
  }

  /**
   The promise of the cache. Over any chain of runs of a job that began without rows of it, an
   entry is wanted by the last run exactly if some run recorded it at a time that every run
   since, by its own setting, kept. Settings may change from run to run, retention may be off in
   some, and any may fail; only the clock must not run back.
   */
  lemma WantedIsSlidingWindow(es: seq<Execution>, job: int, ip: string)
    requires OwnChain(es, job) && es != []
    requires NoRowsOf(es[0].before.cache, job) && ClockAdvances(RecordsOf(es))
    requires WantedBy(es[|es| - 1]).Some? && es[|es| - 1].run.retention > 0
    ensures ip in WantedBy(es[|es| - 1]).value <==> StillKept(RecordsOf(es), ip)
  {
    JobOfRun(es, job, |es| - 1);
    WantedIsListed(es[|es| - 1].run, es[|es| - 1].after.cache, ip);
    ListIsWindow(es, job, ip);
  }

  lemma ListIsWindow(es: seq<Execution>, job: int, ip: string)
    requires OwnChain(es, job) && es != []
    requires NoRowsOf(es[0].before.cache, job) && ClockAdvances(RecordsOf(es))
    requires var last := es[|es| - 1].run; last.resolved.Some? && last.retention > 0 && CacheSucceeds(1, last.faults)
    ensures ip in Listed(es[|es| - 1].after.cache, job, Cutoff(es[|es| - 1].run)) <==> StillKept(RecordsOf(es), ip)
  {
    ListOfOwnHistory(es, job, Cutoff(es[|es| - 1].run), ip);
    WindowOfRuns(es[0].before.cache, job, RecordsOf(es), ip);
  }

  /** The same for every run of a chain and the runs up to it. */
  lemma WindowOfRun(es: seq<Execution>, job: int, n: nat, ip: string)
    requires OwnChain(es, job) && n < |es|
    requires NoRowsOf(es[0].before.cache, job) && ClockAdvances(RecordsOf(es))
    requires WantedBy(es[n]).Some? && es[n].run.retention > 0
    ensures ip in WantedBy(es[n]).value <==> StillKept(RecordsOf(es[..n + 1]), ip)
  {
    ChainPrefix(es, job, n + 1);
    assert RecordsOf(es[..n + 1]) == RecordsOf(es)[..n + 1];
    WantedIsSlidingWindow(es[..n + 1], job, ip);
  }

  function Cutoff(r: RunRecord): int {
    Seconds(r.nowNs - r.retention)
  }

  lemma WantedIsListed(r: RunRecord, cache: ObservedTable, ip: string)
    requires Retained(r, cache)
    ensures r.resolved.Some? && CacheSucceeds(1, r.faults)
    ensures ip in WantedAfter(r, cache).value <==> ip in Listed(cache, r.job, Cutoff(r))
  {
  }

  lemma ClockOfHistory(runs: seq<RunRecord>)
    requires ClockAdvances(runs)
    ensures ClockNeverRunsBack(History(runs))
  {
    var history := History(runs);
    forall i, j | 0 <= i < j < |history| && history[i].Seen? && history[j].Seen?
      ensures history[i].at <= history[j].at
    {
      EventMeaning(runs[i], "");
      EventMeaning(runs[j], "");
      assert runs[i].nowNs <= runs[j].nowNs;
    }
  }

  /** Run `j` recorded the entry at most that many hours before the last run. */
  ghost predicate RecordedWithin(runs: seq<RunRecord>, hours: int, ip: string, j: int)
    requires runs != []
  {
    && 0 <= j < |runs|
    && Records(runs[j], ip)
    && Seconds(runs[j].nowNs) >= Seconds(runs[|runs| - 1].nowNs) - hours * 3600
  }

  /**
   With one setting of `hours` hours the wanted entries are exactly those recorded at most that
   many hours before the last run, to the second.
   */
  lemma WantedIsRecentlyResolved(es: seq<Execution>, job: int, hours: nat, ip: string)
    requires OwnChain(es, job) && es != []
    requires NoRowsOf(es[0].before.cache, job) && ClockAdvances(RecordsOf(es))
    requires WantedBy(es[|es| - 1]).Some? && 1 <= hours <= MAX_EXACT_HOURS
    requires forall k :: 0 <= k < |es| ==> es[k].on.job.ttlHours == hours
    ensures ip in WantedBy(es[|es| - 1]).value <==> exists j :: RecordedWithin(RecordsOf(es), hours, ip, j)
  {
    SettingsOfRuns(es, job, hours);
    WantedIsListed(es[|es| - 1].run, es[|es| - 1].after.cache, ip);
    WantedIsSlidingWindow(es, job, ip);
    ConstantWindows(RecordsOf(es), hours, ip);
  }

  /**
   The same from the settings that users stored: if every run of the job worked for a stored job
   with this setting, its wanted entries are those recorded within that many hours, or within a
   week if the setting is negative.
   */
  lemma WantedByStoredSetting(es: seq<Execution>, job: int, stored: seq<SyncJob>, setting: int, hours: nat, ip: string)
    requires OwnChain(es, job) && es != [] && |stored| == |es|
    requires NoRowsOf(es[0].before.cache, job) && ClockAdvances(RecordsOf(es))
    requires WantedBy(es[|es| - 1]).Some? && setting != 0 && setting <= 2_562_047
    requires hours == if setting > 0 then setting else 168
    requires forall k :: 0 <= k < |es| ==>
      HoldsSettings(es[k].on.job, stored[k].id, stored[k]) && stored[k].ttlHours == setting
    ensures ip in WantedBy(es[|es| - 1]).value <==> exists j :: RecordedWithin(RecordsOf(es), hours, ip, j)
  {
    WantedIsRecentlyResolved(es, job, hours, ip);
  }

  lemma SettingsOfRuns(es: seq<Execution>, job: int, hours: nat)
    requires OwnChain(es, job) && 1 <= hours <= MAX_EXACT_HOURS
    requires forall k :: 0 <= k < |es| ==> es[k].on.job.ttlHours == hours
    ensures forall k :: 0 <= k < |es| ==> RecordsOf(es)[k].retention == hours * HOUR > 0
    ensures es != [] ==> es[|es| - 1].run.retention > 0
  {
    forall k | 0 <= k < |es| ensures RecordsOf(es)[k].retention == hours * HOUR {
      JobOfRun(es, job, k);
      RetentionExactIff(es[k].on.job);
    }
    if es != [] {
      assert RecordsOf(es)[|es| - 1] == es[|es| - 1].run;
    }
  }

  lemma ConstantWindows(runs: seq<RunRecord>, hours: nat, ip: string)
    requires runs != [] && ClockAdvances(runs) && hours > 0
    requires forall k :: 0 <= k < |runs| ==> runs[k].retention == hours * HOUR
    requires var last := runs[|runs| - 1]; last.resolved.Some? && CacheSucceeds(1, last.faults)
    ensures StillKept(runs, ip) <==> exists j :: RecordedWithin(runs, hours, ip, j)
  {
    forall j | 0 <= j < |runs| ensures KeptSince(runs, ip, j) <==> RecordedWithin(runs, hours, ip, j) {
      ConstantWindow(runs, hours, ip, j);
    }
  }

  lemma ConstantWindow(runs: seq<RunRecord>, hours: nat, ip: string, j: int)
    requires runs != [] && 0 <= j < |runs| && ClockAdvances(runs) && hours > 0
    requires forall k :: 0 <= k < |runs| ==> runs[k].retention == hours * HOUR
    requires var last := runs[|runs| - 1]; last.resolved.Some? && CacheSucceeds(1, last.faults)
    ensures KeptSince(runs, ip, j) <==> RecordedWithin(runs, hours, ip, j)
  {
    var seenAt, last := Seconds(runs[j].nowNs), runs[|runs| - 1];
    CutoffIsExact(last.nowNs, hours);
    if seenAt >= Seconds(last.nowNs) - hours * 3600 {
      forall k | j <= k < |runs| ensures Keeps(runs[k], seenAt) {
        CutoffIsExact(runs[k].nowNs, hours);
        assert k < |runs| - 1 ==> runs[k].nowNs <= last.nowNs;
      }
    } else {
      assert !Keeps(last, seenAt);
    }
  }

  /** With retention off an execution wants exactly what it resolved and leaves no rows of its job. */
  lemma RetentionOffWantsCurrentOnly(e: Execution)
    requires Ran(e) && WantedBy(e).Some? && e.run.retention <= 0
    ensures WantedBy(e) == e.run.resolved
    ensures NoRowsOf(e.after.cache, e.run.job)
  {
    OffClears(e.run, e.before.cache, e.after.cache);
  }

  lemma OffClears(r: RunRecord, before: ObservedTable, after: ObservedTable)
    requires CacheMoved(r, before, after) && WantedAfter(r, after).Some? && r.retention <= 0
    ensures WantedAfter(r, after) == r.resolved && NoRowsOf(after, r.job)
  {
  }

  // ----- Two consecutive runs of a job -----

  /** An entry that run `r` wanted is neither resolved by run `next` nor spared by its cutoff. */
  ghost predicate CutsOff(r: RunRecord, cache: ObservedTable, next: RunRecord, ip: string)
    requires Retained(r, cache) && next.resolved.Some?
  {
    && ip in WantedAfter(r, cache).value && ip !in next.resolved.value
    && (r.job, ip) in cache && cache[(r.job, ip)].lastSeen < Cutoff(next)
  }

  /** The next run resolves nothing new and cuts nothing off. */
  ghost predicate Settled(r: RunRecord, cache: ObservedTable, next: RunRecord)
    requires Retained(r, cache) && next.resolved.Some?
  {
    next.resolved.value.Keys <= WantedAfter(r, cache).value.Keys && forall ip :: !CutsOff(r, cache, next, ip)
  }

  /** A run with retention wants exactly the rows it leaves: those it resolves and those it does not cut off. */
  lemma RowsAreWanted(r: RunRecord, before: ObservedTable, cache: ObservedTable, ip: string)
    requires MovedRows(r, before, cache) && Retained(r, cache)
    ensures (r.job, ip) in cache <==> ip in WantedAfter(r, cache).value
    ensures ip in WantedAfter(r, cache).value
      <==> ip in r.resolved.value || ((r.job, ip) in before && before[(r.job, ip)].lastSeen >= Cutoff(r))
  {
    var resolved, at := r.resolved.value, Seconds(r.nowNs);
    assert Apply(before, r.job, EventOfRun(r)) == Expired(Upserted(before, r.job, resolved, at), r.job, Cutoff(r));
    CutoffNotAfterNow(r.nowNs, r.retention);
    RowAfterSeen(before, r.job, resolved, at, Cutoff(r), ip);
    ListedMeans(cache, r.job, Cutoff(r), ip);
  }

  /** The next run wants an entry iff it resolves it or does not cut it off. */
  lemma WantedAgain(r: RunRecord, before: ObservedTable, cache: ObservedTable,
                    next: RunRecord, before': ObservedTable, cache': ObservedTable, ip: string)
    requires MovedRows(r, before, cache) && Retained(r, cache)
    requires MovedRows(next, before', cache') && Retained(next, cache') && next.job == r.job
    requires SameRows(before', cache, r.job)
    ensures ip in WantedAfter(next, cache').value
      <==> ip in next.resolved.value || (ip in WantedAfter(r, cache).value && !CutsOff(r, cache, next, ip))
  {
    RowsAreWanted(r, before, cache, ip);
    RowsAreWanted(next, before', cache', ip);
    assert (r.job, ip) in before' <==> (r.job, ip) in cache;
  }

  lemma RowAfterSeen(t: ObservedTable, job: int, resolved: map<string, string>, at: int, cutoff: int, ip: string)
    requires cutoff <= at
    ensures var t' := Expired(Upserted(t, job, resolved, at), job, cutoff);
      && ((job, ip) in t' <==> ip in resolved || ((job, ip) in t && t[(job, ip)].lastSeen >= cutoff))
      && ((job, ip) in t' ==> t'[(job, ip)].lastSeen >= cutoff)
  {
    var k := (job, ip);
    var u := Upserted(t, job, resolved, at);
    assert k in u <==> k in t || ip in resolved;
    assert k in u ==> u[k] == UpsertedRow(t, job, resolved, at, k);
  }

  /** The next run wants the same entries if and only if it is settled. */
  lemma SameWantedIffSettled(r: RunRecord, before: ObservedTable, cache: ObservedTable,
                             next: RunRecord, before': ObservedTable, cache': ObservedTable)
    requires MovedRows(r, before, cache) && Retained(r, cache)
    requires MovedRows(next, before', cache') && Retained(next, cache') && next.job == r.job
    requires SameRows(before', cache, r.job)
    ensures WantedAfter(next, cache').value.Keys == WantedAfter(r, cache).value.Keys <==> Settled(r, cache, next)
  {
    var wanted' := WantedAfter(next, cache').value.Keys;
    forall ip ensures WantsAgain(r, cache, next, wanted', ip) {
      WantedAgain(r, before, cache, next, before', cache', ip);
    }
    SettledBySets(r, cache, next, wanted');
  }

  ghost predicate WantsAgain(r: RunRecord, cache: ObservedTable, next: RunRecord, wanted': set<string>, ip: string)
    requires Retained(r, cache) && next.resolved.Some?
  {
    ip in wanted' <==> ip in next.resolved.value || (ip in WantedAfter(r, cache).value && !CutsOff(r, cache, next, ip))
  }

  lemma SettledBySets(r: RunRecord, cache: ObservedTable, next: RunRecord, wanted': set<string>)
    requires Retained(r, cache) && next.resolved.Some?
    requires forall ip :: WantsAgain(r, cache, next, wanted', ip)
    ensures wanted' == WantedAfter(r, cache).value.Keys <==> Settled(r, cache, next)
  {
    var wanted, found := WantedAfter(r, cache).value.Keys, next.resolved.value.Keys;
    if wanted' == wanted {
      forall ip ensures (ip in found ==> ip in wanted) && !CutsOff(r, cache, next, ip) {
        assert WantsAgain(r, cache, next, wanted', ip);
      }
    }
    if Settled(r, cache, next) {
      forall ip ensures ip in wanted' <==> ip in wanted {
        assert WantsAgain(r, cache, next, wanted', ip) && !CutsOff(r, cache, next, ip);
        assert ip in found ==> ip in wanted;
      }
    }
  }

  /**
   Convergence. After a successful run whose list nobody else changed, the next run makes a PUT
   exactly if it gets as far as the list and wants other entries; and if it gets there without
   wanting others it succeeds with no changes.
   */
  lemma PutIffWantedChanged(e: Execution, f: Execution)
    requires ListStage(e) && e.result.status == Success
    requires ListStage(f) && f.before.items == e.after.items
    ensures WantedBy(e).Some?
    ensures
      && f.after.puts - f.before.puts
           == (if ReachesList(f) && WantedBy(f).value.Keys != WantedBy(e).value.Keys then 1 else 0)
      && (!ReachesList(f) || WantedBy(f).value.Keys == WantedBy(e).value.Keys ==> f.after.items == e.after.items)
      && (ReachesList(f) && WantedBy(f).value.Keys == WantedBy(e).value.Keys ==> f.result == SyncResult(Success, 0))
  {
    SuccessOfRun(e);
  }

  /**
   The list does not flap. Of two consecutive runs of a job with retention, the first successful
   and its list untouched since, the second makes a PUT exactly if it gets as far as the list and
   either resolves an entry not wanted before or cuts one off. An entry that only disappears from
   DNS causes none.
   */
  lemma PutIffUnsettled(es: seq<Execution>, i: nat, job: int)
    requires OwnChain(es, job) && i + 1 < |es| && ListStage(es[i]) && ListStage(es[i + 1])
    requires es[i].result.status == Success && es[i + 1].before.items == es[i].after.items
    requires es[i].run.retention > 0 && es[i + 1].run.retention > 0
    ensures Retained(es[i].run, es[i].after.cache)
    ensures es[i + 1].after.puts != es[i + 1].before.puts
      <==> ReachesList(es[i + 1]) && !Settled(es[i].run, es[i].after.cache, es[i + 1].run)
  {
    var e, f := es[i], es[i + 1];
    assert ContinuesAt(es, i + 1, job) && OwnRunAt(es, i, job) && OwnRunAt(es, i + 1, job);
    PutIffWantedChanged(e, f);
    if WantedBy(f).Some? {
      SameWantedIffSettled(e.run, e.before.cache, e.after.cache, f.run, f.before.cache, f.after.cache);
    }
  }

  // ----- A steady list -----

  /** Some run up to run `k` recorded the entry at a time that run `k` does not cut off. */
  ghost predicate SeenInTime(es: seq<Execution>, ip: string, k: nat)
    requires k < |es|
  {
    exists j :: 0 <= j <= k && RecordedBy(es, ip, j) && Seconds(es[j].run.nowNs) >= Cutoff(es[k].run)
  }

  ghost predicate RecordedBy(es: seq<Execution>, ip: string, j: int)
    requires 0 <= j < |es|
  {
    Records(es[j].run, ip)
  }

  /** Run `k` resolves nothing at all, or nothing beyond `wanted`, each of which was resolved in time. */
  ghost predicate Refreshes(es: seq<Execution>, wanted: set<string>, k: nat)
    requires k < |es|
  {
    var r := es[k].run;
    || r.resolved.None?
    || (r.retention > 0 && r.resolved.value.Keys <= wanted && forall ip :: ip in wanted ==> SeenInTime(es, ip, k))
  }

  /** Between two runs of the job its rows stay. */
  lemma RowContinues(es: seq<Execution>, job: int, k: nat, ip: string)
    requires OwnChain(es, job) && 0 < k < |es|
    ensures (job, ip) in es[k].before.cache <==> (job, ip) in es[k - 1].after.cache
    ensures (job, ip) in es[k].before.cache ==> es[k].before.cache[(job, ip)] == es[k - 1].after.cache[(job, ip)]
  {
    assert ContinuesAt(es, k, job);
  }

  /** What one run of a chain does to one row. */
  lemma RowOfRun(es: seq<Execution>, job: int, k: nat, ip: string)
    requires OwnChain(es, job) && k < |es| && (job, ip) in es[k].after.cache
    ensures var r, row := es[k].run, es[k].after.cache[(job, ip)];
      if Records(r, ip) then row.lastSeen == Seconds(r.nowNs)
      else (job, ip) in es[k].before.cache && row == es[k].before.cache[(job, ip)]
  {
    assert OwnRunAt(es, k, job);
    EventMeaning(es[k].run, ip);
    RowAfterEvent(es[k].before.cache, job, EventOfRun(es[k].run), ip);
  }

  /** A row is never older than any of its recordings. */
  lemma {:induction false} LastSeenCovers(es: seq<Execution>, job: int, k: nat, j: nat, ip: string)
    requires OwnChain(es, job) && ClockAdvances(RecordsOf(es)) && j <= k < |es|
    requires Records(es[j].run, ip) && (job, ip) in es[k].after.cache
    ensures es[k].after.cache[(job, ip)].lastSeen >= Seconds(es[j].run.nowNs)
  {
    RowOfRun(es, job, k, ip);
    if Records(es[k].run, ip) {
      assert j < k ==> RecordsOf(es)[j].nowNs <= RecordsOf(es)[k].nowNs;
    } else {
      RowContinues(es, job, k, ip);
      LastSeenCovers(es, job, k - 1, j, ip);
    }
  }

  /** The job has rows for exactly these entries. */
  ghost predicate RowsExactly(cache: ObservedTable, job: int, wanted: set<string>) {
    forall ip :: (job, ip) in cache <==> ip in wanted
  }

  lemma RowsOfRetained(r: RunRecord, before: ObservedTable, cache: ObservedTable, wanted: set<string>)
    requires MovedRows(r, before, cache) && Retained(r, cache)
    ensures RowsExactly(cache, r.job, wanted) <==> WantedAfter(r, cache).value.Keys == wanted
  {
    var keys := WantedAfter(r, cache).value.Keys;
    forall ip ensures (r.job, ip) in cache <==> ip in keys {
      RowsAreWanted(r, before, cache, ip);
    }
  }

  /** While every run refreshes what was wanted, the job's rows stay exactly that. */
  lemma {:induction false} SteadyRows(es: seq<Execution>, job: int, b: nat, k: nat, wanted: set<string>)
    requires OwnChain(es, job) && ClockAdvances(RecordsOf(es)) && b <= k < |es|
    requires RowsExactly(es[b].after.cache, job, wanted)
    requires forall m :: b < m <= k ==> Refreshes(es, wanted, m)
    ensures RowsExactly(es[k].after.cache, job, wanted)
    decreases k - b
  {
    if k == b {
    } else {
      SteadyRows(es, job, b, k - 1, wanted);
      assert Refreshes(es, wanted, k);
      RefreshedRows(es, job, k, wanted);
    }
  }

  lemma RefreshedRows(es: seq<Execution>, job: int, k: nat, wanted: set<string>)
    requires OwnChain(es, job) && ClockAdvances(RecordsOf(es)) && 0 < k < |es| && Refreshes(es, wanted, k)
    requires RowsExactly(es[k - 1].after.cache, job, wanted)
    ensures RowsExactly(es[k].after.cache, job, wanted)
  {
    var e := es[k];
    assert OwnRunAt(es, k, job) && ContinuesAt(es, k, job);
    forall ip ensures (job, ip) in e.after.cache <==> ip in wanted {
      assert (job, ip) in e.before.cache <==> ip in wanted;
      if ip !in wanted {
        NoNewRow(e.run, e.before.cache, e.after.cache, ip);
      } else {
        if e.run.resolved.Some? {
          RowInTime(es, job, k, wanted, ip);
        }
        RowKept(e.run, e.before.cache, e.after.cache, ip);
      }
    }
  }

  lemma NoNewRow(r: RunRecord, before: ObservedTable, cache: ObservedTable, ip: string)
    requires MovedRows(r, before, cache) && (r.job, ip) !in before
    requires r.resolved.Some? ==> ip !in r.resolved.value
    ensures (r.job, ip) !in cache
  {
    EventMeaning(r, ip);
    RowAfterEvent(before, r.job, EventOfRun(r), ip);
  }

  lemma RowKept(r: RunRecord, before: ObservedTable, cache: ObservedTable, ip: string)
    requires MovedRows(r, before, cache) && (r.job, ip) in before
    requires r.resolved.Some? ==> r.retention > 0 && (Records(r, ip) || before[(r.job, ip)].lastSeen >= Cutoff(r))
    ensures (r.job, ip) in cache
  {
    EventMeaning(r, ip);
    RowAfterEvent(before, r.job, EventOfRun(r), ip);
    if r.resolved.Some? {
      CutoffNotAfterNow(r.nowNs, r.retention);
    }
  }

  /** What is not resolved again in run `k` was in time before it. */
  lemma RowInTime(es: seq<Execution>, job: int, k: nat, wanted: set<string>, ip: string)
    requires OwnChain(es, job) && ClockAdvances(RecordsOf(es)) && 0 < k < |es| && Refreshes(es, wanted, k)
    requires es[k].run.resolved.Some? && ip in wanted && (job, ip) in es[k].before.cache
    ensures Records(es[k].run, ip) || es[k].before.cache[(job, ip)].lastSeen >= Cutoff(es[k].run)
  {
    assert SeenInTime(es, ip, k);
    var j :| 0 <= j <= k && RecordedBy(es, ip, j) && Seconds(es[j].run.nowNs) >= Cutoff(es[k].run);
    if j < k {
      RowContinues(es, job, k, ip);
      LastSeenCovers(es, job, k - 1, j, ip);
    }
  }

  /**
   Steadiness. If after one successful run every further run of the job resolves only what was
   wanted, each wanted entry is resolved again before it would be cut off, and nobody else
   touches the list, then no further run makes a PUT, whatever fails in between, and every run
   that gets as far as the list succeeds without changes.
   */
  lemma SteadyListIsNotWritten(es: seq<Execution>, job: int, b: nat, k: nat)
    requires SteadySince(es, job, b, k) && b < k
    ensures es[k].after.puts == es[k].before.puts && es[k].after.items == es[b].after.items
    ensures ReachesList(es[k]) ==> es[k].result == SyncResult(Success, 0)
  {
    ListStays(es, job, b, k - 1);
    SteadyRun(es, job, b, k);
  }

  ghost predicate SteadySince(es: seq<Execution>, job: int, b: nat, k: nat) {
    && OwnChain(es, job) && ClockAdvances(RecordsOf(es)) && b <= k < |es|
    && Retained(es[b].run, es[b].after.cache) && es[b].result.status == Success
    && (forall m :: b <= m <= k ==> ListStageAt(es, m))
    && (forall m :: b < m <= k ==> Refreshes(es, WantedBy(es[b]).value.Keys, m))
    && forall m :: b < m <= k ==> ListUntouched(es, m)
  }

  lemma {:induction false} ListStays(es: seq<Execution>, job: int, b: nat, k: nat)
    requires SteadySince(es, job, b, k)
    ensures es[k].after.items == es[b].after.items
    decreases k - b
  {
    if k == b {
    } else {
      ListStays(es, job, b, k - 1);
      SteadyRun(es, job, b, k);
    }
  }

  /** One more run on a list that is still as run `b` left it. */
  lemma SteadyRun(es: seq<Execution>, job: int, b: nat, k: nat)
    requires SteadySince(es, job, b, k) && b < k && es[k - 1].after.items == es[b].after.items
    ensures es[k].after.puts == es[k].before.puts && es[k].after.items == es[b].after.items
    ensures ReachesList(es[k]) ==> es[k].result == SyncResult(Success, 0)
  {
    assert ListUntouched(es, k);
    SteadyWanted(es, job, b, k);
    assert ListStageAt(es, b) && ListStageAt(es, k);
    PutIffWantedChanged(es[b], es[k]);
  }

  lemma SteadyWanted(es: seq<Execution>, job: int, b: nat, k: nat)
    requires SteadySince(es, job, b, k) && b < k
    ensures WantedBy(es[k]).Some? ==> WantedBy(es[k]).value.Keys == WantedBy(es[b]).value.Keys
  {
    var wanted := WantedBy(es[b]).value.Keys;
    assert OwnRunAt(es, b, job) && OwnRunAt(es, k, job) && Refreshes(es, wanted, k);
    RowsOfRetained(es[b].run, es[b].before.cache, es[b].after.cache, wanted);
    SteadyRows(es, job, b, k, wanted);
    if WantedBy(es[k]).Some? {
      RowsOfRetained(es[k].run, es[k].before.cache, es[k].after.cache, wanted);
    }
  }

  ghost predicate ListStageAt(es: seq<Execution>, m: nat)
    requires m < |es|
  {
    ListStage(es[m])
  }

  /** Nobody else changed the list between run `m` and the one before it. */
  ghost predicate ListUntouched(es: seq<Execution>, m: nat)
    requires 0 < m < |es|
  {
    es[m].before.items == es[m - 1].after.items
  }
}
