/**
 One sync run (internal/syncer/syncer.go:24-147, 257-267). What the environment contributes -
 the clock, the DNS, and which statement or request fails - is given by arguments.
 */
module Syncer {
  import opened Wrappers
  import opened Strings
  import opened IpOrder
  import opened Resolver
  import opened HostnameResolver
  import opened Store
  import opened Timestamps
  import opened RetentionWindow
  import opened NetworkLists

  datatype Faults = Faults(getJob: bool, createLog: bool, servers: bool, upsert: bool, expire: bool, list: bool,
                           clear: bool, controller: bool, get: bool, put: bool, updateLog: bool, updateJob: bool)

  datatype SyncResult = SyncResult(status: Status, changesMade: nat)

  const FAILED := SyncResult(Error, 0)

  /** A list on the controller. A PUT that fails changes nothing; `puts` counts the attempts. */
  class NetworkList {
    var items: seq<TrafficMatchItem>
    ghost var puts: nat

    method Put(items: seq<TrafficMatchItem>, fault: bool) returns (ok: bool)
      modifies this
      ensures ok == !fault && puts == old(puts) + 1
      ensures this.items == if fault then old(this.items) else items
    {
      puts := puts + 1;
      if !fault {
        this.items := items;
      }
      return !fault;
    }
  }

  /** The effect of a run on the cache, once its hostnames were resolved. */
  function EventOf(resolved: map<string, string>, retention: int, nowNs: int, faults: Faults): CacheEvent {
    if retention > 0 then
      if faults.upsert then Untouched
      else Seen(resolved, Seconds(nowNs), Seconds(nowNs - retention), !faults.expire)
    else if faults.clear then Untouched
    else Dropped
  }

  /** Whether the run gets past its cache statements. */
  predicate CacheSucceeds(retention: int, faults: Faults) {
    if retention > 0 then !faults.upsert && !faults.expire && !faults.list else !faults.clear
  }

  /** The entries the run wants on the controller, given the cache it leaves behind. */
  function Desired(resolved: map<string, string>, retention: int, nowNs: int, cache: ObservedTable, job: int):
    map<string, string>
  {
    if retention > 0 then Listed(cache, job, Seconds(nowNs - retention)) else resolved
  }

  lemma CutoffNotAfterNow(nowNs: int, retention: int)
    requires retention > 0
    ensures Seconds(nowNs - retention) <= Seconds(nowNs)
  {
  }

  /**
   After recording, expiring and listing with positive retention, merging the resolution into
   the listed cache changes neither its entries nor their labels.
   */
  lemma MergeAfterListingIsIdentity(t: ObservedTable, job: int, resolved: map<string, string>, retention: int,
                                    nowNs: int, faults: Faults)
    requires retention > 0 && !faults.upsert
    ensures var after := Apply(t, job, EventOf(resolved, retention, nowNs, faults));
      var listed := Listed(after, job, Seconds(nowNs - retention));
      Merged(listed, resolved) == listed
  {
    CutoffNotAfterNow(nowNs, retention);
    var e := EventOf(resolved, retention, nowNs, faults);
    CurrentResolutionIsListed(t, job, e);
    MergeIsIdentity(Listed(Apply(t, job, e), job, e.cutoff), resolved);
  }

  /**
   The cache stage of a run: the cache moves by exactly one event; if every statement succeeds
   the wanted entries are what the cache then lists, or with retention off the resolution, and
   in both cases they hold the whole resolution with its labels.
   */
  ghost predicate CacheStage(before: ObservedTable, after: ObservedTable, job: int, retention: int,
                             resolved: map<string, string>, nowNs: int, faults: Faults,
                             desired: Option<map<string, string>>) {
    && after == Apply(before, job, EventOf(resolved, retention, nowNs, faults))
    && (desired.Some? <==> CacheSucceeds(retention, faults))
    && (desired.Some? ==>
          && desired.value == Desired(resolved, retention, nowNs, after, job)
          && forall ip :: ip in resolved ==> ip in desired.value && desired.value[ip] == resolved[ip])
  }

  lemma RetainedStage(t: ObservedTable, job: int, retention: int, resolved: map<string, string>, nowNs: int,
                      faults: Faults, after: ObservedTable, merged: map<string, string>)
    requires retention > 0 && CacheSucceeds(retention, faults)
    requires after == Expired(Upserted(t, job, resolved, Seconds(nowNs)), job, Seconds(nowNs - retention))
    requires merged == Merged(Listed(after, job, Seconds(nowNs - retention)), resolved)
    ensures CacheStage(t, after, job, retention, resolved, nowNs, faults, Some(merged))
  {
    var e := EventOf(resolved, retention, nowNs, faults);
    assert after == Apply(t, job, e);
    CutoffNotAfterNow(nowNs, retention);
    CurrentResolutionIsListed(t, job, e);
    MergeAfterListingIsIdentity(t, job, resolved, retention, nowNs, faults);
  }

  /** The cache part of a run: record, expire, list and merge, or clear. */
  method UpdateCache(db: Database, job: SyncJob, resolved: map<string, string>, nowNs: int, faults: Faults)
    returns (desired: Option<map<string, string>>)
    requires resolved != map[]
    modifies db`observed
    ensures CacheStage(old(db.observed), db.observed, job.id, ObservedIPRetention(Some(job)), resolved, nowNs, faults,
                       desired)
  {
    var retention := ObservedIPRetention(Some(job));
    if retention > 0 {
      desired := Retain(db, job.id, retention, resolved, nowNs, faults);
    } else {
      var ok := db.DeleteObservedIPs(job.id, faults.clear);
      desired := if ok then Some(resolved) else None;
    }
  }

  method Retain(db: Database, job: int, retention: int, resolved: map<string, string>, nowNs: int, faults: Faults)
    returns (desired: Option<map<string, string>>)
    requires resolved != map[] && retention > 0
    modifies db`observed
    ensures CacheStage(old(db.observed), db.observed, job, retention, resolved, nowNs, faults, desired)
  {
    var cutoff := Seconds(nowNs - retention);
    var ok := db.UpsertObservedIPs(job, resolved, Seconds(nowNs), faults.upsert);
    if !ok {
      return None;
    }
    ok := db.DeleteExpiredObservedIPs(job, cutoff, faults.expire);
    if !ok {
      return None;
    }
    var observed := db.ListObservedIPs(job, cutoff, faults.list);
    if observed.None? {
      return None;
    }
    var merged := MergeResolvedIPs(observed.value, resolved);
    RetainedStage(old(db.observed), job, retention, resolved, nowNs, faults, db.observed, merged);
    return Some(merged);
  }

  /** The list already holds exactly the wanted entries, ignoring order, repeats and ranges. */
  ghost predicate InSync(items: seq<TrafficMatchItem>, wanted: set<string>) {
    Elements(Entries(items)) == wanted
  }

  /** The list was written from a sorted arrangement of the wanted entries. */
  ghost predicate WrittenFrom(lib: NetLib, items: seq<TrafficMatchItem>, wanted: set<string>) {
    exists ips :: Sorted(lib, ips) && multiset(ips) == multiset(wanted) && items == Items(ips)
  }

  lemma WrittenIsInSync(lib: NetLib, items: seq<TrafficMatchItem>, wanted: set<string>)
    requires WrittenFrom(lib, items, wanted)
    ensures InSync(items, wanted)
    ensures Entries(items) != [] <==> wanted != {}
  {
    var ips :| Sorted(lib, ips) && multiset(ips) == multiset(wanted) && items == Items(ips);
    SetArrangement(ips, wanted);
    EntriesOfItems(ips);
  }

  /**
   A written list, item by item: the wanted entries in listing order, each as an item that holds
   it and nothing else, subnets where the entry has a slash.
   */
  lemma WrittenItemsMean(lib: NetLib, items: seq<TrafficMatchItem>, wanted: set<string>) returns (ips: seq<string>)
    requires WrittenFrom(lib, items, wanted)
    ensures (forall ip :: ip in ips <==> ip in wanted) && |ips| == |wanted| == |items|
    ensures forall i, j :: 0 <= i < j < |ips| ==> NotAfter(lib, ips[i], ips[j])
    ensures forall i :: 0 <= i < |ips| ==> ItemHolds(items[i], ips[i])
  {
    ips :| Sorted(lib, ips) && multiset(ips) == multiset(wanted) && items == Items(ips);
    SetArrangement(ips, wanted);
    SortedMeans(lib, ips);
    forall i | 0 <= i < |ips| ensures ItemHolds(items[i], ips[i]) {
      ItemForHolds(ips[i]);
    }
  }

  /** So an address stands as an address item and a network as a subnet item. */
  lemma KindsOfWrittenItems(item: TrafficMatchItem, a: Addr, n: Net)
    ensures ItemHolds(item, Dotted(a)) ==> item.kind == "IP_ADDRESS"
    ensures ItemHolds(item, NetText(n)) ==> item.kind == "SUBNET"
  {
    DottedHasNoSlash(a);
    assert NetText(n)[|Dotted(n.addr)|] == '/';
  }

  /** What is written does not depend on the order in which the entries were collected. */
  lemma WrittenListIsDetermined(lib: NetLib, items: seq<TrafficMatchItem>, items': seq<TrafficMatchItem>,
                                wanted: set<string>)
    requires WrittenFrom(lib, items, wanted) && WrittenFrom(lib, items', wanted)
    requires forall x :: x in wanted ==> Canonical(lib, x)
    requires NoPairIn(lib, wanted)
    ensures items == items'
  {
    var ips :| Sorted(lib, ips) && multiset(ips) == multiset(wanted) && items == Items(ips);
    var ips' :| Sorted(lib, ips') && multiset(ips') == multiset(wanted) && items' == Items(ips');
    SetArrangement(ips, wanted);
    SortedArrangementsAgree(lib, ips, ips');
  }

  /**
   The controller stage of a run: it succeeds exactly when the list could be fetched and was
   either in sync or could be written, it then leaves the list in sync, it writes only a list
   that was fetched out of sync, and then once. It reports as changes the missing entries and the
   unwanted items.
   */
  ghost predicate PushStage(lib: NetLib, before: seq<TrafficMatchItem>, after: seq<TrafficMatchItem>, puts: int,
                            wanted: set<string>, faults: Faults, result: SyncResult) {
    var fetched := !faults.controller && !faults.get;
    && (result.status == Success || result == FAILED)
    && (result.status == Success <==> fetched && (InSync(before, wanted) || !faults.put))
    && (result.status == Success ==> InSync(after, wanted))
    && (result.status == Success ==> result.changesMade == ChangesFor(before, wanted))
    && (result.status == Success ==> (result.changesMade == 0 <==> InSync(before, wanted)))
    && puts == (if fetched && !InSync(before, wanted) then 1 else 0)
    && (puts == 0 || faults.put ==> after == before)
    && (puts == 1 && !faults.put ==> WrittenFrom(lib, after, wanted))
  }

  /** The controller part of a run: fetch, compare, and write only when the entries differ. */
  method Push(list: NetworkList, lib: NetLib, desired: map<string, string>, faults: Faults) returns (result: SyncResult)
    modifies list
    ensures PushStage(lib, old(list.items), list.items, list.puts - old(list.puts), desired.Keys, faults, result)
  {
    if faults.controller || faults.get {
      return FAILED;
    }
    var newIPs := SortedIPs(lib, desired);
    var fetched := ExtractIPsFromItems(list.items);
    var oldIPs := SortSlice(TEXT_ONLY, fetched);
    var added, removed, kept := DiffIPs(oldIPs, newIPs);
    DiffDecides(lib, list.items, oldIPs, newIPs, desired.Keys);
    if |added| == 0 && |removed| == 0 {
      return SyncResult(Success, 0);
    }
    var items := IPsToItems(newIPs);
    WriteOutcome(lib, list.items, items, desired.Keys, faults);
    var ok := list.Put(items, faults.put);
    if !ok {
      return FAILED;
    }
    return SyncResult(Success, |added| + |removed|);
  }

  /** What the controller stage needs to know about its comparison. */
  lemma DiffDecides(lib: NetLib, items: seq<TrafficMatchItem>, oldIPs: seq<string>, newIPs: seq<string>,
                    wanted: set<string>)
    requires Sorted(lib, newIPs) && multiset(newIPs) == multiset(wanted)
    requires multiset(oldIPs) == multiset(Entries(items))
    ensures var added, removed := Without(newIPs, Elements(oldIPs)), Without(oldIPs, Elements(newIPs));
      && |added| + |removed| == ChangesFor(items, wanted)
      && (|added| + |removed| == 0 <==> InSync(items, wanted))
    ensures WrittenFrom(lib, Items(newIPs), wanted)
  {
    SetArrangement(newIPs, wanted);
    assert Elements(newIPs) == wanted;
    PermutedElements(Entries(items), oldIPs);
    DiffLaws(oldIPs, newIPs);
    ChangesCounted(items, oldIPs, newIPs, wanted);
  }

  lemma WriteOutcome(lib: NetLib, before: seq<TrafficMatchItem>, items: seq<TrafficMatchItem>, wanted: set<string>,
                     faults: Faults)
    requires !faults.controller && !faults.get && !InSync(before, wanted) && ChangesFor(before, wanted) != 0
    requires WrittenFrom(lib, items, wanted)
    ensures faults.put ==> PushStage(lib, before, before, 1, wanted, faults, FAILED)
    ensures !faults.put ==>
      PushStage(lib, before, items, 1, wanted, faults, SyncResult(Success, ChangesFor(before, wanted)))
  {
    WrittenIsInSync(lib, items, wanted);
  }

  lemma PermutedElements(s: seq<string>, t: seq<string>)
    requires multiset(s) == multiset(t)
    ensures Elements(s) == Elements(t)
  {
    forall x ensures x in s <==> x in t {
      assert x in multiset(s) <==> x in multiset(t);
    }
  }

  /** What a run can change: the cache, the list, and the number of PUT requests made. */
  datatype World = World(cache: ObservedTable, items: seq<TrafficMatchItem>, puts: nat)

  ghost function WorldOf(db: Database, list: NetworkList): World
    reads db`observed, list`items, list`puts
  {
    World(db.observed, list.items, list.puts)
  }

  /** What the environment hands to one run. */
  datatype Inputs = Inputs(d: Dns, servers: seq<string>, job: SyncJob, nowNs: int, faults: Faults)

  function RetentionFor(on: Inputs): int {
    ObservedIPRetention(Some(on.job))
  }

  /** The resolution of the run, if its servers can be listed, there are some, and a line yields an entry. */
  ghost function ResolvedBy(on: Inputs): Option<map<string, string>> {
    if on.faults.servers || on.servers == [] then None
    else
      match ResolutionResult(on.d, ServerSet(on.servers), InputLines(Split(on.job.hostnames, "\n")))
      case Ok(resolved) => Some(resolved)
      case Err(_) => None
  }

  /** A run as far as its job's cache is concerned; `resolved` is `None` when it got no resolution. */
  datatype RunRecord = RunRecord(
    job: int, resolved: Option<map<string, string>>, retention: int, nowNs: int, faults: Faults)

  /** One call of `execute`: its inputs, what it resolved, what it found, what it left, what it returned. */
  datatype Execution = Execution(on: Inputs, run: RunRecord, before: World, after: World, result: SyncResult)

  function RecordWith(on: Inputs, resolved: Option<map<string, string>>): RunRecord {
    RunRecord(on.job.id, resolved, RetentionFor(on), on.nowNs, on.faults)
  }

  /** What the run does to the cache. */
  function EventOfRun(r: RunRecord): CacheEvent {
    match r.resolved
    case None => Untouched
    case Some(resolved) => EventOf(resolved, r.retention, r.nowNs, r.faults)
  }

  /** The entries the run wants on the controller, if it gets that far, given the cache it leaves. */
  function WantedAfter(r: RunRecord, cache: ObservedTable): Option<map<string, string>> {
    match r.resolved
    case None => None
    case Some(resolved) =>
      if CacheSucceeds(r.retention, r.faults)
      then Some(Desired(resolved, r.retention, r.nowNs, cache, r.job))
      else None
  }

  function WantedBy(e: Execution): Option<map<string, string>> {
    WantedAfter(e.run, e.after.cache)
  }

  /**
   All of `execute` after resolving: the cache moves by the run's one event, a run that wants
   nothing on the controller fails and leaves it alone, and any other goes through the
   controller stage.
   */
  ghost predicate Ran(e: Execution) {
    RanCache(e) && ListStage(e)
  }

  ghost predicate ListStage(e: Execution) {
    && e.run == RecordWith(e.on, e.run.resolved)
    && match WantedBy(e)
       case None => e.result == FAILED && e.after.items == e.before.items && e.after.puts == e.before.puts
       case Some(wanted) => Pushed(e, wanted.Keys)
  }

  ghost predicate RanCache(e: Execution) {
    && e.run == RecordWith(e.on, e.run.resolved)
    && CacheMoved(e.run, e.before.cache, e.after.cache)
  }

  /** All of `execute`, with the resolution that the inputs determine. */
  ghost predicate Executed(e: Execution) {
    e.run.resolved == ResolvedBy(e.on) && Ran(e)
  }

  ghost predicate CacheMoved(r: RunRecord, before: ObservedTable, after: ObservedTable) {
    after == Apply(before, r.job, EventOfRun(r))
  }

  ghost predicate Pushed(e: Execution, wanted: set<string>) {
    PushStage(e.on.d.lib, e.before.items, e.after.items, e.after.puts - e.before.puts, wanted, e.run.faults, e.result)
  }

  method Execute(db: Database, list: NetworkList, d: Dns, job: SyncJob, nowNs: int, faults: Faults)
    returns (result: SyncResult)
    modifies db`observed, list
    ensures Executed(ExecutionOf(Inputs(d, db.enabledServers, job, nowNs, faults),
                                 old(WorldOf(db, list)), WorldOf(db, list), result))
  {
    ghost var on := Inputs(d, db.enabledServers, job, nowNs, faults);
    if faults.servers || |db.enabledServers| == 0 {
      return FAILED;
    }
    var hostIPs := ResolveHostnames(d, job.hostnames, db.enabledServers);
    if hostIPs.Err? {
      return FAILED;
    }
    ResolutionIsNonEmpty(on);
    result := Synchronize(db, list, d, job, nowNs, faults, hostIPs.value);
  }

  /** The part of `execute` after resolving. */
  method Synchronize(db: Database, list: NetworkList, d: Dns, job: SyncJob, nowNs: int, faults: Faults,
                     hostIPs: map<string, string>) returns (result: SyncResult)
    requires hostIPs != map[]
    modifies db`observed, list
    ensures var on := Inputs(d, db.enabledServers, job, nowNs, faults);
      Ran(Execution(on, RecordWith(on, Some(hostIPs)), old(WorldOf(db, list)), WorldOf(db, list), result))
  {
    ghost var on := Inputs(d, db.enabledServers, job, nowNs, faults);
    ghost var run, before := RecordWith(on, Some(hostIPs)), WorldOf(db, list);
    var desired := UpdateCache(db, job, hostIPs, nowNs, faults);
    if desired.None? {
      StagesCompose(Execution(on, run, before, WorldOf(db, list), FAILED), hostIPs, desired);
      return FAILED;
    }
    result := Push(list, d.lib, desired.value, faults);
    StagesCompose(Execution(on, run, before, WorldOf(db, list), result), hostIPs, desired);
  }

  ghost function ExecutionOf(on: Inputs, before: World, after: World, result: SyncResult): Execution {
    Execution(on, RecordWith(on, ResolvedBy(on)), before, after, result)
  }

  /** A successful resolution is never empty. */
  lemma ResolutionIsNonEmpty(on: Inputs)
    ensures ResolvedBy(on).Some? ==> ResolvedBy(on).value != map[]
  {
    var known, lines := ServerSet(on.servers), InputLines(Split(on.job.hostnames, "\n"));
    if e :| e in AllEntries(on.d, known, lines) {
      assert e in Resolution(on.d, known, lines);
    }
  }

  lemma StagesCompose(e: Execution, resolved: map<string, string>, desired: Option<map<string, string>>)
    requires e.run == RecordWith(e.on, Some(resolved))
    requires CacheStage(e.before.cache, e.after.cache, e.run.job, e.run.retention, resolved, e.run.nowNs, e.run.faults,
                        desired)
    requires desired.None? ==> e.result == FAILED && e.after.items == e.before.items && e.after.puts == e.before.puts
    requires desired.Some? ==> Pushed(e, desired.value.Keys)
    ensures Ran(e)
  {
  }

  /** Some line of the job yields an entry, and no line lacks servers to be looked up with. */
  ghost predicate Resolvable(on: Inputs) {
    var known, lines := ServerSet(on.servers), InputLines(Split(on.job.hostnames, "\n"));
    && !on.faults.servers && on.servers != []
    && !LacksServers(on.d, known, lines)
    && exists l, entry :: l in lines && entry in LineEntries(on.d, known, l)
  }

  lemma ResolvedIffResolvable(on: Inputs)
    ensures ResolvedBy(on).Some? <==> Resolvable(on)
  {
    var known, lines := ServerSet(on.servers), InputLines(Split(on.job.hostnames, "\n"));
    if Resolvable(on) {
      var l, entry :| l in lines && entry in LineEntries(on.d, known, l);
      assert entry in AllEntries(on.d, known, lines);
    }
  }

  /**
   End to end: a run reports success exactly when its lines resolve, its cache statements
   succeed, the list can be fetched, and the list is in sync or can be written; the list is then
   in sync with the wanted entries. Any other run fails and leaves the list as it was.
   */
  lemma RunSucceedsIff(e: Execution)
    requires Executed(e)
    ensures WantedBy(e).Some? <==>
      && Resolvable(e.on)
      && if RetentionFor(e.on) > 0 then !e.on.faults.upsert && !e.on.faults.expire && !e.on.faults.list
         else !e.on.faults.clear
    ensures Succeeds(e)
  {
    ResolvedIffResolvable(e.on);
    SuccessOfRun(e);
  }

  /** The run gets past its cache statements and can fetch the list. */
  predicate ReachesList(e: Execution) {
    WantedBy(e).Some? && !e.on.faults.controller && !e.on.faults.get
  }

  ghost predicate AlreadyInSync(e: Execution)
    requires WantedBy(e).Some?
  {
    InSync(e.before.items, WantedBy(e).value.Keys)
  }

  ghost predicate Succeeds(e: Execution) {
    && (e.result.status == Success <==> ReachesList(e) && (AlreadyInSync(e) || !e.on.faults.put))
    && (e.result.status == Success ==> InSync(e.after.items, WantedBy(e).value.Keys))
    && (e.result.status != Success ==> e.result == FAILED && e.after.items == e.before.items)
  }

  lemma SuccessOfRun(e: Execution)
    requires ListStage(e)
    ensures Succeeds(e)
  {
  }

  /** The wanted entries hold the whole current resolution, with its labels. */
  lemma WantedHoldsResolution(e: Execution)
    requires Ran(e) && WantedBy(e).Some?
    ensures e.run.resolved.Some?
    ensures forall ip :: ip in e.run.resolved.value ==>
      ip in WantedBy(e).value && WantedBy(e).value[ip] == e.run.resolved.value[ip]
  {
    if e.run.retention > 0 {
      CutoffNotAfterNow(e.run.nowNs, e.run.retention);
      CurrentResolutionIsListed(e.before.cache, e.run.job, EventOfRun(e.run));
    }
  }

  /** Every list a run writes is non-empty and holds the whole current resolution. */
  lemma WrittenListHoldsResolution(e: Execution)
    requires Executed(e) && e.after.items != e.before.items
    ensures ResolvedBy(e.on).Some?
    ensures Entries(e.after.items) != [] && ResolvedBy(e.on).value.Keys <= Elements(Entries(e.after.items))
  {
    ResolutionIsNonEmpty(e.on);
    WrittenHolds(e);
  }

  lemma WrittenHolds(e: Execution)
    requires Ran(e) && e.after.items != e.before.items
    ensures e.run.resolved.Some? && e.run.resolved.value.Keys <= Elements(Entries(e.after.items))
    ensures e.run.resolved.value != map[] ==> Entries(e.after.items) != []
  {
    WantedHoldsResolution(e);
    var wanted := WantedBy(e).value.Keys;
    WrittenIsInSync(e.on.d.lib, e.after.items, wanted);
    assert Elements(Entries(e.after.items)) == wanted;
    assert e.run.resolved.value.Keys <= wanted;
    if e.run.resolved.value != map[] {
      assert e.run.resolved.value.Keys != {};
      assert wanted != {};
    }
  }

  // ----- Determinism -----

  ghost predicate CanonicalRows(lib: NetLib, t: ObservedTable) {
    forall k :: k in t ==> Canonical(lib, k.1)
  }

  ghost predicate CanonicalEntries(lib: NetLib, entries: Option<map<string, string>>) {
    entries.Some? ==> forall ip :: ip in entries.value ==> Canonical(lib, ip)
  }

  /** Only canonical entries are ever cached, wanted and written. */
  lemma EverythingIsCanonical(e: Execution)
    requires Executed(e) && ReadsBack(e.on.d.lib) && CanonicalRows(e.on.d.lib, e.before.cache)
    ensures CanonicalRows(e.on.d.lib, e.after.cache)
    ensures CanonicalEntries(e.on.d.lib, WantedBy(e))
  {
    ResolvedIsCanonical(e.on);
    CacheStaysCanonical(e.on.d.lib, e);
  }

  lemma CacheStaysCanonical(lib: NetLib, e: Execution)
    requires Ran(e) && CanonicalEntries(lib, e.run.resolved) && CanonicalRows(lib, e.before.cache)
    ensures CanonicalRows(lib, e.after.cache) && CanonicalEntries(lib, WantedBy(e))
  {
    forall k | k in e.after.cache ensures Canonical(lib, k.1) {
      assert k in e.before.cache || k.1 in e.run.resolved.value;
    }
    if WantedBy(e).Some? && e.run.retention > 0 {
      forall ip | ip in WantedBy(e).value ensures Canonical(lib, ip) {
        assert (e.run.job, ip) in e.after.cache;
      }
    }
  }

  lemma ResolvedIsCanonical(on: Inputs)
    requires ReadsBack(on.d.lib)
    ensures CanonicalEntries(on.d.lib, ResolvedBy(on))
  {
    var known, lines := ServerSet(on.servers), InputLines(Split(on.job.hostnames, "\n"));
    forall ip | ResolvedBy(on).Some? && ip in ResolvedBy(on).value ensures Canonical(on.d.lib, ip) {
      var l :| l in lines && ip in LineEntries(on.d, known, l);
      EntriesAreCanonical(on.d, known, l, ip);
    }
  }

  /**
   A run is deterministic: from the same state and the same inputs, but for the order and the
   repetition of servers, it leaves the same state and returns the same result, unless the
   wanted entries hold some address together with the network of only that address.
   */
  lemma RunIsDeterministic(e: Execution, f: Execution)
    requires Executed(e) && Executed(f) && e.before == f.before
    requires f.on == e.on.(servers := f.on.servers) && ServerSet(f.on.servers) == ServerSet(e.on.servers)
    requires e.on.servers == [] <==> f.on.servers == []
    requires ReadsBack(e.on.d.lib) && CanonicalRows(e.on.d.lib, e.before.cache)
    requires WantedBy(e).Some? ==> NoPairIn(e.on.d.lib, WantedBy(e).value.Keys)
    ensures e.after == f.after && e.result == f.result
  {
    assert ResolvedBy(e.on) == ResolvedBy(f.on);
    EverythingIsCanonical(e);
    SameRecordSameOutcome(e, f);
  }

  lemma SameRecordSameOutcome(e: Execution, f: Execution)
    requires Ran(e) && Ran(f) && e.before == f.before && e.run == f.run && e.on.d == f.on.d
    requires CanonicalEntries(e.on.d.lib, WantedBy(e))
    requires WantedBy(e).Some? ==> NoPairIn(e.on.d.lib, WantedBy(e).value.Keys)
    ensures e.after == f.after && e.result == f.result
  {
    if WantedBy(e).Some? && e.after.puts != e.before.puts && !e.on.faults.put {
      WrittenListIsDetermined(e.on.d.lib, e.after.items, f.after.items, WantedBy(e).value.Keys);
    }
  }
}
