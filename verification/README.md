# Verified model of UniFi Network List Sync

The program resolves host names to IPv4 entries over several DNS servers, keeps a cache of what
each job saw recently, compares the wanted entries with a list on a UniFi controller, writes the
list when they differ, runs jobs by cron or on request, and logs through one shared ring buffer.
This project models those parts in Dafny and proves what they keep.

| files | what they model |
|---|---|
| `EventRing`, `LogManager`, `Windows`, `LogProtocol` | the ring of log events, sink cursors, and the logger as a protocol of producers, workers and reconfiguration |
| `SourceLabels`, `IpOrder`, `Resolver`, `HostnameResolver` | label text, entry order, alias following with its declarative meaning, and the lookup algorithms |
| `LookupMeaning` | what lookups and input lines yield, said of the messages that servers send and of the input text |
| `Store`, `Timestamps`, `RetentionWindow` | the rows and statements, RFC 3339 text and durations, and the cache as a sliding window over history |
| `NetworkLists`, `Syncer`, `RunHistory` | comparing and writing the list, one run, and what the runs of one job achieve over time |
| `RunExclusion`, `OverlappingRuns` | at most one run per job, and runs of all jobs interleaved statement by statement |
| `Scheduler`, `WorkQueue` | the index of cron entries and the bounded work queue |
| `Strings`, `Wrappers` | library functions and result types |

How the model is laid out:

- State that the program updates in place is held in classes (`EventBuffer`, `SinkWorker`, `Manager`,
  `Database`, `NetworkList`, `Syncer`, `Scheduler`, `Cron`); their methods are proved against
  functions of the old state, and the laws are lemmas about those functions.
- Concurrent parts (`LogProtocol`, `RunExclusion`, `OverlappingRuns`, `WorkQueue`) are state machines whose
  step is one region under the mutex or one statement. An action that is not enabled changes nothing, so
  every finite list of actions is an interleaving and the lemmas speak about all of them.
- The network is one fixed function from server, name and type to a response. The clock, failing
  statements and requests, and the outcome of opening outputs are arguments.
- The statements of the store are methods of `Database`, each specified by what it leaves in the tables;
  what those statements achieve is stated by the lemmas about them.
- Iteration over a Go map picks elements in any order. `sort.Slice` and `sort.Strings` are any sorted
  permutation.

Where the code does not do what its documentation or its names suggest, the model follows the code:

- `missed` is documented as the number of events overwritten before a worker read them
  (internal/logging/logging.go:153). The code counts at eviction and again at the snap, so each
  snapped-over event counts twice. `LogProtocol.MissedLaw` states the exact law, that the
  documented meaning holds if and only if at most `cap` events arrived between any two
  collections, and what either counting site alone would give; `LostEventsCountTwice` is a
  family of runs, on a ring of any capacity, that shows it.
- `Configure` and `Close` wait until every worker returned. A worker returns only from a turn before
  which nothing was logged since its last collection (`TurnExitsIff`), so one event per batch keeps
  the wait going (`StopCanBeStarved`); without further events it ends (`QuietStopTerminates`).
- A retention setting above 2,562,047 hours wraps in 64-bit nanoseconds (`RetentionExactIff`,
  `LargerSettingsTurnRetentionOff`).
- `SortedIPs` is described as a stable order; with an address and its own /32 in one result either
  may come first (`OneListingIffNoHostWithItsNet`, `AddressWithItsNetHasTwoListings`).
- Labels and the input lines they join share one separator, so a line that contains ", " breaks
  the label apart (`LabelSplitsIntoSourcesIff`).

## Model

| member | source | states |
|---|---|---|
| EventRing.SlotsDoNotCollide | internal/logging/logging.go:122-139 | two sequences less than the capacity apart never share a slot |
| EventRing.PushRefines | internal/logging/logging.go:119-131 | a push appends one event to the unbounded log the ring stands for, and evicts exactly when the log already fills the ring |
| EventRing.LookupRefines | internal/logging/logging.go:135-140 | `get` succeeds exactly on the last `cap` numbers and returns the event pushed under that number |
| EventRing.RingRefinesUnboundedLog | internal/logging/logging.go:98-140 | after any pushes, head - tail = min(pushes, cap), and every lookup returns the event ever pushed under that number if it is in the window, else nothing |
| EventRing.EventBuffer.Push | internal/logging/logging.go:119-131 | the in-place push is the push on the modelled ring, with the returned sequence and eviction |
| EventRing.EventBuffer.Get | internal/logging/logging.go:135-140 | the in-place lookup is the lookup on the modelled ring |
| LogManager.CollectTakesTheLiveLog | internal/logging/logging.go:178-190 | on a ring that refines a log the collection loop takes the log from cursor to head; its miss-and-skip branch is never taken |
| LogManager.TurnDeliversTheLiveLog | internal/logging/logging.go:161-191 | a turn with work hands over exactly the live events from the cursor on, moves the cursor to the head and adds exactly the evicted gap to `missed` |
| LogManager.SinkWorker.LockedTurn | internal/logging/logging.go:161-191 | one locked pass of the worker loop changes cursor and counter as the specified turn, for every ring |
| LogManager.Manager.Enqueue | internal/logging/logging.go:710-718 | an enqueue pushes, and on eviction accounts it against the tail before the push to every worker |
| LogManager.Manager.AccountEviction | internal/logging/logging.go:722-727 | every worker whose cursor is at or before the evicted number misses one more, and no other does |
| LogManager.Manager.StopWorkersBegin | internal/logging/logging.go:601-627 | the first half of a stop adds to the total of each sink what its worker missed, and nothing to a sink without one, forgets the workers and requests the stop, or does nothing when there is no worker |
| LogManager.Manager.StartWorkers | internal/logging/logging.go:315-371 | exactly the sinks that could be opened, or the console if none, get a worker with its cursor at the current head |
| LogManager.SinksAreDistinct | internal/logging/logging.go:308-371 | file and syslog get a worker iff they could be opened, the console iff asked for or alone, and none gets two |
| LogManager.Manager.Diagnostics | internal/logging/logging.go:534-556 | the statistics report head, tail, use, and each worker's cursor, misses and distance to the head |
| Windows.BothAscend | internal/logging/logging.go:173-190 | the delivered and the skipped numbers of a worker both ascend strictly between its start and its cursor |
| Windows.DeliveredOrEvicted | internal/logging/logging.go:173-190 | each number from start to cursor is delivered or skipped and not both; it is skipped exactly if more than `cap` events had arrived by the first collection after it |
| Windows.FirstCollectIsLeast | internal/logging/logging.go:173-190 | the first collection after an event is the one at the least head beyond it |
| Windows.NothingSkippedIff | internal/logging/logging.go:173-190 | nothing is skipped if and only if at most `cap` events arrive between collections |
| Windows.CountsAddUp | internal/logging/logging.go:173-190 | delivered and skipped numbers together count everything between start and cursor |
| LogProtocol.StepKeepsInv | internal/logging/logging.go:161-201 | every step of producers, workers, stop and start keeps the protocol invariant |
| LogProtocol.RunKeepsInv | internal/logging/logging.go:161-201 | the invariant holds after every interleaving |
| LogProtocol.SinkSeesAscendingLog | internal/logging/logging.go:161-201 | in every interleaving a sink's output is the pushed history at strictly ascending numbers, those the ring-free specification delivers |
| LogProtocol.EveryEventTakenOrEvicted | internal/logging/logging.go:161-201 | every event from a worker's start to its cursor was handed over, or was evicted before the first collection after it, never both |
| LogProtocol.NothingLostIffCollectedInTime | internal/logging/logging.go:161-201 | a worker has taken the whole log from start to cursor if and only if at most `cap` events arrived between its collections |
| LogProtocol.MissedLaw | internal/logging/logging.go:149-201 | while registered, missed = 2 * skipped + pending; the eviction site alone equals the lost events, the snap site alone the skipped ones; missed = 0 iff nothing was lost; missed equals the documented count iff no gap between collections exceeds `cap` |
| LogProtocol.LostEventsCountTwice | internal/logging/logging.go:722-727 | on a ring of any capacity `cap`, a burst of `cap + lost` events before one collection loses exactly the first `lost`, and `missed` is twice that |
| LogProtocol.NoLostWakeup | internal/logging/logging.go:161-172 | a worker that cannot move has returned, or waits with its cursor at the head and no stop requested |
| LogProtocol.ExitMeansDrained | internal/logging/logging.go:169-172 | a worker returns only when every event pushed before the stop request was written or skipped and its batch is empty |
| LogProtocol.StopLosesNothing | internal/logging/logging.go:601-634 | whatever happens after a stop request, once a worker it concerned returned, every event logged by the time of the request was written or skipped |
| LogProtocol.NoEventTwiceAcrossGenerations | internal/logging/logging.go:322-323 | a later worker for a sink starts at or after the cursor of every earlier one, so nothing is delivered to a sink twice |
| LogProtocol.StopMakesProgress | internal/logging/logging.go:601-634 | once a stop is requested each worker not yet returned can move, and its own step shrinks what is left for it |
| LogProtocol.StopIsBounded | internal/logging/logging.go:601-634 | from the stop on a worker takes at most as many steps of its own as remained, plus two per event enqueued since, and has returned when it took that many |
| LogProtocol.TurnExitsIff | internal/logging/logging.go:161-172 | a stopped worker that takes its turn returns iff no event was logged since its last collection, or since its start if it never collected |
| LogProtocol.QuietStopTerminates | internal/logging/logging.go:601-634 | if nothing is logged after the stop, the worker has returned after the steps that remained |
| LogProtocol.StopCanBeStarved | internal/logging/logging.go:627-631 | on a ring of any capacity, while one event is logged per batch, a stopped worker takes any number of steps without returning |
| LogProtocol.EnqueueMatchesManager | internal/logging/logging.go:710-727 | an enqueue step does to ring and registered cursors what `Manager.Enqueue` is proved to do |
| LogProtocol.StopMatchesManager | internal/logging/logging.go:601-627 | the stop step does to ring, flag and registered workers what `Manager.StopWorkersBegin` is proved to do |
| LogProtocol.StartMatchesManager | internal/logging/logging.go:315-371 | the start step registers the workers that `Manager.StartWorkers` is proved to create, and the end of a close only withdraws the stop request |
| SourceLabels.UniqueIsASetInOrder | internal/syncer/resolver.go:360-377 | the result holds every non-empty value once, in order of first appearance |
| SourceLabels.UniqueStrings | internal/syncer/resolver.go:360-377 | the loop computes that list |
| SourceLabels.AddResolvedSource | internal/syncer/resolver.go:346-358 | only the entry's label changes, and only if the source is not yet one of its parts |
| SourceLabels.LabelRoundTripIff | internal/syncer/resolver.go:346-358 | splitting a joined label gives the parts back if and only if there is a part and none contains the separator |
| SourceLabels.LabelSplitsIntoSourcesIff | internal/syncer/resolver.go:346-358 | a label built source by source splits into the distinct sources in first-appearance order if and only if none contains the separator |
| IpOrder.BytesCompare | internal/syncer/resolver.go:409-426 | the index scan is the lexicographic comparison that `SortedIPs` gets from the library |
| IpOrder.BytesLessIP | internal/syncer/resolver.go:379-395 | the resolver's comparator is the one that lists are sorted by |
| IpOrder.ComparatorIsStrictWeakOrder | internal/syncer/resolver.go:379-407 | asymmetric, transitive and negatively transitive over all mixtures of parsed and unparsed entries |
| IpOrder.TiesAreHostAndItsNet | internal/syncer/resolver.go:379-407 | two distinct canonical entries tie exactly when one is an address and the other that address with /32 |
| IpOrder.SortedArrangementsAgree | internal/syncer/syncer.go:155-171 | any two sorted permutations of canonical entries without such a pair are equal |
| IpOrder.OneListingIffNoHostWithItsNet | internal/syncer/syncer.go:155-171 | a set of canonical entries has exactly one sorted listing if and only if it holds no address together with that address's /32 |
| IpOrder.SortedMeans | internal/syncer/syncer.go:155-171 | a list is sorted iff parsed entries come first, ascending by the number the address is and then by prefix length, and the others follow as ascending text |
| IpOrder.DottedMeans | internal/syncer/resolver.go:319-325 | an address is written as its four bytes in order, each in decimal |
| IpOrder.NetTextMeans | internal/syncer/resolver.go:327-333 | a network is written as its address, a slash and its prefix length, counted from the last 32 bits of an IPv4-mapped mask |
| IpOrder.SortedIPs | internal/syncer/syncer.go:149-173 | the result holds exactly the keys, parsed entries first, ascending by value and prefix length, the others as ascending text, for every iteration order of the map |
| Resolver.LookupFollowsPaths | internal/syncer/resolver.go:208-278 | a lookup at a depth finds an address if and only if an alias path of at most 8 - depth hops leads to it through names without addresses |
| Resolver.DepthLimitLosesNothing | internal/syncer/resolver.go:208-261 | if at most nine names are reachable, cyclic or not, the bounded lookup finds exactly what unbounded following reaches |
| Resolver.ShortestDetour | internal/syncer/resolver.go:250-261 | every alias path can be shortened to one that repeats no name |
| Resolver.TenNamesLoseTheAddress | internal/syncer/resolver.go:209-211 | nine is sharp: on a chain of ten names the address is reached by unbounded following and lost by the lookup |
| Resolver.QueriesWithinBudget | internal/syncer/resolver.go:208-261 | if no name has more than b aliases, the exchanges of a lookup number at most servers times (1 + b + ... + b^(8 - depth)), on any alias graph |
| Resolver.BudgetIsPowerSum | internal/syncer/resolver.go:208-261 | that factor is the power sum, which is 9 - depth for b = 1 |
| HostnameResolver.LookupAWithServers | internal/syncer/resolver.go:208-278 | returns the sorted set the path meaning finds for the set of servers, errs exactly if it is empty and then with the right kind of error, and makes exactly the exchanges that `QueryCount` counts |
| HostnameResolver.GatherAddresses | internal/syncer/resolver.go:218-261 | the queries, counted where they are made, and the aliases they give find exactly the meaning of the name |
| HostnameResolver.FollowAliases | internal/syncer/resolver.go:250-261 | the alias loop finds the union over all aliases and makes the sum of their exchanges, in whatever order they come, and reports a failure if it finds nothing |
| LookupMeaning.LookupMeansRoutes | internal/syncer/resolver.go:208-278 | a lookup finds an address iff a route of at most 8 - depth aliases, each a record anywhere in some server's error-free message for a name without addresses, leads to a name for which such a message holds the address |
| LookupMeaning.NineNamesLoseNothing | internal/syncer/resolver.go:208-261 | if routes reach at most nine names, the lookup finds every address any route leads to |
| LookupMeaning.FailureMeans | internal/syncer/resolver.go:223-268 | a lookup that finds nothing reports failures iff a query failed or an alias was followed in vain |
| LookupMeaning.AuthoritativeMeansFirstZone | internal/syncer/resolver.go:128-166 | a server is authoritative iff the first zone, from the full name up to the last label, one of whose name servers resolves, yields it |
| HostnameResolver.LookupDependsOnServerSetOnly | internal/syncer/resolver.go:213-278 | two results for the same set of servers are the same list |
| HostnameResolver.ZoneCandidates | internal/syncer/resolver.go:299-306 | the zones are all label suffixes, most specific first |
| HostnameResolver.LookupNSHosts | internal/syncer/resolver.go:168-206 | each non-empty name server any server reports, once; an error exactly if there is none, blaming the servers iff one failed |
| HostnameResolver.LookupAuthoritativeServers | internal/syncer/resolver.go:128-166 | exactly the server addresses of the most specific zone whose name servers resolve, each once; an error exactly if no zone has any, of a kind fixed by whether there are bootstrap servers and zones |
| HostnameResolver.ResolveIPv4 | internal/syncer/resolver.go:107-126 | the sorted addresses found with the authoritative and the given servers together; an error exactly if there are none |
| HostnameResolver.ResolveHostnames | internal/syncer/resolver.go:55-105 | the result is determined: an error for want of servers exactly if some line needs DNS and none is configured, an error if no line yields an entry, otherwise the one labelled resolution of all lines |
| HostnameResolver.ResolutionMeaning | internal/syncer/resolver.go:55-105 | an entry is in the resolution iff some line yields it; its label splits into its distinct contributing lines in first-appearance order iff none contains the separator |
| LookupMeaning.PlainLineMeans | internal/syncer/resolver.go:308-317 | a line without a mark counts trimmed |
| LookupMeaning.CommentedLineMeans | internal/syncer/resolver.go:308-317 | what follows the first # is dropped, and what stands before it counts trimmed |
| LookupMeaning.LineMeans | internal/syncer/resolver.go:61-93 | a line yields the text of the address it parses as, else of the network, else every address a route leads to, asking given and authoritative servers |
| LookupMeaning.RefusalMeans | internal/syncer/resolver.go:77-83 | the text is refused iff no server is named and some line is no literal |
| LookupMeaning.LabelMeans | internal/syncer/resolver.go:61-93 | a label without the separator inside a line lists exactly the lines yielding the entry, each once, in the order of their first appearance |
| HostnameResolver.EntriesAreCanonical | internal/syncer/resolver.go:67-93 | every entry a line yields is the text of what it parses to, if the parsers read back what is printed |
| HostnameResolver.TenNamesYieldNothing | internal/syncer/resolver.go:85-89 | an input line naming the head of a chain of ten names yields no entry although an address is reachable |
| HostnameResolver.AddressWithItsNetHasTwoListings | internal/syncer/resolver.go:67-75 | the two lines of any address and that address with /32 resolve to two entries with two sorted listings |
| Store.Database.UpsertObservedIPs | internal/store/store.go:500-524 | a committed upsert sets label and last time of the job's resolved entries, keeps their first time and every other row; a failed one changes nothing |
| Store.UpsertRows | internal/store/store.go:511-521 | the statements of the transaction give that table in whatever order they run |
| Store.ExpiryDoesNotShow | internal/store/store.go:527-530 | expiring rows never changes a list with the same or a later cutoff |
| Store.SettingsSurvive | internal/store/store.go:281-331 | what is stored for a job and read back is what the user gave, with 168 hours in place of a negative setting |
| Store.Database.ListJobs | internal/store/store.go:250-279 | every stored job as read back, in the given order |
| Store.Database.CreateRunLog | internal/store/store.go:345-354 | adds one row under a new key, or nothing |
| Timestamps.RetentionExactIff | internal/syncer/syncer.go:257-267 | the retention is the configured hours exactly if and only if the setting is at most 2,562,047 hours |
| Timestamps.LargerSettingsTurnRetentionOff | internal/syncer/syncer.go:257-267 | settings above that, up to 5,124,095 hours, give a negative duration, which the run treats as retention off; 5,124,096 hours keep entries for less than one hour |
| Timestamps.CutoffIsExact | internal/syncer/syncer.go:89 | the cutoff as stored is the run's stored time minus whole hours, whatever fraction of a second the clock shows |
| Timestamps.TextOrderIsTimeOrder | internal/store/store.go:480 | in years 0000 to 9999, comparing two RFC 3339 texts is comparing the Unix seconds they stand for, and equal texts are equal times |
| Timestamps.EveryTimeHasOneText | internal/syncer/syncer.go:86-96 | every second between two representable ones has a text, and only one |
| Timestamps.UnixSecondsArePosix | internal/syncer/syncer.go:86-96 | the seconds a timestamp stands for are POSIX's seconds since the Epoch |
| Timestamps.Rfc3339Means | internal/syncer/syncer.go:86-96 | the text is year, month, day, hour, minute and second in padded decimal with the separators of section 5.6 of RFC 3339 |
| RetentionWindow.RowAfterEvent | internal/store/store.go:500-536 | one run renews a row it resolves and keeps or drops any other row as its cutoff says |
| RetentionWindow.CacheRefinesHistory | internal/store/store.go:500-536 | without any clock assumption, a row exists iff some run was the last to resolve its entry and every run since spared it, and it carries that run's time and label |
| RetentionWindow.FirstSeenMeans | internal/store/store.go:500-536 | a row's first time is that of the run that began its present, unbroken stay in the cache |
| RetentionWindow.ListedIsSlidingWindow | internal/syncer/syncer.go:86-105 | with a clock that does not run back, an entry is listed iff some run resolved it at a time no run since cut off |
| RetentionWindow.ConstantRetentionIsUnion | internal/syncer/syncer.go:86-105 | with constant retention the list is the union of all resolutions recorded in the window, also across failed runs |
| RetentionWindow.CurrentResolutionIsListed | internal/syncer/syncer.go:88-100 | a run lists everything it just recorded, with its labels, after its own expiry |
| RetentionWindow.StatementsOfOneRun | internal/syncer/syncer.go:86-105 | the statements of a run, one after another, do to its job's rows what its one event does |
| NetworkLists.ExtractIPsFromItems | internal/syncer/syncer.go:220-229 | the values of address and subnet items in order, no others |
| NetworkLists.IPsToItems | internal/syncer/syncer.go:232-242 | item i holds entry i and nothing else, as SUBNET iff the entry has a slash and as IP_ADDRESS otherwise |
| NetworkLists.EntriesMean | internal/syncer/syncer.go:220-229 | item by item, addresses and subnets give their value, ranges and other kinds nothing |
| NetworkLists.EntriesOfItems | internal/syncer/syncer.go:220-242 | reading back a written list gives the entries that were written, in order |
| NetworkLists.DiffIPs | internal/syncer/syncer.go:176-198 | the three results are the order-preserving selections that the laws speak about |
| NetworkLists.DiffLaws | internal/syncer/syncer.go:176-198 | (old - removed) + added = new as sets; nothing added or removed iff the sets are equal; added and kept count the new list |
| NetworkLists.MergeResolvedIPs | internal/syncer/syncer.go:244-255 | the merge holds all keys, and per current entry the observed label extended by each part, for every iteration order |
| NetworkLists.MergedMeans | internal/syncer/syncer.go:244-255 | the merge has the keys of both maps, keeps labels of entries seen only before, and else keeps the observed parts in front and adds exactly the missing current parts |
| NetworkLists.MergeIsIdentity | internal/syncer/syncer.go:244-255 | merging what is already listed with the same labels changes neither keys nor labels |
| Syncer.MergeAfterListingIsIdentity | internal/syncer/syncer.go:88-100 | after upsert, expiry and listing with positive retention, the merge in the run is the identity |
| Syncer.UpdateCache | internal/syncer/syncer.go:86-105 | the cache moves by exactly one event, the wanted entries exist iff every statement succeeds, are what the cache lists (or the resolution, with retention off), and hold the whole resolution with its labels |
| Syncer.Push | internal/syncer/syncer.go:107-147 | succeeds iff the list could be fetched and is in sync or could be written, leaves it in sync, writes at most once and only when out of sync, writes a sorted arrangement of the wanted entries, and reports as changes the missing entries plus the unwanted items |
| Syncer.Execute | internal/syncer/syncer.go:73-147 | a call does exactly this: it resolves as its inputs determine, moves the cache by the one event of its resolution, setting and failures, and goes through the controller stage exactly if it has wanted entries |
| Syncer.Synchronize | internal/syncer/syncer.go:86-147 | the part after resolving, for every resolution |
| Syncer.RunSucceedsIff | internal/syncer/syncer.go:73-147 | a run succeeds iff some line yields an entry and none lacks servers, its cache statements succeed, the list can be fetched, and it is in sync or can be written; then it is in sync, else it is untouched |
| Syncer.WantedHoldsResolution | internal/syncer/syncer.go:86-105 | the wanted entries hold the whole current resolution with its labels |
| Syncer.EverythingIsCanonical | internal/syncer/syncer.go:81-122 | from a canonical cache only canonical entries are cached, wanted and written |
| Syncer.RunIsDeterministic | internal/syncer/syncer.go:73-147 | two runs from the same state and inputs, whatever the order of servers and maps, leave the same state and result, unless an address is wanted with its own /32 |
| Syncer.WrittenIsInSync | internal/syncer/syncer.go:122-135 | a written list compares equal to the wanted entries |
| Syncer.WrittenItemsMean | internal/syncer/syncer.go:122-135 | a written list is the wanted entries in listing order, each in an item that holds it and nothing else |
| Syncer.KindsOfWrittenItems | internal/syncer/syncer.go:232-242 | so every address stands as IP_ADDRESS and every network as SUBNET |
| Syncer.WrittenListIsDetermined | internal/syncer/syncer.go:122-135 | what is written does not depend on the order in which entries were collected, unless an address comes with its own /32 |
| Syncer.WrittenListHoldsResolution | internal/syncer/syncer.go:122-147 | every list a run writes is non-empty and holds the whole current resolution |
| RunHistory.AllChainsExtend | internal/syncer/syncer.go:73-147 | an execution that nothing overlaps continues its job's chain and leaves every other job's as it was |
| RunHistory.OwnRows | internal/syncer/syncer.go:86-105 | after a chain of runs of a job, with any runs of other jobs between and during them, its rows are the fold of its own events |
| RunHistory.ListOfOwnHistory | internal/store/store.go:476-536 | what a job lists at the end of a chain is what its own runs alone would give |
| RunHistory.WantedIsSlidingWindow | internal/syncer/syncer.go:86-105 | over any chain of runs of a job, with changing settings and any failures, and whatever runs of other jobs overlap them, an entry is wanted by the last run iff some run recorded it at a time that every one since, by its own setting, kept |
| RunHistory.WantedIsRecentlyResolved | internal/syncer/syncer.go:86-105 | with one setting of h hours the wanted entries are exactly those recorded within the last h hours, to the second |
| RunHistory.WantedByStoredSetting | internal/syncer/syncer.go:86-105 | the same from the setting the user stored: its hours, or a week if it is negative |
| RunHistory.WantedAgain | internal/syncer/syncer.go:88-100 | a run wants an entry iff it resolves it, or the job's previous run wanted it and it is not cut off |
| RunHistory.PutIffWantedChanged | internal/syncer/syncer.go:126-138 | after a successful run and an untouched list, the next run makes a PUT iff it reaches the list and wants other entries; otherwise, if it reaches it, it succeeds without changes |
| RunHistory.PutIffUnsettled | internal/syncer/syncer.go:86-138 | the list does not flap: of two consecutive runs of a job with retention the second makes a PUT iff it reaches the list and resolves something new or cuts something off |
| RunHistory.SteadyListIsNotWritten | internal/syncer/syncer.go:86-147 | after one success, as long as every run resolves only what was wanted and each wanted entry is resolved again before it is cut off, no run makes a PUT on the untouched list, and every one that reaches it succeeds without changes |
| OverlappingRuns.StepKeepsInv | internal/syncer/syncer.go:34-147 | every step of overlapping runs, statement by statement, and every foreign edit of a list keeps the invariant |
| OverlappingRuns.RunsOfEveryJobAreAChain | internal/syncer/syncer.go:34-147 | in every interleaving the completed runs of each job form a chain from the initial cache under an advancing clock, because the claims let only one of them execute at a time |
| OverlappingRuns.WantedIsWindowInEveryInterleaving | internal/syncer/syncer.go:34-105 | in every interleaving each run of a job wants exactly the sliding window of the job's own runs, whatever other jobs do meanwhile |
| OverlappingRuns.ListIsWhatTheLastRunLeft | internal/syncer/syncer.go:135-136 | in every interleaving a job's list has the items and PUTs that its last completed run left, unless it was edited since |
| OverlappingRuns.NextRunFindsWhatWasLeft | internal/syncer/syncer.go:117-136 | with no edit in between, a run finds exactly what the job's run before it left |
| OverlappingRuns.EditReplacesTheList | internal/syncer/syncer.go:117-120 | an edit replaces the items of that job's list and of no other |
| OverlappingRuns.SteadyInEveryInterleaving | internal/syncer/syncer.go:86-147 | in every interleaving, after one success and without edits, as long as runs only refresh what was wanted, no run of the job makes a PUT and the list stays |
| OverlappingRuns.EveryExecutionCanHappen | internal/syncer/syncer.go:34-147 | the interleavings leave no run out: any execution of an unclaimed job that fits the state can happen and leaves what it says |
| RunExclusion.Syncer.Begin | internal/syncer/syncer.go:34-55 | a run is admitted iff its job is unclaimed, can be loaded and its log row written; it then holds the claim and one new open row, otherwise claim and tables are as before |
| RunExclusion.Syncer.Perform | internal/syncer/syncer.go:57 | an admitted run executes once, as its inputs determine, and continues the chain of its job on its database |
| RunExclusion.Syncer.End | internal/syncer/syncer.go:59-67 | closes the run's own row and notes the result if they still exist and their statements succeed, and gives the claim back |
| RunExclusion.Syncer.Run | internal/syncer/syncer.go:34-71 | a claimed, unloadable or unloggable job runs nothing and changes nothing; any other executes exactly once, for the stored hostnames and list and with the retention the stored hours ask for, and leaves exactly one new row; the claims are unchanged on every way out, and the runs of each job on one database form a chain |
| RunExclusion.SettingsOfAdmitted | internal/syncer/syncer.go:40-57 | h stored hours give a retention of h hours up to 2,562,047, none for 0, and a week for a negative setting |
| RunExclusion.ClosingMeans | internal/syncer/syncer.go:59-67 | the new row has the start, end, status and changes of its run, and the job's row changes in its last result only |
| RunExclusion.StepKeepsClaims | internal/syncer/syncer.go:34-38 | every step of any number of concurrent runs keeps the claim invariant |
| RunExclusion.StepKeepsLogs | internal/syncer/syncer.go:45-67 | every step keeps the row invariant |
| RunExclusion.ClaimMeansOneHolder | internal/syncer/syncer.go:34-38 | in every interleaving a job is claimed iff exactly one run is between claim and release |
| RunExclusion.RunningRowsBelongToTheHolder | internal/syncer/syncer.go:45-67 | a row says running iff an executing run created it or its closing statement failed; that run holds the claim of the row's job |
| RunExclusion.FinishedRunsClosedTheirRows | internal/syncer/syncer.go:59-67 | the row of a finished run is closed unless that statement failed |
| RunExclusion.NothingLeftOpenWithoutFaults | internal/syncer/syncer.go:59-67 | with every closing statement succeeding no row is ever left open |
| RunExclusion.AloneMatchesRun | internal/syncer/syncer.go:34-71 | the steps of an uninterrupted run do to claims and rows what `Syncer.Run` is proved to do |
| Scheduler.IndexIsExact | internal/scheduler/scheduler.go:82-130 | the live cron entries are exactly the index's range, no entry serves two jobs and no job has two entries |
| Scheduler.Scheduler.ScheduleJob | internal/scheduler/scheduler.go:113-130 | the job gets an entry with its schedule iff cron accepts it; other jobs keep theirs |
| Scheduler.Scheduler.Start | internal/scheduler/scheduler.go:58-72 | after loading, exactly the stored jobs that are enabled with a non-empty accepted schedule have an entry, with the stored schedule |
| Scheduler.Scheduler.Reload | internal/scheduler/scheduler.go:82-100 | the job's entry agrees with the store afterwards, or is gone when the job cannot be read; others are untouched |
| Scheduler.Scheduler.Remove | internal/scheduler/scheduler.go:103-111 | the job's entry is gone, others are untouched |
| Scheduler.CreateJob | internal/web/handler.go:321-346 | the job is stored normalised unless the write fails, other jobs' entries are untouched, and index and store still agree iff the reload could read the job or it has nothing to schedule |
| Scheduler.UpdateJob | internal/web/handler.go:364-389 | the row takes the new settings and keeps its last result unless the write fails, other jobs' entries are untouched, and index and store still agree iff the write failed, the reload could read the job, or it has nothing to schedule |
| Scheduler.DeleteJob | internal/web/handler.go:391-405 | the entry is gone and the row unless its statement fails, other jobs' entries are untouched, and index and store still agree iff the row was deleted or had nothing to schedule, since the entry goes first |
| Scheduler.AgreementFollows | internal/scheduler/scheduler.go:82-111 | a change to one job's row and entry affects agreement for that job alone |
| Scheduler.AgreementMeans | internal/scheduler/scheduler.go:58-100 | index and store agree on a job iff it has an entry with its schedule exactly when it is enabled with a non-empty accepted schedule |
| WorkQueue.AcceptedTriggersAreConserved | internal/scheduler/scheduler.go:38-55 | in every interleaving accepted triggers are, in order, those executed, in progress and queued; every fired trigger is accepted, dropped or on its way |
| WorkQueue.DroppedIffQueueFull | internal/scheduler/scheduler.go:115-122 | a trigger is dropped iff 256 accepted ones wait |
| WorkQueue.ExecutedInOrder | internal/scheduler/scheduler.go:38-55 | jobs are executed in the order their triggers were accepted |
| WorkQueue.ExitMeansAllExecuted | internal/scheduler/scheduler.go:44-52 | the worker returns only after executing every accepted trigger, when none is left that could still be accepted |
| WorkQueue.StopDrains | internal/scheduler/scheduler.go:75-79 | after the stop channel is closed no step adds work and the worker always has one that removes some |
| WorkQueue.StopGetsThrough | internal/scheduler/scheduler.go:75-79 | once cron is stopped nothing is fired, what was fired reaches the queue, and then the channel closes |
| WorkQueue.TriggersAreTaken | internal/scheduler/scheduler.go:38-55 | until then every trigger is fired, and a free worker takes the oldest accepted job |

## Left out

- HTTP handlers, JSON, the web interface and the UniFi client: only a list with fetch and write is kept, and a failed write changes nothing.
- DNS network I/O, time limits and contexts: a query that fails or times out is an error response of the fixed exchange function.
- Error and message texts: only the kinds of failure are modelled; `FormatDiff` is not.
- Strings.TrimSpace: which characters are white space is taken from the Go library's definition.
- Parsing of addresses and networks, lower-casing, `dns.Fqdn` and `dns.SplitDomainName` are parameters of the model. `HostnameResolver.LookupDependsOnServerSetOnly` and `HostnameResolver.EntriesAreCanonical` assume that the parsers read back what the program prints.
- Monotonicity of resolution in the set of servers is not claimed: an address record from one server stops alias following.
- SQLite itself: migrations, pragmas, pooling, key reuse, the cascade from a deleted job to its rows and logs, and an insert that took effect but whose key could not be read.
- Crashes in the middle of a run.
- Cron expressions and firing times: a schedule is accepted or not, and triggers come at any moment until cron is stopped.
- Log formatting, colours, rotation, handler swapping, syslog text and the throttled warning: a sink is the sequence of events written to it.
- LogProtocol.StopMakesProgress: a stop is not proved to end while events keep coming, because it need not (`LogProtocol.StopCanBeStarved`).
- Concurrent calls of `Configure` and `Close`: they are taken to be serialised, as in main.go:57-62.
- Events pushed while no worker exists reach no sink, and what happens to the counter of a worker after it was unregistered is not stated beyond the totals of the stop.
- 64-bit wrap of sequence numbers: sequences are unbounded.
- LogManager.SinkWorker.LockedTurn: the branch for a refused sequence is replaced by a proof that it is unreachable after the snap; the function `Collect` keeps it.
- LogManager.Manager.StartWorkers: takes a stopped manager without workers, as `Configure` guarantees by stopping them first.
- Syncer.Push: range items take no part in the comparison and are overwritten by a write, as in the code; convergence is about address and subnet items.
- Timestamps.TextOrderIsTimeOrder: covers years 0000 to 9999, the range of the format.
- Store.Database.ListJobs: the order of the names is an argument.
- OverlappingRuns.RunsOfEveryJobAreAChain: fetching and writing a list is one step, so a foreign edit between the two is not modelled; an upsert is one statement, as its transaction makes it.
- WorkQueue.StopDrains: concerns the worker's exit; `Stop` itself does not wait for it.
- Scheduler.CreateJob: this and the other handlers are taken one at a time, and their rejection of malformed requests is not modelled.
- Create, update and delete of controllers and DNS servers.
