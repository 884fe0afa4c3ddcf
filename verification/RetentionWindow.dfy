/**
 What the observed-address cache stands for: a sliding window over the history of a job's past
 resolutions (internal/syncer/syncer.go:86-105, internal/store/store.go:476-536).
 */
module RetentionWindow {
  import opened Store

  /**
   What one run does to a job's cache. `Untouched`: it failed before or while recording.
   `Seen`: it recorded a resolution at a time, and expired rows older than its cutoff unless
   that statement failed. `Dropped`: retention was off and the cache was deleted.
   */
  datatype CacheEvent =
    | Untouched
    | Seen(resolved: map<string, string>, at: int, cutoff: int, expired: bool)
    | Dropped

  function Apply(t: ObservedTable, job: int, e: CacheEvent): ObservedTable {
    match e
    case Untouched => t
    case Seen(resolved, at, cutoff, expired) =>
      var t' := Upserted(t, job, resolved, at);
      if expired then Expired(t', job, cutoff) else t'
    case Dropped => Cleared(t, job)
  }

  /** The table after a history of runs of one job. */
  function After(t: ObservedTable, job: int, history: seq<CacheEvent>): ObservedTable {
    if history == [] then t
    else Apply(After(t, job, history[..|history| - 1]), job, history[|history| - 1])
  }

  predicate Resolves(e: CacheEvent, ip: string) {
    e.Seen? && ip in e.resolved
  }

  /** The run allows an entry last seen at the given time to stay in the cache. */
  predicate Spares(e: CacheEvent, seenAt: int) {
    match e
    case Untouched => true
    case Seen(_, _, cutoff, expired) => !expired || seenAt >= cutoff
    case Dropped => false
  }

  /** Run `j` resolved the entry, no later run did, and every run since spared it. */
  ghost predicate HeldFrom(history: seq<CacheEvent>, ip: string, j: int) {
    && 0 <= j < |history|
    && Resolves(history[j], ip)
    && (forall k :: j < k < |history| ==> !Resolves(history[k], ip))
    && forall k :: j <= k < |history| ==> Spares(history[k], history[j].at)
  }

  ghost predicate NoRowsOf(t: ObservedTable, job: int) {
    forall k :: k in t ==> k.0 != job
  }

  lemma HeldFromSnoc(init: seq<CacheEvent>, e: CacheEvent, ip: string, j: int)
    requires 0 <= j < |init|
    ensures HeldFrom(init + [e], ip, j) <==> HeldFrom(init, ip, j) && !Resolves(e, ip) && Spares(e, init[j].at)
  {
    var history := init + [e];
    assert forall k :: 0 <= k < |init| ==> history[k] == init[k];
    assert history[|init|] == e;
    if HeldFrom(history, ip, j) {
      assert Spares(history[|init|], history[j].at) && !Resolves(history[|init|], ip);
      forall k | j < k < |init| ensures !Resolves(init[k], ip) {
        assert !Resolves(history[k], ip);
      }
      forall k | j <= k < |init| ensures Spares(init[k], init[j].at) {
        assert Spares(history[k], history[j].at);
      }
    }
  }

  /** One event and one row: a resolved entry is renewed, any other row stays if it is spared. */
  lemma RowAfterEvent(t: ObservedTable, job: int, e: CacheEvent, ip: string)
    ensures var t' := Apply(t, job, e);
      if Resolves(e, ip)
      then
        && ((job, ip) in t' <==> Spares(e, e.at))
        && ((job, ip) in t' ==> RowIs(t', job, ip, e))
        && ((job, ip) in t' ==>
              t'[(job, ip)].firstSeen == if (job, ip) in t then t[(job, ip)].firstSeen else e.at)
      else
        && ((job, ip) in t' <==> (job, ip) in t && Spares(e, t[(job, ip)].lastSeen))
        && ((job, ip) in t' ==> t'[(job, ip)] == t[(job, ip)])
  {
  }

  /**
   A row is in the cache exactly when some run was the last to resolve its entry and every run
   since spared it; the row then carries that run's time and label. No assumption is made
   about the clock.
   */
  lemma {:induction false} CacheRefinesHistory(t: ObservedTable, job: int, history: seq<CacheEvent>, ip: string)
    requires NoRowsOf(t, job)
    ensures (job, ip) in After(t, job, history) <==> exists j :: HeldFrom(history, ip, j)
    ensures forall j :: HeldFrom(history, ip, j) ==> RowIs(After(t, job, history), job, ip, history[j])
  {
    if history == [] {
    } else {
      var n := |history| - 1;
      var init, e := history[..n], history[n];
      var before := After(t, job, init);
      assert history == init + [e];
      CacheRefinesHistory(t, job, init, ip);
      RowAfterEvent(before, job, e, ip);
      if Resolves(e, ip) {
        assert forall j :: 0 <= j < n ==> !HeldFrom(history, ip, j) by {
          forall j | 0 <= j < n ensures !HeldFrom(history, ip, j) {
            HeldFromSnoc(init, e, ip, j);
          }
        }
        assert HeldFrom(history, ip, n) <==> Spares(e, e.at);
      } else {
        forall j | 0 <= j < n
          ensures HeldFrom(history, ip, j) <==> HeldFrom(init, ip, j) && Spares(e, init[j].at)
        {
          HeldFromSnoc(init, e, ip, j);
        }
        if exists j :: HeldFrom(init, ip, j) {
          var j :| HeldFrom(init, ip, j);
          assert RowIs(before, job, ip, init[j]);
          assert HeldFrom(history, ip, j) <==> Spares(e, init[j].at);
          OnlyOneHolder(init, ip, j);
        }
      }
    }
  }

  ghost predicate RowIs(t: ObservedTable, job: int, ip: string, e: CacheEvent) {
    && Resolves(e, ip)
    && (job, ip) in t
    && t[(job, ip)].lastSeen == e.at
    && t[(job, ip)].source == e.resolved[ip]
  }

  lemma OnlyOneHolder(history: seq<CacheEvent>, ip: string, j: int)
    requires HeldFrom(history, ip, j)
    ensures forall i :: HeldFrom(history, ip, i) ==> i == j
  {
  }

  /** Run `j` resolved the entry when it had no row, and it has had one ever since. */
  ghost predicate RowSince(t: ObservedTable, job: int, history: seq<CacheEvent>, ip: string, j: int) {
    && 0 <= j < |history| && Resolves(history[j], ip)
    && (job, ip) !in After(t, job, history[..j])
    && forall k :: j < k <= |history| ==> HasRow(t, job, history, ip, k)
  }

  ghost predicate HasRow(t: ObservedTable, job: int, history: seq<CacheEvent>, ip: string, k: int)
    requires 0 <= k <= |history|
  {
    (job, ip) in After(t, job, history[..k])
  }

  /** A row's first time is that of the run that began its present, unbroken stay in the cache. */
  lemma {:induction false} FirstSeenMeans(t: ObservedTable, job: int, history: seq<CacheEvent>, ip: string)
    returns (j: int)
    requires NoRowsOf(t, job) && (job, ip) in After(t, job, history)
    ensures RowSince(t, job, history, ip, j)
    ensures After(t, job, history)[(job, ip)].firstSeen == history[j].at
  {
    var n := |history| - 1;
    var init, e := history[..n], history[n];
    var before := After(t, job, init);
    RowAfterEvent(before, job, e, ip);
    assert history[..n + 1] == history;
    if (job, ip) in before {
      j := FirstSeenMeans(t, job, init, ip);
      assert init[..j] == history[..j];
      forall k | j < k <= |history| ensures HasRow(t, job, history, ip, k) {
        if k <= n {
          assert HasRow(t, job, init, ip, k) && init[..k] == history[..k];
        }
      }
    } else {
      j := n;
    }
  }

  // ----- What the last run lists -----

  ghost predicate ClockNeverRunsBack(history: seq<CacheEvent>) {
    forall i, j :: 0 <= i < j < |history| && history[i].Seen? && history[j].Seen? ==> history[i].at <= history[j].at
  }

  /**
   Run `j` resolved the entry at a time that no run since, the last one included, has cut off.
   Whether the last run's own expiry statement succeeded makes no difference to its list.
   */
  ghost predicate InWindow(history: seq<CacheEvent>, ip: string, j: int)
    requires history != [] && history[|history| - 1].Seen?
  {
    && 0 <= j < |history|
    && Resolves(history[j], ip)
    && (forall k :: j <= k < |history| ==> Spares(history[k], history[j].at))
    && history[j].at >= history[|history| - 1].cutoff
  }

  lemma {:induction false} LastResolution(history: seq<CacheEvent>, ip: string, i: int) returns (j: int)
    requires 0 <= i < |history| && Resolves(history[i], ip)
    ensures i <= j < |history| && Resolves(history[j], ip)
    ensures forall k :: j < k < |history| ==> !Resolves(history[k], ip)
    decreases |history| - i
  {
    if k :| i < k < |history| && Resolves(history[k], ip) {
      j := LastResolution(history, ip, k);
    } else {
      j := i;
    }
  }

  lemma LaterIsSparedToo(history: seq<CacheEvent>, ip: string, i: int, j: int)
    requires history != [] && history[|history| - 1].Seen?
    requires ClockNeverRunsBack(history)
    requires InWindow(history, ip, i) && i <= j < |history| && Resolves(history[j], ip)
    ensures InWindow(history, ip, j)
  {
    assert history[i].at <= history[j].at;
    forall k | j <= k < |history| ensures Spares(history[k], history[j].at) {
      assert Spares(history[k], history[i].at);
    }
  }

  /**
   The list of a run with retention is the sliding window: an entry is listed exactly when some
   run resolved it at a time not cut off by any run since.
   */
  lemma ListedIsSlidingWindow(t: ObservedTable, job: int, history: seq<CacheEvent>, ip: string)
    requires NoRowsOf(t, job) && ClockNeverRunsBack(history)
    requires history != [] && history[|history| - 1].Seen?
    ensures ip in Listed(After(t, job, history), job, history[|history| - 1].cutoff)
      <==> exists j :: InWindow(history, ip, j)
  {
    var cutoff := history[|history| - 1].cutoff;
    CacheRefinesHistory(t, job, history, ip);
    if ip in Listed(After(t, job, history), job, cutoff) {
      var j :| HeldFrom(history, ip, j);
      assert RowIs(After(t, job, history), job, ip, history[j]);
      assert InWindow(history, ip, j);
    }
    if exists i :: InWindow(history, ip, i) {
      var i :| InWindow(history, ip, i);
      var j := LastResolution(history, ip, i);
      LaterIsSparedToo(history, ip, i, j);
      assert HeldFrom(history, ip, j);
      assert RowIs(After(t, job, history), job, ip, history[j]);
    }
  }

  /** Every recording run used the same retention, in seconds. */
  ghost predicate ConstantRetention(history: seq<CacheEvent>, seconds: nat) {
    forall k :: 0 <= k < |history| ==>
      !history[k].Dropped? && (history[k].Seen? ==> history[k].cutoff == history[k].at - seconds)
  }

  /**
   With a constant retention the list is exactly the union of all resolutions recorded in the
   last `seconds` seconds, also when other runs of the job failed to resolve or to expire.
   */
  lemma ConstantRetentionIsUnion(t: ObservedTable, job: int, history: seq<CacheEvent>, seconds: nat, ip: string)
    requires NoRowsOf(t, job) && ClockNeverRunsBack(history) && ConstantRetention(history, seconds)
    requires history != [] && history[|history| - 1].Seen?
    ensures ip in Listed(After(t, job, history), job, history[|history| - 1].cutoff)
      <==> exists j :: 0 <= j < |history| && Resolves(history[j], ip)
             && history[j].at >= history[|history| - 1].at - seconds
  {
    ListedIsSlidingWindow(t, job, history, ip);
    forall j | 0 <= j < |history| && Resolves(history[j], ip)
               && history[j].at >= history[|history| - 1].at - seconds
      ensures InWindow(history, ip, j)
    {
      forall k | j <= k < |history| ensures Spares(history[k], history[j].at) {
        if history[k].Seen? && k < |history| - 1 {
          assert history[k].at <= history[|history| - 1].at;
        }
      }
    }
  }

  /** A run without retention leaves nothing behind: only what later runs resolve can be listed. */
  lemma DroppingForgets(t: ObservedTable, job: int, history: seq<CacheEvent>)
    requires history != [] && history[|history| - 1].Dropped?
    ensures NoRowsOf(After(t, job, history), job)
  {
  }

  /**
   What a run has just recorded it also lists, with its own label: it cannot cut itself off
   while retention is positive.
   */
  lemma CurrentResolutionIsListed(t: ObservedTable, job: int, e: CacheEvent)
    requires e.Seen? && e.cutoff <= e.at
    ensures forall ip :: ip in e.resolved ==>
      ip in Listed(Apply(t, job, e), job, e.cutoff) && Listed(Apply(t, job, e), job, e.cutoff)[ip] == e.resolved[ip]
  {
    forall ip | ip in e.resolved
      ensures (job, ip) in Apply(t, job, e) && Apply(t, job, e)[(job, ip)].lastSeen >= e.cutoff
      ensures Apply(t, job, e)[(job, ip)].source == e.resolved[ip]
    {
      assert (job, ip) in Upserted(t, job, e.resolved, e.at);
    }
  }

  // ----- Several jobs -----

  ghost predicate SameRows(t: ObservedTable, u: ObservedTable, job: int) {
    forall ip :: ((job, ip) in t <==> (job, ip) in u) && ((job, ip) in t ==> t[(job, ip)] == u[(job, ip)])
  }

  lemma ApplyIsLocal(t: ObservedTable, u: ObservedTable, job: int, who: int, e: CacheEvent)
    requires SameRows(t, u, job)
    ensures who == job ==> SameRows(Apply(t, who, e), Apply(u, job, e), job)
    ensures who != job ==> SameRows(Apply(t, who, e), u, job)
  {
    forall ip
      ensures who == job ==> ((job, ip) in Apply(t, who, e) <==> (job, ip) in Apply(u, job, e))
      ensures who != job ==> ((job, ip) in Apply(t, who, e) <==> (job, ip) in u)
      ensures (job, ip) in Apply(t, who, e) ==>
        Apply(t, who, e)[(job, ip)] == (if who == job then Apply(u, job, e)[(job, ip)] else u[(job, ip)])
    {
      assert (job, ip) in t <==> (job, ip) in u;
    }
  }

  lemma SameRowsTransitive(t: ObservedTable, u: ObservedTable, v: ObservedTable, job: int)
    requires SameRows(t, u, job) && SameRows(u, v, job)
    ensures SameRows(t, v, job)
  {
    forall ip
      ensures (job, ip) in t <==> (job, ip) in v
      ensures (job, ip) in t ==> t[(job, ip)] == v[(job, ip)]
    {
      assert (job, ip) in t <==> (job, ip) in u;
    }
  }

  /** The statements that change the cache; each is atomic. */
  datatype Statement = Upsert(resolved: map<string, string>, at: int) | Expire(cutoff: int) | Clear

  function RunStatement(t: ObservedTable, job: int, statement: Statement): ObservedTable {
    match statement
    case Upsert(resolved, at) => Upserted(t, job, resolved, at)
    case Expire(cutoff) => Expired(t, job, cutoff)
    case Clear => Cleared(t, job)
  }

  /** The statements of one run, in order. */
  function StatementsOf(e: CacheEvent): seq<Statement> {
    match e
    case Untouched => []
    case Seen(resolved, at, cutoff, expired) => [Upsert(resolved, at)] + if expired then [Expire(cutoff)] else []
    case Dropped => [Clear]
  }

  function RunStatements(t: ObservedTable, job: int, statements: seq<Statement>): ObservedTable {
    if statements == [] then t
    else RunStatement(RunStatements(t, job, statements[..|statements| - 1]), job, statements[|statements| - 1])
  }

  lemma StatementIsLocal(t: ObservedTable, u: ObservedTable, job: int, who: int, statement: Statement)
    requires SameRows(t, u, job)
    ensures who == job ==> SameRows(RunStatement(t, who, statement), RunStatement(u, job, statement), job)
    ensures who != job ==> SameRows(RunStatement(t, who, statement), u, job)
  {
    forall ip
      ensures who == job ==>
        ((job, ip) in RunStatement(t, who, statement) <==> (job, ip) in RunStatement(u, job, statement))
      ensures who != job ==> ((job, ip) in RunStatement(t, who, statement) <==> (job, ip) in u)
      ensures (job, ip) in RunStatement(t, who, statement) ==>
        RunStatement(t, who, statement)[(job, ip)]
          == (if who == job then RunStatement(u, job, statement)[(job, ip)] else u[(job, ip)])
    {
      assert (job, ip) in t <==> (job, ip) in u;
    }
  }

  lemma {:induction false} StatementsAreLocal(t: ObservedTable, u: ObservedTable, job: int, statements: seq<Statement>)
    requires SameRows(t, u, job)
    ensures SameRows(RunStatements(t, job, statements), RunStatements(u, job, statements), job)
  {
    if statements == [] {
    } else {
      var n := |statements| - 1;
      StatementsAreLocal(t, u, job, statements[..n]);
      StatementIsLocal(RunStatements(t, job, statements[..n]), RunStatements(u, job, statements[..n]), job, job,
                       statements[n]);
    }
  }

  lemma FirstStatement(t: ObservedTable, job: int, statements: seq<Statement>)
    requires statements != []
    ensures RunStatements(RunStatement(t, job, statements[0]), job, statements[1..])
         == RunStatements(t, job, statements)
  {
    StatementsAppend(t, job, [statements[0]], statements[1..]);
    OneStatement(t, job, statements[0]);
    assert [statements[0]] + statements[1..] == statements;
  }

  lemma {:induction false} StatementsAppend(t: ObservedTable, job: int, first: seq<Statement>, second: seq<Statement>)
    ensures RunStatements(t, job, first + second) == RunStatements(RunStatements(t, job, first), job, second)
  {
    if second == [] {
      assert first + second == first;
    } else {
      var n := |second| - 1;
      StatementsAppend(t, job, first, second[..n]);
      assert (first + second)[..|first + second| - 1] == first + second[..n];
    }
  }

  lemma StatementsOfOneRun(t: ObservedTable, job: int, e: CacheEvent)
    ensures RunStatements(t, job, StatementsOf(e)) == Apply(t, job, e)
  {
    match e
    case Untouched =>
    case Dropped => OneStatement(t, job, Clear);
    case Seen(resolved, at, cutoff, expired) =>
      var t' := RunStatement(t, job, Upsert(resolved, at));
      OneStatement(t, job, Upsert(resolved, at));
      if expired {
        StatementsAppend(t, job, [Upsert(resolved, at)], [Expire(cutoff)]);
        OneStatement(t', job, Expire(cutoff));
      } else {
        assert StatementsOf(e) == [Upsert(resolved, at)];
      }
  }

  lemma OneStatement(t: ObservedTable, job: int, statement: Statement)
    ensures RunStatements(t, job, [statement]) == RunStatement(t, job, statement)
  {
    assert [statement][..0] == [];
  }
}
