/**
 Sink cursors and the log manager (internal/logging/logging.go:149-201, 322-371, 534-556,
 601-634, 710-727). Each method below is one region executed under the manager's mutex.
 */
module LogManager {
  import opened EventRing

  datatype Sink = Console | File | Syslog

  /** What a worker remembers between two locked regions. */
  datatype Cursor = Cursor(nextSeq: nat, missed: nat)

  /** What a locked region of the worker loop decides. */
  datatype Outcome = Sleep | Exit | Deliver(cursor: Cursor, batch: seq<LogEvent>)

  /** The eviction-time count: a cursor at or before the evicted sequence misses one event. */
  function Account(c: Cursor, evictedSeq: nat): Cursor {
    if c.nextSeq <= evictedSeq then c.(missed := c.missed + 1) else c
  }

  /** The snap-time count: a cursor behind the tail jumps to it and counts the whole gap. */
  function Snap(r: Ring, c: Cursor): Cursor {
    if c.nextSeq < r.tail then Cursor(r.tail, c.missed + (r.tail - c.nextSeq)) else c
  }

  /** The collection loop, including its branch for a sequence the ring refuses. */
  function Collect(r: Ring, c: Cursor, batch: seq<LogEvent>): (Cursor, seq<LogEvent>)
    requires |r.buf| > 0
    decreases r.head - c.nextSeq
  {
    if c.nextSeq >= r.head then (c, batch)
    else match Lookup(r, c.nextSeq)
      case None => Collect(r, Cursor(c.nextSeq + 1, c.missed + 1), batch)
      case Some(e) => Collect(r, c.(nextSeq := c.nextSeq + 1), batch + [e])
  }

  function Turn(r: Ring, c: Cursor, done: bool): Outcome
    requires |r.buf| > 0
  {
    if c.nextSeq >= r.head then
      if done then Exit else Sleep
    else
      var (c', batch) := Collect(r, Snap(r, c), []);
      Deliver(c', batch)
  }

  /** On a ring that refines a log, collecting never meets a refused sequence. */
  lemma {:induction false} CollectTakesTheLiveLog(r: Ring, log: seq<LogEvent>, c: Cursor, batch: seq<LogEvent>)
    requires Refines(r, log) && r.tail <= c.nextSeq <= r.head
    ensures Collect(r, c, batch) == (c.(nextSeq := r.head), batch + log[c.nextSeq..])
    decreases r.head - c.nextSeq
  {
    if c.nextSeq == r.head {
      assert batch + log[c.nextSeq..] == batch;
    } else {
      LookupRefines(r, log, c.nextSeq);
      CollectTakesTheLiveLog(r, log, c.(nextSeq := c.nextSeq + 1), batch + [log[c.nextSeq]]);
      assert batch + [log[c.nextSeq]] + log[c.nextSeq + 1..] == batch + log[c.nextSeq..];
    }
  }

  /**
   A turn with work to do delivers exactly the live events from the cursor on, leaves the
   cursor at the head, and adds exactly the evicted gap to `missed`: the loop's own
   miss-and-skip branch contributes nothing.
   */
  lemma TurnDeliversTheLiveLog(r: Ring, log: seq<LogEvent>, c: Cursor, done: bool)
    requires Refines(r, log) && c.nextSeq < r.head
    ensures var from := if c.nextSeq < r.tail then r.tail else c.nextSeq;
      Turn(r, c, done) == Deliver(Cursor(r.head, c.missed + (from - c.nextSeq)), log[from..])
  {
    CollectTakesTheLiveLog(r, log, Snap(r, c), []);
  }

  /** The workers' cursors after a push: an eviction is accounted against the tail before it. */
  function CursorsAfterPush(r: Ring, cursors: seq<(Sink, Cursor)>): (after: seq<(Sink, Cursor)>)
    ensures |after| == |cursors|
  {
    seq(|cursors|, i requires 0 <= i < |cursors| =>
      (cursors[i].0, if Evicts(r) then Account(cursors[i].1, r.tail) else cursors[i].1))
  }

  function NewCursors(sinks: seq<Sink>, start: nat): (cursors: seq<(Sink, Cursor)>)
    ensures |cursors| == |sinks|
  {
    seq(|sinks|, i requires 0 <= i < |sinks| => (sinks[i], Cursor(start, 0)))
  }

  class SinkWorker {
    const sink: Sink
    var nextSeq: nat
    var missed: nat

    function Model(): Cursor
      reads this
    {
      Cursor(nextSeq, missed)
    }

    constructor (sink: Sink, startSeq: nat)
      ensures this.sink == sink && Model() == Cursor(startSeq, 0)
    {
      this.sink, nextSeq, missed := sink, startSeq, 0;
    }

    /** One pass of the worker loop while it holds the lock. */
    method LockedTurn(ring: EventBuffer, workersDone: bool) returns (outcome: Outcome)
      requires ring.buf.Length > 0
      modifies this
      ensures outcome == Turn(ring.Model(), old(Model()), workersDone)
      ensures Model() == if outcome.Deliver? then outcome.cursor else old(Model())
    {
      ghost var r := ring.Model();
      if nextSeq >= ring.head && !workersDone {
        return Sleep;
      }
      if workersDone && nextSeq >= ring.head {
        return Exit;
      }
      if nextSeq < ring.tail {
        missed := missed + (ring.tail - nextSeq);
        nextSeq := ring.tail;
      }
      var batch := [];
      while nextSeq < ring.head
        invariant ring.Model() == r
        invariant Collect(r, Model(), batch) == Collect(r, Snap(r, old(Model())), [])
        decreases ring.head - nextSeq
      {
        var e := ring.Get(nextSeq);
        if e.None? {
          // The worker loop counts a miss and skips here; after the snap no ring gets this far.
          assert false;
        } else {
          batch := batch + [e.value];
          nextSeq := nextSeq + 1;
        }
      }
      return Deliver(Model(), batch);
    }
  }

  /** `n` is what the worker for the sink has missed, or 0 if there is none. */
  ghost predicate Totalled(cursors: seq<(Sink, Cursor)>, sink: Sink, n: int) {
    && (forall c :: c in cursors && c.0 == sink ==> n == c.1.missed)
    && ((forall c :: c in cursors ==> c.0 != sink) ==> n == 0)
  }

  ghost predicate TotalsOf(cursors: seq<(Sink, Cursor)>, console: int, file: int, syslog: int) {
    Totalled(cursors, Console, console) && Totalled(cursors, File, file) && Totalled(cursors, Syslog, syslog)
  }

  ghost predicate DistinctSinks(cursors: seq<(Sink, Cursor)>) {
    forall i, j :: 0 <= i < j < |cursors| ==> cursors[i].0 != cursors[j].0
  }

  lemma TotalledNext(cursors: seq<(Sink, Cursor)>, i: nat, sink: Sink, n: int)
    requires i < |cursors| && Totalled(cursors[..i], sink, n) && DistinctSinks(cursors)
    ensures Totalled(cursors[..i + 1], sink, if cursors[i].0 == sink then n + cursors[i].1.missed else n)
  {
    assert cursors[..i + 1] == cursors[..i] + [cursors[i]];
    assert forall c :: c in cursors[..i] ==> c.0 != cursors[i].0;
  }

  lemma TotalsNext(cursors: seq<(Sink, Cursor)>, i: nat, console: int, file: int, syslog: int)
    requires i < |cursors| && TotalsOf(cursors[..i], console, file, syslog) && DistinctSinks(cursors)
    ensures var n := cursors[i].1.missed;
      match cursors[i].0
      case Console => TotalsOf(cursors[..i + 1], console + n, file, syslog)
      case File => TotalsOf(cursors[..i + 1], console, file + n, syslog)
      case Syslog => TotalsOf(cursors[..i + 1], console, file, syslog + n)
  {
    TotalledNext(cursors, i, Console, console);
    TotalledNext(cursors, i, File, file);
    TotalledNext(cursors, i, Syslog, syslog);
  }

  datatype SinkStats = SinkStats(sink: Sink, missed: nat, nextSeq: nat, lag: nat)

  datatype DiagStats = DiagStats(ringHead: nat, ringTail: nat, ringUsed: int, ringCap: nat, sinks: seq<SinkStats>)

  class Manager {
    const ring: EventBuffer
    var workers: seq<SinkWorker>
    var workersDone: bool
    var missedConsole: nat
    var missedFile: nat
    var missedSyslog: nat

    ghost predicate Valid()
      reads this
    {
      && ring.buf.Length > 0
      && forall i, j :: 0 <= i < j < |workers| ==> workers[i].sink != workers[j].sink
    }

    constructor (ring: EventBuffer)
      requires ring.buf.Length > 0
      ensures Valid() && this.ring == ring && workers == [] && !workersDone
      ensures missedConsole == missedFile == missedSyslog == 0
    {
      this.ring := ring;
      workers, workersDone := [], false;
      missedConsole, missedFile, missedSyslog := 0, 0, 0;
    }

    /** The sinks and cursors of the registered workers, in order. */
    function Cursors(): (cursors: seq<(Sink, Cursor)>)
      reads this, workers
      ensures |cursors| == |workers|
      ensures forall i :: 0 <= i < |workers| ==>
        cursors[i] == (workers[i].sink, Cursor(workers[i].nextSeq, workers[i].missed))
    {
      seq(|workers|, i requires 0 <= i < |workers| reads this, workers => (workers[i].sink, workers[i].Model()))
    }

    method Enqueue(e: LogEvent)
      requires Valid()
      modifies ring, ring.buf, workers
      ensures Valid()
      ensures ring.Model() == Pushed(old(ring.Model()), e)
      ensures Cursors() == CursorsAfterPush(old(ring.Model()), old(Cursors()))
      ensures forall w :: w in workers ==>
        && w.nextSeq == old(w.nextSeq)
        && w.missed == old(w.missed)
             + if old(ring.head - ring.tail >= ring.buf.Length && w.nextSeq <= ring.tail) then 1 else 0
    {
      var _, evicted, evictedSeq := ring.Push(e);
      if evicted {
        AccountEviction(evictedSeq);
      }
    }

    method AccountEviction(evictedSeq: nat)
      requires Valid()
      modifies workers
      ensures forall w :: w in workers ==> w.Model() == Account(old(w.Model()), evictedSeq)
    {
      for i := 0 to |workers|
        invariant forall k :: 0 <= k < i ==> workers[k].Model() == Account(old(workers[k].Model()), evictedSeq)
        invariant forall k :: i <= k < |workers| ==> workers[k].Model() == old(workers[k].Model())
      {
        if workers[i].nextSeq <= evictedSeq {
          workers[i].missed := workers[i].missed + 1;
        }
      }
    }

    /** The part of `stopWorkersLocked` before the lock is released to let the workers exit. */
    method StopWorkersBegin() returns (waiting: bool)
      requires Valid()
      modifies this
      ensures Valid()
      ensures waiting == (old(workers) != [])
      ensures workers == [] && workersDone == (waiting || old(workersDone))
      ensures TotalsOf(old(Cursors()), missedConsole - old(missedConsole), missedFile - old(missedFile),
                       missedSyslog - old(missedSyslog))
    {
      if |workers| == 0 {
        return false;
      }
      ghost var cursors := Cursors();
      SinksDiffer(cursors);
      workersDone := true;
      AddMisses(cursors);
      workers := [];
      return true;
    }

    /** The snapshot of the counters. */
    method AddMisses(ghost cursors: seq<(Sink, Cursor)>)
      requires Valid() && cursors == Cursors() && DistinctSinks(cursors)
      modifies this`missedConsole, this`missedFile, this`missedSyslog
      ensures Valid()
      ensures TotalsOf(cursors, missedConsole - old(missedConsole), missedFile - old(missedFile),
                       missedSyslog - old(missedSyslog))
    {
      for i := 0 to |workers|
        invariant TotalsOf(cursors[..i], missedConsole - old(missedConsole), missedFile - old(missedFile),
                           missedSyslog - old(missedSyslog))
      {
        var sw := workers[i];
        assert cursors[i] == (sw.sink, Cursor(sw.nextSeq, sw.missed));
        TotalsNext(cursors, i, missedConsole - old(missedConsole), missedFile - old(missedFile),
                   missedSyslog - old(missedSyslog));
        match sw.sink
        case Console => missedConsole := missedConsole + sw.missed;
        case File => missedFile := missedFile + sw.missed;
        case Syslog => missedSyslog := missedSyslog + sw.missed;
      }
      assert cursors[..|cursors|] == cursors;
    }

    lemma SinksDiffer(cursors: seq<(Sink, Cursor)>)
      requires Valid() && cursors == Cursors()
      ensures DistinctSinks(cursors)
    {
    }

    /** The part of `stopWorkersLocked` after every stopped channel was closed. */
    method StopWorkersEnd()
      modifies this`workersDone
      ensures !workersDone
    {
      workersDone := false;
    }

    /** The worker-starting part of `Configure`; the flags say which outputs could be opened. */
    method StartWorkers(hasConsole: bool, hasFile: bool, hasSyslog: bool)
      requires Valid() && workers == []
      modifies this
      ensures Valid() && !workersDone && fresh(workers)
      ensures unchanged(`missedConsole) && unchanged(`missedFile) && unchanged(`missedSyslog)
      ensures Cursors() == NewCursors(SinksFor(hasConsole, hasFile, hasSyslog), ring.head)
      ensures forall w :: w in workers ==> w.nextSeq == ring.head && w.missed == 0
    {
      workersDone := false;
      var startSeq := ring.head;
      if hasConsole || (!hasFile && !hasSyslog) {
        var sw := new SinkWorker(Console, startSeq);
        workers := workers + [sw];
      }
      if hasFile {
        var sw := new SinkWorker(File, startSeq);
        workers := workers + [sw];
      }
      if hasSyslog {
        var sw := new SinkWorker(Syslog, startSeq);
        workers := workers + [sw];
      }
    }

    method Diagnostics() returns (d: DiagStats)
      requires Valid()
      ensures d.ringHead == ring.head && d.ringTail == ring.tail && d.ringCap == ring.buf.Length
      ensures d.ringUsed == ring.head - ring.tail
      ensures |d.sinks| == |workers|
      ensures forall i :: 0 <= i < |workers| ==>
        && d.sinks[i].sink == workers[i].sink
        && Cursor(d.sinks[i].nextSeq, d.sinks[i].missed) == workers[i].Model()
        && (workers[i].nextSeq <= ring.head ==> workers[i].nextSeq + d.sinks[i].lag == ring.head)
        && (workers[i].nextSeq > ring.head ==> d.sinks[i].lag == 0)
    {
      var sinks: seq<SinkStats> := [];
      for i := 0 to |workers|
        invariant |sinks| == i
        invariant forall k :: 0 <= k < i ==>
          && sinks[k].sink == workers[k].sink
          && Cursor(sinks[k].nextSeq, sinks[k].missed) == workers[k].Model()
          && sinks[k].lag == if ring.head > workers[k].nextSeq then ring.head - workers[k].nextSeq else 0
      {
        var sw := workers[i];
        var lag := 0;
        if ring.head > sw.nextSeq {
          lag := ring.head - sw.nextSeq;
        }
        sinks := sinks + [SinkStats(sw.sink, sw.missed, sw.nextSeq, lag)];
      }
      d := DiagStats(ring.head, ring.tail, ring.head - ring.tail, ring.buf.Length, sinks);
    }
  }

  /** The sinks `Configure` starts workers for: console alone when nothing else could be opened. */
  function SinksFor(hasConsole: bool, hasFile: bool, hasSyslog: bool): seq<Sink> {
    (if hasConsole || (!hasFile && !hasSyslog) then [Console] else [])
    + (if hasFile then [File] else [])
    + (if hasSyslog then [Syslog] else [])
  }

  /** Each sink gets at most one worker: those that could be opened, and the console if asked for or alone. */
  lemma SinksAreDistinct(hasConsole: bool, hasFile: bool, hasSyslog: bool)
    ensures var sinks := SinksFor(hasConsole, hasFile, hasSyslog);
      && sinks != [] && (forall i, j :: 0 <= i < j < |sinks| ==> sinks[i] != sinks[j])
      && (Console in sinks <==> hasConsole || (!hasFile && !hasSyslog))
      && (File in sinks <==> hasFile) && (Syslog in sinks <==> hasSyslog)
  {
  }
}
