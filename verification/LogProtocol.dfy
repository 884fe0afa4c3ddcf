/**
 The logger as a concurrent protocol: producers, sink workers and one reconfiguring thread,
 interleaved at the granularity of the regions executed under the manager's mutex
 (internal/logging/logging.go:161-201, 266-378, 463-470, 601-634, 710-727). Formatting and
 writing a collected batch happens outside the lock, one event per step.
 */
module LogProtocol {
  import opened EventRing
  import opened LogManager
  import opened Windows

  /**
   Where a worker's goroutine is: outside the lock with a batch still to write, inside
   `cond.Wait` (with or without a broadcast it has not yet acted on), or returned.
   */
  datatype Pc = Working(batch: seq<LogEvent>) | Sleeping(signalled: bool) | Exited

  /**
   A worker and what is remembered about it for the statements below: its generation and
   start, the heads at which it collected, the head when it was told to stop, and the two
   shares of `cursor.missed`. `registered` means that it is in `Manager.workers`.
   */
  datatype Worker = Worker(
    sink: Sink, gen: nat, start: nat, cursor: Cursor, pc: Pc, registered: bool,
    output: seq<LogEvent>, collects: seq<nat>, stopHead: nat, atEviction: nat, atSnap: nat)

  /** `log` records every event ever pushed; `workers` every worker ever started. */
  datatype State = State(ring: Ring, log: seq<LogEvent>, done: bool, gen: nat, workers: seq<Worker>)

  datatype Action =
    | Enqueue(e: LogEvent)
    | TakeTurn(i: nat)
    | Write(i: nat)
    | BeginStop
    | Start(hasConsole: bool, hasFile: bool, hasSyslog: bool)
    | EndClose

  function Init(cap: nat): State {
    State(NewRing(cap), [], false, 0, [])
  }

  function Wake(w: Worker): Worker {
    if w.pc.Sleeping? then w.(pc := Sleeping(true)) else w
  }

  /** Only registered workers take part in eviction accounting. */
  function AccountWorker(w: Worker, evictedSeq: nat): Worker {
    if !w.registered then w
    else w.(cursor := Account(w.cursor, evictedSeq),
            atEviction := w.atEviction + if w.cursor.nextSeq <= evictedSeq then 1 else 0)
  }

  function AfterPush(r: Ring, w: Worker): Worker {
    Wake(if Evicts(r) then AccountWorker(w, r.tail) else w)
  }

  /** A worker gets the lock when it has written its batch, or when it was woken. */
  predicate CanTurn(w: Worker) {
    w.pc == Working([]) || w.pc == Sleeping(true)
  }

  function AfterTurn(r: Ring, done: bool, w: Worker): Worker
    requires |r.buf| > 0
  {
    match Turn(r, w.cursor, done)
    case Sleep => w.(pc := Sleeping(false))
    case Exit => w.(pc := Exited)
    case Deliver(c, batch) =>
      w.(cursor := c, pc := Working(batch), collects := w.collects + [r.head],
         atSnap := w.atSnap + (Snap(r, w.cursor).missed - w.cursor.missed))
  }

  function AfterWrite(w: Worker): Worker {
    if w.pc.Working? && w.pc.batch != []
    then w.(output := w.output + [w.pc.batch[0]], pc := Working(w.pc.batch[1..]))
    else w
  }

  function Unregister(w: Worker, head: nat): Worker {
    Wake(if w.registered then w.(registered := false, stopHead := head) else w)
  }

  predicate NoneRegistered(s: State) {
    forall w | w in s.workers :: !w.registered
  }

  predicate AllExited(s: State) {
    forall w | w in s.workers :: w.pc.Exited?
  }

  function NewWorker(sink: Sink, gen: nat, start: nat): Worker {
    Worker(sink, gen, start, Cursor(start, 0), Working([]), true, [], [], start, 0, 0)
  }

  function NewWorkers(sinks: seq<Sink>, gen: nat, start: nat): (ws: seq<Worker>)
    ensures |ws| == |sinks|
    ensures forall i :: 0 <= i < |sinks| ==> ws[i] == NewWorker(sinks[i], gen, start)
  {
    seq(|sinks|, i requires 0 <= i < |sinks| => NewWorker(sinks[i], gen, start))
  }

  function StartState(s: State, sinks: seq<Sink>): State {
    State(s.ring, s.log, false, s.gen + 1, s.workers + NewWorkers(sinks, s.gen + 1, s.ring.head))
  }

  function MapWorkers(ws: seq<Worker>, f: Worker -> Worker): (r: seq<Worker>)
    ensures |r| == |ws|
    ensures forall i :: 0 <= i < |ws| ==> r[i] == f(ws[i])
  {
    seq(|ws|, i requires 0 <= i < |ws| => f(ws[i]))
  }

  /** An action that is not enabled changes nothing, so every action list is an interleaving. */
  function Step(s: State, a: Action): (s': State)
    requires |s.ring.buf| > 0
    ensures |s'.ring.buf| == |s.ring.buf|
  {
    match a
    case Enqueue(e) =>
      s.(ring := Pushed(s.ring, e),
         log := s.log + [e.(seqNo := |s.log|)],
         workers := MapWorkers(s.workers, w => AfterPush(s.ring, w)))
    case TakeTurn(i) =>
      if i < |s.workers| && CanTurn(s.workers[i])
      then s.(workers := s.workers[i := AfterTurn(s.ring, s.done, s.workers[i])])
      else s
    case Write(i) =>
      if i < |s.workers| then s.(workers := s.workers[i := AfterWrite(s.workers[i])]) else s
    case BeginStop =>
      // Reconfigurations are serialised: the next one begins after the last one ended.
      if s.done || NoneRegistered(s) then s
      else s.(done := true, workers := MapWorkers(s.workers, w => Unregister(w, s.ring.head)))
    case Start(hasConsole, hasFile, hasSyslog) =>
      if !NoneRegistered(s) || !AllExited(s) then s
      else
        StartState(s, SinksFor(hasConsole, hasFile, hasSyslog))
    case EndClose =>
      if !NoneRegistered(s) || !AllExited(s) then s else s.(done := false)
  }

  function Run(cap: nat, actions: seq<Action>): (s: State)
    requires cap > 0
    ensures |s.ring.buf| == cap
  {
    if actions == [] then Init(cap)
    else Step(Run(cap, actions[..|actions| - 1]), actions[|actions| - 1])
  }

  /** Everything a worker has taken out of the ring: written, then still to be written. */
  function Taken(w: Worker): seq<LogEvent> {
    w.output + if w.pc.Working? then w.pc.batch else []
  }

  /** Events evicted behind the cursor that no snap has passed over yet. */
  function Pending(r: Ring, w: Worker): nat {
    if w.cursor.nextSeq < r.tail then r.tail - w.cursor.nextSeq else 0
  }

  ghost predicate Carries(log: seq<LogEvent>, events: seq<LogEvent>, numbers: seq<nat>) {
    && |events| == |numbers|
    && forall k :: 0 <= k < |events| ==> numbers[k] < |log| && events[k] == log[numbers[k]]
  }

  ghost predicate CursorInv(s: State, w: Worker) {
    && |s.ring.buf| > 0
    && Chain(w.start, w.collects)
    && Reached(w.start, w.collects) == w.cursor.nextSeq <= s.ring.head
    && Carries(s.log, Taken(w), DeliveredSeqs(w.start, w.collects, |s.ring.buf|))
  }

  ghost predicate MissedInv(s: State, w: Worker)
    requires CursorInv(s, w)
  {
    var skipped := |SkippedSeqs(w.start, w.collects, |s.ring.buf|)|;
    && w.cursor.missed == w.atEviction + w.atSnap
    && w.atSnap == skipped
    && (w.registered ==> w.atEviction == skipped + Pending(s.ring, w))
  }

  ghost predicate PhaseInv(s: State, w: Worker) {
    && (w.pc == Sleeping(false) ==> w.cursor.nextSeq == s.ring.head && !s.done)
    && (w.registered ==> !s.done && !w.pc.Exited?)
    && (!w.registered ==> w.stopHead <= s.ring.head && (s.done || w.pc.Exited?))
    && (w.pc.Exited? ==> w.stopHead <= w.cursor.nextSeq)
    && w.gen <= s.gen
  }

  ghost predicate WorkerInv(s: State, w: Worker) {
    CursorInv(s, w) && MissedInv(s, w) && PhaseInv(s, w)
  }

  /** An older worker of the list belongs to the same generation or has finished before it. */
  ghost predicate Precedes(v: Worker, w: Worker) {
    && v.gen <= w.gen
    && (v.gen == w.gen ==> v.sink != w.sink)
    && (v.gen < w.gen ==> v.pc.Exited? && !v.registered && v.cursor.nextSeq <= w.start)
  }

  ghost predicate Inv(s: State) {
    && Refines(s.ring, s.log)
    && (forall i :: 0 <= i < |s.workers| ==> WorkerInv(s, s.workers[i]))
    && forall i, j :: 0 <= i < j < |s.workers| ==> Precedes(s.workers[i], s.workers[j])
  }

  lemma PushKeepsWorker(s: State, e: LogEvent, w: Worker)
    requires Refines(s.ring, s.log) && WorkerInv(s, w)
    ensures WorkerInv(Step(s, Enqueue(e)), AfterPush(s.ring, w))
  {
    PushRefines(s.ring, s.log, e);
    var w' := AfterPush(s.ring, w);
    assert Taken(w') == Taken(w);
  }

  lemma CarriesExtend(log: seq<LogEvent>, events: seq<LogEvent>, numbers: seq<nat>, from: nat)
    requires Carries(log, events, numbers) && from <= |log|
    ensures Carries(log, events + log[from..], numbers + Numbers(from, |log|))
  {
  }

  /** A worker right after it collected everything from `from` to the head. */
  function Collected(s: State, w: Worker, from: nat): Worker
    requires from <= |s.log| && w.cursor.nextSeq <= from
  {
    var gap := from - w.cursor.nextSeq;
    w.(cursor := Cursor(s.ring.head, w.cursor.missed + gap), pc := Working(s.log[from..]),
       collects := w.collects + [s.ring.head], atSnap := w.atSnap + gap)
  }

  lemma DeliveryCollects(s: State, w: Worker)
    requires Refines(s.ring, s.log) && w.cursor.nextSeq < s.ring.head
    ensures AfterTurn(s.ring, s.done, w)
         == Collected(s, w, From(w.cursor.nextSeq, s.ring.head, |s.ring.buf|))
  {
    TurnDeliversTheLiveLog(s.ring, s.log, w.cursor, s.done);
  }

  lemma CollectedKeepsWorker(s: State, w: Worker)
    requires WorkerInv(s, w) && CanTurn(w)
    requires w.cursor.nextSeq < s.ring.head == |s.log| && s.ring.tail <= s.ring.head
    requires s.ring.tail == OldestLive(s.ring.head, |s.ring.buf|)
    ensures WorkerInv(s, Collected(s, w, From(w.cursor.nextSeq, s.ring.head, |s.ring.buf|)))
  {
    var lo, head, cap := w.cursor.nextSeq, s.ring.head, |s.ring.buf|;
    var from := From(lo, head, cap);
    var w' := Collected(s, w, from);
    OneMoreCollection(w.start, w.collects, head, cap);
    CarriesExtend(s.log, Taken(w), DeliveredSeqs(w.start, w.collects, cap), from);
    assert Taken(w') == Taken(w) + s.log[from..];
    assert |Numbers(lo, from)| == from - lo;
    assert CursorInv(s, w');
  }

  lemma TurnKeepsWorker(s: State, w: Worker)
    requires Refines(s.ring, s.log) && WorkerInv(s, w) && CanTurn(w)
    ensures WorkerInv(s, AfterTurn(s.ring, s.done, w))
  {
    if w.cursor.nextSeq < s.ring.head {
      DeliveryCollects(s, w);
      CollectedKeepsWorker(s, w);
    } else {
      assert Taken(AfterTurn(s.ring, s.done, w)) == Taken(w);
    }
  }

  lemma WriteKeepsWorker(s: State, w: Worker)
    requires WorkerInv(s, w)
    ensures WorkerInv(s, AfterWrite(w))
  {
    assert Taken(AfterWrite(w)) == Taken(w);
  }

  lemma StopKeepsWorker(s: State, w: Worker)
    requires WorkerInv(s, w) && !s.done
    ensures WorkerInv(s.(done := true), Unregister(w, s.ring.head))
  {
    assert Taken(Unregister(w, s.ring.head)) == Taken(w);
  }

  lemma PushKeepsInv(s: State, e: LogEvent)
    requires Inv(s)
    ensures Inv(Step(s, Enqueue(e)))
  {
    var s' := Step(s, Enqueue(e));
    PushRefines(s.ring, s.log, e);
    forall i | 0 <= i < |s'.workers| ensures WorkerInv(s', s'.workers[i]) {
      PushKeepsWorker(s, e, s.workers[i]);
    }
  }

  /** Replacing one worker, without touching who it is or where it started. */
  lemma UpdateKeepsInv(s: State, i: nat, w: Worker)
    requires Inv(s) && i < |s.workers| && WorkerInv(s, w)
    requires var v := s.workers[i];
      && w.gen == v.gen && w.sink == v.sink && w.start == v.start
      && (v.pc.Exited? ==> w == v)
    ensures Inv(s.(workers := s.workers[i := w]))
  {
    var s' := s.(workers := s.workers[i := w]);
    forall k | 0 <= k < |s'.workers| ensures WorkerInv(s', s'.workers[k]) {
      assert WorkerInv(s, s'.workers[k]);
    }
  }

  lemma StopKeepsInv(s: State)
    requires Inv(s)
    ensures Inv(Step(s, BeginStop))
  {
    var s' := Step(s, BeginStop);
    if !(s.done || NoneRegistered(s)) {
      forall i | 0 <= i < |s'.workers| ensures WorkerInv(s', s'.workers[i]) {
        StopKeepsWorker(s, s.workers[i]);
      }
      forall i, j | 0 <= i < j < |s'.workers| ensures Precedes(s'.workers[i], s'.workers[j]) {
        assert Precedes(s.workers[i], s.workers[j]);
      }
    }
  }

  /** With every worker gone nothing depends on the stop flag or on the generation counter. */
  lemma ExitedWorkerKeeps(s: State, s': State, w: Worker)
    requires WorkerInv(s, w) && w.pc.Exited?
    requires s'.ring == s.ring && s'.log == s.log && s.gen <= s'.gen
    ensures WorkerInv(s', w)
  {
  }

  lemma NewWorkerInv(s: State, sink: Sink)
    requires Refines(s.ring, s.log) && !s.done
    ensures WorkerInv(s, NewWorker(sink, s.gen, s.ring.head))
  {
    assert Taken(NewWorker(sink, s.gen, s.ring.head)) == [];
  }

  lemma StartKeepsWorkers(s: State, sinks: seq<Sink>)
    requires Refines(s.ring, s.log) && AllExited(s)
    requires forall i :: 0 <= i < |s.workers| ==> WorkerInv(s, s.workers[i])
    ensures var s' := StartState(s, sinks);
      forall i :: 0 <= i < |s'.workers| ==> WorkerInv(s', s'.workers[i])
  {
    var n, started := |s.workers|, NewWorkers(sinks, s.gen + 1, s.ring.head);
    var s' := StartState(s, sinks);
    forall i | 0 <= i < |s'.workers| ensures WorkerInv(s', s'.workers[i]) {
      if i < n {
        assert s'.workers[i] == s.workers[i] && s.workers[i] in s.workers;
        ExitedWorkerKeeps(s, s', s.workers[i]);
      } else {
        NewWorkerInv(s', sinks[i - n]);
        assert s'.workers[i] == started[i - n];
      }
    }
  }

  /** What the order of the worker list needs to know about an exited worker. */
  ghost predicate FinishedBefore(w: Worker, gen: nat, start: nat) {
    w.pc.Exited? && !w.registered && w.gen < gen && w.cursor.nextSeq <= start
  }

  lemma StartKeepsOrder(earlier: seq<Worker>, started: seq<Worker>, gen: nat, start: nat)
    requires forall i, j :: 0 <= i < j < |earlier| ==> Precedes(earlier[i], earlier[j])
    requires forall i :: 0 <= i < |earlier| ==> FinishedBefore(earlier[i], gen, start)
    requires forall i :: 0 <= i < |started| ==> started[i].gen == gen && started[i].start == start
    requires forall i, j :: 0 <= i < j < |started| ==> started[i].sink != started[j].sink
    ensures forall i, j :: 0 <= i < j < |earlier + started| ==> Precedes((earlier + started)[i], (earlier + started)[j])
  {
    var all, n := earlier + started, |earlier|;
    forall i, j | 0 <= i < j < |all| ensures Precedes(all[i], all[j]) {
      if j < n {
        assert Precedes(earlier[i], earlier[j]);
      } else if i < n {
        assert FinishedBefore(earlier[i], gen, start) && all[j] == started[j - n];
      } else {
        assert all[i] == started[i - n] && all[j] == started[j - n];
      }
    }
  }

  lemma ExitedIsFinished(s: State, w: Worker)
    requires WorkerInv(s, w) && w.pc.Exited?
    ensures FinishedBefore(w, s.gen + 1, s.ring.head)
  {
  }

  lemma AllFinished(s: State)
    requires AllExited(s)
    requires forall i :: 0 <= i < |s.workers| ==> WorkerInv(s, s.workers[i])
    ensures forall i :: 0 <= i < |s.workers| ==> FinishedBefore(s.workers[i], s.gen + 1, s.ring.head)
  {
    forall i | 0 <= i < |s.workers| ensures FinishedBefore(s.workers[i], s.gen + 1, s.ring.head) {
      assert s.workers[i] in s.workers;
      ExitedIsFinished(s, s.workers[i]);
    }
  }

  lemma StartKeepsInv(s: State, sinks: seq<Sink>)
    requires Inv(s) && AllExited(s)
    requires forall i, j :: 0 <= i < j < |sinks| ==> sinks[i] != sinks[j]
    ensures Inv(StartState(s, sinks))
  {
    StartKeepsWorkers(s, sinks);
    AllFinished(s);
    StartKeepsOrder(s.workers, NewWorkers(sinks, s.gen + 1, s.ring.head), s.gen + 1, s.ring.head);
  }

  lemma EndCloseKeepsInv(s: State)
    requires Inv(s)
    ensures Inv(Step(s, EndClose))
  {
    var s' := Step(s, EndClose);
    if NoneRegistered(s) && AllExited(s) {
      forall i | 0 <= i < |s'.workers| ensures WorkerInv(s', s'.workers[i]) {
        assert s.workers[i] in s.workers;
        ExitedWorkerKeeps(s, s', s.workers[i]);
      }
    }
  }

  lemma StartStepKeepsInv(s: State, hasConsole: bool, hasFile: bool, hasSyslog: bool)
    requires Inv(s)
    ensures Inv(Step(s, Start(hasConsole, hasFile, hasSyslog)))
  {
    if !NoneRegistered(s) || !AllExited(s) {
      assert Step(s, Start(hasConsole, hasFile, hasSyslog)) == s;
    } else {
      SinksAreDistinct(hasConsole, hasFile, hasSyslog);
      StartKeepsInv(s, SinksFor(hasConsole, hasFile, hasSyslog));
    }
  }

  lemma TurnStepKeepsInv(s: State, i: nat)
    requires Inv(s)
    ensures Inv(Step(s, TakeTurn(i)))
  {
    if i < |s.workers| && CanTurn(s.workers[i]) {
      TurnKeepsWorker(s, s.workers[i]);
      UpdateKeepsInv(s, i, AfterTurn(s.ring, s.done, s.workers[i]));
    }
  }

  lemma WriteStepKeepsInv(s: State, i: nat)
    requires Inv(s)
    ensures Inv(Step(s, Write(i)))
  {
    if i < |s.workers| {
      WriteKeepsWorker(s, s.workers[i]);
      UpdateKeepsInv(s, i, AfterWrite(s.workers[i]));
    }
  }

  lemma StepKeepsInv(s: State, a: Action)
    requires Inv(s)
    ensures Inv(Step(s, a))
  {
    match a
    case Enqueue(e) => PushKeepsInv(s, e);
    case TakeTurn(i) => TurnStepKeepsInv(s, i);
    case Write(i) => WriteStepKeepsInv(s, i);
    case BeginStop => StopKeepsInv(s);
    case Start(hasConsole, hasFile, hasSyslog) => StartStepKeepsInv(s, hasConsole, hasFile, hasSyslog);
    case EndClose => EndCloseKeepsInv(s);
  }

  lemma {:induction false} RunKeepsInv(cap: nat, actions: seq<Action>)
    requires cap > 0
    ensures Inv(Run(cap, actions))
  {
    if actions == [] {
    } else {
      RunKeepsInv(cap, actions[..|actions| - 1]);
      StepKeepsInv(Run(cap, actions[..|actions| - 1]), actions[|actions| - 1]);
    }
  }

  // ----- What holds of every worker in every interleaving -----

  /**
   What a sink was handed is the log at the numbers that the ring-free specification delivers,
   in ascending order, so it is a duplicate-free subsequence of the pushed history.
   */
  lemma SinkSeesAscendingLog(cap: nat, actions: seq<Action>, i: nat)
    requires cap > 0 && i < |Run(cap, actions).workers|
    ensures var s := Run(cap, actions); var w := s.workers[i];
      && Chain(w.start, w.collects)
      && Carries(s.log, Taken(w), DeliveredSeqs(w.start, w.collects, cap))
      && w.output <= Taken(w)
      && forall j, k :: 0 <= j < k < |Taken(w)| ==> Taken(w)[j].seqNo < Taken(w)[k].seqNo
  {
    RunKeepsInv(cap, actions);
    var w := Run(cap, actions).workers[i];
    BothAscend(w.start, w.collects, cap);
  }

  /**
   Every event between a worker's start and its cursor was either handed to the sink or had
   been evicted by the time of the first collection after it, never both.
   */
  lemma EveryEventTakenOrEvicted(cap: nat, actions: seq<Action>, i: nat, q: nat)
    requires cap > 0 && i < |Run(cap, actions).workers|
    requires var w := Run(cap, actions).workers[i]; w.start <= q < w.cursor.nextSeq
    ensures var s := Run(cap, actions); var w := s.workers[i];
      && Chain(w.start, w.collects) && q < Reached(w.start, w.collects) && q < |s.log|
      && (s.log[q] in Taken(w) <==> FirstCollectAfter(w.collects, q) <= q + cap)
      && (q in SkippedSeqs(w.start, w.collects, cap) <==> s.log[q] !in Taken(w))
  {
    RunKeepsInv(cap, actions);
    var s := Run(cap, actions);
    var w := s.workers[i];
    var seqs := DeliveredSeqs(w.start, w.collects, cap);
    DeliveredOrEvicted(w.start, w.collects, cap, q);
    if q in seqs {
      var k :| 0 <= k < |seqs| && seqs[k] == q;
      assert Taken(w)[k] == s.log[q];
    }
    if s.log[q] in Taken(w) {
      var k :| 0 <= k < |Taken(w)| && Taken(w)[k] == s.log[q];
      assert s.log[seqs[k]].seqNo == seqs[k] && s.log[q].seqNo == q;
    }
  }

  /** A sink that collects at least once per `cap` events loses none of them, and only then. */
  lemma NothingLostIffCollectedInTime(cap: nat, actions: seq<Action>, i: nat)
    requires cap > 0 && i < |Run(cap, actions).workers|
    ensures var s := Run(cap, actions); var w := s.workers[i];
      && Chain(w.start, w.collects) && w.start <= w.cursor.nextSeq <= |s.log|
      && (Taken(w) == s.log[w.start..w.cursor.nextSeq] <==> GapsFit(w.start, w.collects, cap))
  {
    RunKeepsInv(cap, actions);
    var s := Run(cap, actions);
    var w := s.workers[i];
    assert WorkerInv(s, w);
    CountsAddUp(w.start, w.collects, cap);
    NothingSkippedIff(w.start, w.collects, cap);
    if GapsFit(w.start, w.collects, cap) {
      TakenWithoutGaps(s, w);
    }
  }

  lemma TakenWithoutGaps(s: State, w: Worker)
    requires WorkerInv(s, w) && |s.log| == s.ring.head
    requires w.start + |Taken(w)| == w.cursor.nextSeq
    ensures Taken(w) == s.log[w.start..w.cursor.nextSeq]
  {
    var numbers := DeliveredSeqs(w.start, w.collects, |s.ring.buf|);
    BothAscend(w.start, w.collects, |s.ring.buf|);
    GapFreeAscending(numbers, w.start, w.cursor.nextSeq);
  }

  lemma {:induction false} GapFreeAscending(numbers: seq<nat>, lo: nat, hi: nat)
    requires Ascending(numbers) && Within(numbers, lo, hi) && lo + |numbers| == hi
    ensures forall k :: 0 <= k < |numbers| ==> numbers[k] == lo + k
  {
    if numbers == [] {
    } else {
      var n := |numbers| - 1;
      var init := numbers[..n];
      forall k | 0 <= k < n ensures init[k] < hi - 1 {
        assert numbers[k] < numbers[n];
      }
      GapFreeAscending(init, lo, hi - 1);
      assert forall k :: 0 <= k < n ==> numbers[k] == init[k];
      if n > 0 {
        assert numbers[n - 1] < numbers[n];
      }
    }
  }

  /**
   The exact law of the counter while its worker is registered. The documentation of the field
   promises the number of events overwritten before they were read, `skipped + pending`; the
   eviction site alone counts exactly that at all times and the snap site alone counts the
   skipped ones, so with both sites every snapped-over event counts twice.
   */
  lemma MissedLaw(cap: nat, actions: seq<Action>, i: nat)
    requires cap > 0 && i < |Run(cap, actions).workers|
    ensures var s := Run(cap, actions); var w := s.workers[i];
      Chain(w.start, w.collects) &&
      var skipped, pending := |SkippedSeqs(w.start, w.collects, cap)|, Pending(s.ring, w);
      var lost := skipped + pending;
      && w.atSnap == skipped
      && (w.registered ==>
            && w.cursor.missed == 2 * skipped + pending
            && w.atEviction == lost
            && lost <= w.cursor.missed <= 2 * lost
            && (w.cursor.missed == 0 <==> lost == 0)
            && (w.cursor.missed == lost <==> GapsFit(w.start, w.collects, cap)))
  {
    RunKeepsInv(cap, actions);
    var w := Run(cap, actions).workers[i];
    NothingSkippedIff(w.start, w.collects, cap);
  }

  lemma RunSnoc(cap: nat, actions: seq<Action>, a: Action)
    requires cap > 0
    ensures Run(cap, actions + [a]) == Step(Run(cap, actions), a)
  {
    assert (actions + [a])[..|actions|] == actions;
  }

  /** `n` events logged by one producer. */
  function Burst(e: LogEvent, n: nat): seq<Action> {
    if n == 0 then [] else Burst(e, n - 1) + [Enqueue(e)]
  }

  /** One worker that was started on an empty ring and has not collected yet. */
  ghost predicate NotYetCollected(s: State, n: nat) {
    && |s.workers| == 1 && s.ring.head == |s.log| == n
    && var w := s.workers[0];
       && w.registered && w.pc == Working([]) && w.output == []
       && w.start == 0 && w.collects == [] && w.cursor.nextSeq == 0
  }

  lemma {:induction false} BurstBeforeCollecting(cap: nat, e: LogEvent, n: nat)
    requires cap > 0
    ensures NotYetCollected(Run(cap, [Start(true, false, false)] + Burst(e, n)), n)
  {
    var started := [Start(true, false, false)];
    if n == 0 {
      assert started + Burst(e, 0) == [] + started;
      RunSnoc(cap, [], Start(true, false, false));
      assert SinksFor(true, false, false) == [Console];
      assert NewWorkers([Console], 1, 0) == [NewWorker(Console, 1, 0)];
    } else {
      BurstBeforeCollecting(cap, e, n - 1);
      assert started + Burst(e, n) == (started + Burst(e, n - 1)) + [Enqueue(e)];
      RunSnoc(cap, started + Burst(e, n - 1), Enqueue(e));
    }
  }

  /**
   Every lost event is counted twice, on a ring of any capacity: after a start, `cap + lost`
   events and one late collection, exactly the first `lost` are lost and `missed` is twice that.
   */
  lemma LostEventsCountTwice(cap: nat, lost: nat, e: LogEvent)
    requires cap > 0 && lost > 0
    ensures var s := Run(cap, [Start(true, false, false)] + Burst(e, cap + lost) + [TakeTurn(0)]);
      && |s.workers| == 1 && s.workers[0].registered && |s.log| == cap + lost
      && Taken(s.workers[0]) == s.log[lost..]
      && s.workers[0].cursor.missed == 2 * lost
  {
    var actions := [Start(true, false, false)] + Burst(e, cap + lost);
    var s := Run(cap, actions);
    BurstBeforeCollecting(cap, e, cap + lost);
    RunSnoc(cap, actions, TakeTurn(0));
    RunKeepsInv(cap, actions);
    MissedLaw(cap, actions, 0);
    TurnDeliversTheLiveLog(s.ring, s.log, s.workers[0].cursor, s.done);
  }

  /** Whether the worker's goroutine can take a step of its own now. */
  predicate Active(w: Worker) {
    CanTurn(w) || (w.pc.Working? && w.pc.batch != [])
  }

  /**
   No wake-up is lost: a worker that cannot move is either gone or waiting with its cursor at
   the head and no stop requested.
   */
  lemma NoLostWakeup(cap: nat, actions: seq<Action>, i: nat)
    requires cap > 0 && i < |Run(cap, actions).workers|
    ensures var s := Run(cap, actions); var w := s.workers[i];
      !Active(w) ==> w.pc.Exited? || (w.cursor.nextSeq == s.ring.head && !s.done)
  {
    RunKeepsInv(cap, actions);
  }

  /**
   A worker exits only after draining: every event pushed before the stop was requested lies
   below its cursor, so it was handed over or evicted, and nothing taken is left unwritten.
   */
  lemma ExitMeansDrained(cap: nat, actions: seq<Action>, i: nat)
    requires cap > 0 && i < |Run(cap, actions).workers|
    requires Run(cap, actions).workers[i].pc.Exited?
    ensures var s := Run(cap, actions); var w := s.workers[i];
      && Chain(w.start, w.collects)
      && !w.registered && w.stopHead <= w.cursor.nextSeq <= s.ring.head
      && Taken(w) == w.output
      && forall q :: w.start <= q < w.stopHead && q < |s.log| ==>
           s.log[q] in w.output || q in SkippedSeqs(w.start, w.collects, cap)
  {
    RunKeepsInv(cap, actions);
    var s := Run(cap, actions);
    var w := s.workers[i];
    assert Taken(w) == w.output;
    forall q | w.start <= q < w.stopHead && q < |s.log|
      ensures s.log[q] in w.output || q in SkippedSeqs(w.start, w.collects, cap)
    {
      EveryEventTakenOrEvicted(cap, actions, i, q);
    }
  }

  /** Events are only ever added, and who a worker is and when it was stopped does not change. */
  ghost predicate Grew(s: State, s': State) {
    && s.log <= s'.log
    && |s.workers| <= |s'.workers|
    && forall i :: 0 <= i < |s.workers| ==> SameWorker(s.workers[i], s'.workers[i])
  }

  predicate SameWorker(w: Worker, w': Worker) {
    && w'.start == w.start && w'.sink == w.sink && w'.gen == w.gen
    && (!w.registered ==> !w'.registered && w'.stopHead == w.stopHead)
  }

  lemma StepGrows(s: State, a: Action)
    requires |s.ring.buf| > 0
    ensures Grew(s, Step(s, a))
  {
  }

  lemma {:induction false} RunGrows(cap: nat, actions: seq<Action>, more: seq<Action>)
    requires cap > 0
    ensures Grew(Run(cap, actions), Run(cap, actions + more))
  {
    if more == [] {
      assert actions + more == actions;
    } else {
      var init, last := more[..|more| - 1], more[|more| - 1];
      RunGrows(cap, actions, init);
      assert actions + more == (actions + init) + [last];
      RunSnoc(cap, actions + init, last);
      StepGrows(Run(cap, actions + init), last);
    }
  }

  /**
   Stopping drains: whatever happens after a stop was requested, once a worker it concerned has
   returned, every event that had been logged when the stop was requested was written or skipped.
   */
  lemma StopLosesNothing(cap: nat, before: seq<Action>, after: seq<Action>, i: nat, q: nat)
    requires cap > 0 && i < |Run(cap, before).workers|
    requires Run(cap, before).workers[i].registered && !Run(cap, before).done
    requires i < |Run(cap, before + [BeginStop] + after).workers|
    requires Run(cap, before + [BeginStop] + after).workers[i].pc.Exited?
    requires Run(cap, before).workers[i].start <= q < |Run(cap, before).log|
    ensures var s := Run(cap, before + [BeginStop] + after); var w := s.workers[i];
      && Chain(w.start, w.collects) && q < |s.log| && s.log[q] == Run(cap, before).log[q]
      && (s.log[q] in w.output || q in SkippedSeqs(w.start, w.collects, cap))
  {
    var s0, s1 := Run(cap, before), Run(cap, before + [BeginStop]);
    RunKeepsInv(cap, before);
    RunSnoc(cap, before, BeginStop);
    assert s0.workers[i] in s0.workers && !NoneRegistered(s0);
    assert s1 == Step(s0, BeginStop) && s1.workers[i] == Unregister(s0.workers[i], s0.ring.head);
    RunGrows(cap, before + [BeginStop], after);
    ExitMeansDrained(cap, before + [BeginStop] + after, i);
  }

  /**
   Across reconfigurations a sink never gets an event twice: what an earlier worker took is
   older than anything a later worker for the same sink takes.
   */
  lemma NoEventTwiceAcrossGenerations(cap: nat, actions: seq<Action>, i: nat, j: nat)
    requires cap > 0 && i < j < |Run(cap, actions).workers|
    requires Run(cap, actions).workers[i].sink == Run(cap, actions).workers[j].sink
    ensures var s := Run(cap, actions);
      && s.workers[i].cursor.nextSeq <= s.workers[j].start
      && forall e, f :: e in Taken(s.workers[i]) && f in Taken(s.workers[j]) ==> e.seqNo < f.seqNo
  {
    RunKeepsInv(cap, actions);
    var s := Run(cap, actions);
    var v, w := s.workers[i], s.workers[j];
    assert Precedes(v, w);
    BothAscend(v.start, v.collects, cap);
    BothAscend(w.start, w.collects, cap);
    TakenNumbers(s, v);
    TakenNumbers(s, w);
  }

  lemma TakenNumbers(s: State, w: Worker)
    requires Refines(s.ring, s.log) && WorkerInv(s, w)
    ensures forall e :: e in Taken(w) ==> w.start <= e.seqNo < w.cursor.nextSeq
  {
    BothAscend(w.start, w.collects, |s.ring.buf|);
  }

  /** What is left to do before a stopped worker returns. */
  function Remaining(s: State, w: Worker): nat {
    if w.pc.Exited? then 0
    else 1 + (if w.pc.Working? then |w.pc.batch| else 0)
           + (if w.cursor.nextSeq < s.ring.head then 1 + (s.ring.head - w.cursor.nextSeq) else 0)
  }

  /**
   Once a stop is requested every worker that has not returned can move, and its own steps
   strictly shrink what remains for it.
   */
  lemma StopMakesProgress(cap: nat, actions: seq<Action>, i: nat)
    requires cap > 0 && i < |Run(cap, actions).workers|
    requires Run(cap, actions).done && !Run(cap, actions).workers[i].pc.Exited?
    ensures var s := Run(cap, actions);
      var s' := Step(s, if CanTurn(s.workers[i]) then TakeTurn(i) else Write(i));
      |s'.workers| == |s.workers| && Remaining(s', s'.workers[i]) < Remaining(s, s.workers[i])
  {
    RunKeepsInv(cap, actions);
    var s := Run(cap, actions);
    var w := s.workers[i];
    assert WorkerInv(s, w);
    if CanTurn(w) && w.cursor.nextSeq < s.ring.head {
      TurnDeliversTheLiveLog(s.ring, s.log, w.cursor, s.done);
    }
  }

  /** The action is a step of the worker's own goroutine that it can take now. */
  predicate OwnStep(s: State, i: nat, a: Action)
    requires i < |s.workers|
  {
    var w := s.workers[i];
    (a == TakeTurn(i) && CanTurn(w)) || (a == Write(i) && w.pc.Working? && w.pc.batch != [])
  }

  /** The steps that worker `i` takes of its own while `more` follows `actions`. */
  function OwnSteps(cap: nat, actions: seq<Action>, more: seq<Action>, i: nat): nat
    requires cap > 0
  {
    if more == [] then 0
    else
      var init, last := more[..|more| - 1], more[|more| - 1];
      var s := Run(cap, actions + init);
      OwnSteps(cap, actions, init, i) + if i < |s.workers| && OwnStep(s, i, last) then 1 else 0
  }

  function Enqueued(more: seq<Action>): nat {
    if more == [] then 0
    else Enqueued(more[..|more| - 1]) + if more[|more| - 1].Enqueue? then 1 else 0
  }

  /** Worker `i` exists and was told to stop, or has returned. */
  predicate Stopping(s: State, i: nat) {
    i < |s.workers| && (s.done || s.workers[i].pc.Exited?)
  }

  /** The step keeps the worker on its way out and uses up what remained for it. */
  ghost predicate TowardsExit(s: State, i: nat, a: Action)
    requires |s.ring.buf| > 0 && Stopping(s, i)
  {
    var s' := Step(s, a);
    && Stopping(s', i)
    && Remaining(s', s'.workers[i]) + (if OwnStep(s, i, a) then 1 else 0)
         <= Remaining(s, s.workers[i]) + if a.Enqueue? then 2 else 0
  }

  lemma TurnTowardsExit(s: State, i: nat, j: nat)
    requires Inv(s) && Stopping(s, i)
    ensures TowardsExit(s, i, TakeTurn(j))
  {
    assert WorkerInv(s, s.workers[i]);
    if j == i && CanTurn(s.workers[i]) && s.workers[i].cursor.nextSeq < s.ring.head {
      TurnDeliversTheLiveLog(s.ring, s.log, s.workers[i].cursor, s.done);
    }
  }

  lemma WriteTowardsExit(s: State, i: nat, j: nat)
    requires Inv(s) && Stopping(s, i)
    ensures TowardsExit(s, i, Write(j))
  {
  }

  lemma EnqueueTowardsExit(s: State, i: nat, e: LogEvent)
    requires Inv(s) && Stopping(s, i)
    ensures TowardsExit(s, i, Enqueue(e))
  {
    assert WorkerInv(s, s.workers[i]);
  }

  lemma StepTowardsExit(s: State, i: nat, a: Action)
    requires Inv(s) && Stopping(s, i)
    ensures TowardsExit(s, i, a)
  {
    assert s.workers[i] in s.workers;
    match a
    case TakeTurn(j) => TurnTowardsExit(s, i, j);
    case Write(j) => WriteTowardsExit(s, i, j);
    case Enqueue(e) => EnqueueTowardsExit(s, i, e);
    case _ =>
  }

  /** Own steps so far and what remains, against what remained at the stop and what was logged since. */
  ghost predicate WithinBound(cap: nat, actions: seq<Action>, more: seq<Action>, i: nat)
    requires cap > 0 && Stopping(Run(cap, actions), i)
  {
    var s, s' := Run(cap, actions), Run(cap, actions + more);
    && Stopping(s', i)
    && OwnSteps(cap, actions, more, i) + Remaining(s', s'.workers[i])
         <= Remaining(s, s.workers[i]) + 2 * Enqueued(more)
  }

  lemma BoundStep(cap: nat, actions: seq<Action>, init: seq<Action>, last: Action, i: nat)
    requires cap > 0 && Stopping(Run(cap, actions), i) && WithinBound(cap, actions, init, i)
    ensures WithinBound(cap, actions, init + [last], i)
  {
    var s, more := Run(cap, actions + init), init + [last];
    assert more[..|init|] == init;
    assert actions + more == (actions + init) + [last];
    RunKeepsInv(cap, actions + init);
    RunSnoc(cap, actions + init, last);
    StepTowardsExit(s, i, last);
    assert Enqueued(more) == Enqueued(init) + if last.Enqueue? then 1 else 0;
    assert OwnSteps(cap, actions, more, i) == OwnSteps(cap, actions, init, i) + if OwnStep(s, i, last) then 1 else 0;
  }

  lemma {:induction false} AlwaysWithinBound(cap: nat, actions: seq<Action>, more: seq<Action>, i: nat)
    requires cap > 0 && Stopping(Run(cap, actions), i)
    ensures WithinBound(cap, actions, more, i)
  {
    if more == [] {
      assert actions + more == actions;
    } else {
      var n := |more| - 1;
      AlwaysWithinBound(cap, actions, more[..n], i);
      BoundStep(cap, actions, more[..n], more[n], i);
      assert more == more[..n] + [more[n]];
    }
  }

  /**
   From the stop on a worker takes at most as many steps of its own as remained for it, and two
   more per event enqueued since; it has returned when it took that many.
   */
  lemma StopIsBounded(cap: nat, actions: seq<Action>, more: seq<Action>, i: nat)
    requires cap > 0 && Stopping(Run(cap, actions), i)
    ensures var s, s' := Run(cap, actions), Run(cap, actions + more);
      var bound := Remaining(s, s.workers[i]) + 2 * Enqueued(more);
      && Stopping(s', i)
      && OwnSteps(cap, actions, more, i) <= bound
      && (OwnSteps(cap, actions, more, i) == bound ==> s'.workers[i].pc.Exited?)
  {
    AlwaysWithinBound(cap, actions, more, i);
  }

  /** If nothing is logged after the stop, the worker has returned after the steps that remained. */
  lemma QuietStopTerminates(cap: nat, actions: seq<Action>, more: seq<Action>, i: nat)
    requires cap > 0 && Stopping(Run(cap, actions), i) && Enqueued(more) == 0
    requires OwnSteps(cap, actions, more, i) >= Remaining(Run(cap, actions), Run(cap, actions).workers[i])
    ensures Stopping(Run(cap, actions + more), i) && Run(cap, actions + more).workers[i].pc.Exited?
  {
    StopIsBounded(cap, actions, more, i);
  }

  /**
   When a stopped worker takes its turn, it returns exactly if no event was logged since its
   last collection, or since its start if it never collected.
   */
  lemma TurnExitsIff(cap: nat, actions: seq<Action>, i: nat)
    requires cap > 0 && i < |Run(cap, actions).workers|
    requires Run(cap, actions).done && CanTurn(Run(cap, actions).workers[i])
    ensures var s := Run(cap, actions); var s' := Step(s, TakeTurn(i)); var w := s.workers[i];
      |s'.workers| == |s.workers| && (s'.workers[i].pc.Exited? <==> |s.log| == Reached(w.start, w.collects))
  {
    RunKeepsInv(cap, actions);
    assert WorkerInv(Run(cap, actions), Run(cap, actions).workers[i]);
  }

  /** A producer that logs once between a worker's turn and its write. */
  function Rounds(e: LogEvent, n: nat): seq<Action> {
    if n == 0 then [] else Rounds(e, n - 1) + [TakeTurn(0)] + [Enqueue(e)] + [Write(0)]
  }

  function StoppedAfterOne(e: LogEvent): seq<Action> {
    [Start(true, false, false)] + [Enqueue(e)] + [BeginStop]
  }

  /** One worker, told to stop, with one event to collect. */
  ghost predicate Starved(s: State) {
    && |s.workers| == 1 && s.done && s.ring.head == |s.log|
    && s.workers[0].pc == Working([]) && s.workers[0].cursor.nextSeq + 1 == s.ring.head
  }

  lemma StoppedAfterOneIsStarved(cap: nat, e: LogEvent)
    requires cap > 0
    ensures Starved(Run(cap, StoppedAfterOne(e)))
  {
    var started := [Start(true, false, false)];
    BurstBeforeCollecting(cap, e, 1);
    assert Burst(e, 1) == [Enqueue(e)];
    RunSnoc(cap, started + [Enqueue(e)], BeginStop);
    assert Run(cap, started + [Enqueue(e)]).workers[0].registered;
    RunKeepsInv(cap, started + [Enqueue(e)]);
    assert WorkerInv(Run(cap, started + [Enqueue(e)]), Run(cap, started + [Enqueue(e)]).workers[0]);
  }

  /** One round gives the worker two steps and leaves it as it was. */
  lemma StarvedRound(cap: nat, actions: seq<Action>, e: LogEvent)
    requires cap > 0 && Starved(Run(cap, actions))
    ensures OwnStep(Run(cap, actions), 0, TakeTurn(0))
    ensures var s2 := Run(cap, actions + [TakeTurn(0)] + [Enqueue(e)]); |s2.workers| == 1 && OwnStep(s2, 0, Write(0))
    ensures Starved(Run(cap, actions + [TakeTurn(0)] + [Enqueue(e)] + [Write(0)]))
  {
    var s := Run(cap, actions);
    RunKeepsInv(cap, actions);
    TurnDeliversTheLiveLog(s.ring, s.log, s.workers[0].cursor, s.done);
    assert WorkerInv(s, s.workers[0]);
    RunSnoc(cap, actions, TakeTurn(0));
    RunSnoc(cap, actions + [TakeTurn(0)], Enqueue(e));
    RunSnoc(cap, actions + [TakeTurn(0)] + [Enqueue(e)], Write(0));
  }

  /**
   So a stop need not end: on a ring of any capacity, while one event is logged per batch, a
   stopped worker takes any number of steps without returning.
   */
  lemma {:induction false} StopCanBeStarved(cap: nat, e: LogEvent, n: nat)
    requires cap > 0
    ensures Starved(Run(cap, StoppedAfterOne(e) + Rounds(e, n)))
    ensures OwnSteps(cap, StoppedAfterOne(e), Rounds(e, n), 0) == 2 * n
  {
    var stopped := StoppedAfterOne(e);
    if n == 0 {
      assert stopped + [] == stopped;
      StoppedAfterOneIsStarved(cap, e);
    } else {
      StopCanBeStarved(cap, e, n - 1);
      OneMoreRound(cap, stopped, Rounds(e, n - 1), e);
    }
  }

  lemma OneMoreRound(cap: nat, actions: seq<Action>, before: seq<Action>, e: LogEvent)
    requires cap > 0 && Starved(Run(cap, actions + before))
    ensures var more := before + [TakeTurn(0)] + [Enqueue(e)] + [Write(0)];
      && Starved(Run(cap, actions + more))
      && OwnSteps(cap, actions, more, 0) == OwnSteps(cap, actions, before, 0) + 2
  {
    var m2 := before + [TakeTurn(0)] + [Enqueue(e)];
    StarvedRound(cap, actions + before, e);
    assert actions + m2 == (actions + before) + [TakeTurn(0)] + [Enqueue(e)];
    assert actions + (m2 + [Write(0)]) == (actions + before) + [TakeTurn(0)] + [Enqueue(e)] + [Write(0)];
    TwoOwnSteps(cap, actions, before, e);
  }

  lemma TwoOwnSteps(cap: nat, actions: seq<Action>, before: seq<Action>, e: LogEvent)
    requires cap > 0
    requires var s := Run(cap, actions + before); s.workers != [] && OwnStep(s, 0, TakeTurn(0))
    requires var s := Run(cap, actions + (before + [TakeTurn(0)] + [Enqueue(e)]));
      s.workers != [] && OwnStep(s, 0, Write(0))
    ensures OwnSteps(cap, actions, before + [TakeTurn(0)] + [Enqueue(e)] + [Write(0)], 0)
         == OwnSteps(cap, actions, before, 0) + 2
  {
    var m1 := before + [TakeTurn(0)];
    var m2 := m1 + [Enqueue(e)];
    OneOwnStep(cap, actions, before, TakeTurn(0), 0);
    EnqueueIsNoOwnStep(cap, actions, m1, e, 0);
    OneOwnStep(cap, actions, m2, Write(0), 0);
  }

  lemma OneOwnStep(cap: nat, actions: seq<Action>, more: seq<Action>, a: Action, i: nat)
    requires cap > 0
    requires var s := Run(cap, actions + more); i < |s.workers| && OwnStep(s, i, a)
    ensures OwnSteps(cap, actions, more + [a], i) == OwnSteps(cap, actions, more, i) + 1
  {
    assert (more + [a])[..|more|] == more;
  }

  lemma EnqueueIsNoOwnStep(cap: nat, actions: seq<Action>, more: seq<Action>, e: LogEvent, i: nat)
    requires cap > 0
    ensures OwnSteps(cap, actions, more + [Enqueue(e)], i) == OwnSteps(cap, actions, more, i)
  {
    assert (more + [Enqueue(e)])[..|more|] == more;
  }

  // ----- The same regions in the manager -----

  /** The part of the worker list that `Manager.workers` holds. */
  function Registered(workers: seq<Worker>): seq<(Sink, Cursor)> {
    if workers == [] then []
    else
      var init, last := Registered(workers[..|workers| - 1]), workers[|workers| - 1];
      if last.registered then init + [(last.sink, last.cursor)] else init
  }

  lemma {:induction false} RegisteredAfterPush(r: Ring, before: seq<Worker>, after: seq<Worker>)
    requires |after| == |before| && forall i :: 0 <= i < |before| ==> after[i] == AfterPush(r, before[i])
    ensures Registered(after) == CursorsAfterPush(r, Registered(before))
  {
    if before == [] {
    } else {
      var n := |before| - 1;
      RegisteredAfterPush(r, before[..n], after[..n]);
      assert after[n] == AfterPush(r, before[n]);
    }
  }

  lemma {:induction false} NoneOfThemRegistered(workers: seq<Worker>)
    ensures (forall w :: w in workers ==> !w.registered) <==> Registered(workers) == []
  {
    if workers == [] {
    } else {
      var n := |workers| - 1;
      NoneOfThemRegistered(workers[..n]);
      assert workers == workers[..n] + [workers[n]];
    }
  }

  lemma {:induction false} RegisteredAfterStart(earlier: seq<Worker>, sinks: seq<Sink>, gen: nat, start: nat)
    requires Registered(earlier) == []
    ensures Registered(earlier + NewWorkers(sinks, gen, start)) == NewCursors(sinks, start)
  {
    if sinks == [] {
      assert earlier + NewWorkers(sinks, gen, start) == earlier;
    } else {
      var n := |sinks| - 1;
      var all := earlier + NewWorkers(sinks, gen, start);
      RegisteredAfterStart(earlier, sinks[..n], gen, start);
      assert all[..|all| - 1] == earlier + NewWorkers(sinks[..n], gen, start);
      assert all[|all| - 1] == NewWorker(sinks[n], gen, start);
    }
  }

  // The protocol's steps do to ring, stop flag and registered workers what the manager's methods
  // are proved to do to theirs.

  /** `Manager.Enqueue` */
  lemma EnqueueMatchesManager(s: State, e: LogEvent)
    requires |s.ring.buf| > 0
    ensures var s' := Step(s, Enqueue(e));
      && s'.ring == Pushed(s.ring, e) && s'.done == s.done
      && Registered(s'.workers) == CursorsAfterPush(s.ring, Registered(s.workers))
  {
    RegisteredAfterPush(s.ring, s.workers, Step(s, Enqueue(e)).workers);
  }

  /** `Manager.StopWorkersBegin` */
  lemma StopMatchesManager(s: State)
    requires |s.ring.buf| > 0 && !s.done
    ensures var s' := Step(s, BeginStop);
      s'.ring == s.ring && Registered(s'.workers) == [] && s'.done == (Registered(s.workers) != [])
  {
    NoneOfThemRegistered(s.workers);
    if !NoneRegistered(s) {
      NoneOfThemRegistered(Step(s, BeginStop).workers);
    }
  }

  /** `Manager.StartWorkers`, and `Manager.StopWorkersEnd` when nothing is started */
  lemma StartMatchesManager(s: State, hasConsole: bool, hasFile: bool, hasSyslog: bool)
    requires |s.ring.buf| > 0 && Registered(s.workers) == [] && AllExited(s)
    ensures Step(s, EndClose) == s.(done := false)
    ensures var s' := Step(s, Start(hasConsole, hasFile, hasSyslog));
      && s'.ring == s.ring && !s'.done
      && Registered(s'.workers) == NewCursors(SinksFor(hasConsole, hasFile, hasSyslog), s.ring.head)
  {
    StartEnabled(s, hasConsole, hasFile, hasSyslog);
    RegisteredAfterStart(s.workers, SinksFor(hasConsole, hasFile, hasSyslog), s.gen + 1, s.ring.head);
  }

  lemma StartEnabled(s: State, hasConsole: bool, hasFile: bool, hasSyslog: bool)
    requires |s.ring.buf| > 0 && Registered(s.workers) == [] && AllExited(s)
    ensures Step(s, EndClose) == s.(done := false)
    ensures Step(s, Start(hasConsole, hasFile, hasSyslog)) == StartState(s, SinksFor(hasConsole, hasFile, hasSyslog))
  {
    NoneOfThemRegistered(s.workers);
  }
}
