/**
 The scheduler's bounded work queue under every interleaving of cron triggers, its one worker
 and `Stop` (internal/scheduler/scheduler.go:38-55, 75-79, 115-122).
 */
module WorkQueue {

  const QUEUE_CAPACITY := 256

  /** Where the worker is: its main loop, draining after the stop signal, or returned. */
  datatype Phase = Looping | Draining | Exited

  /** How far `Stop` got: not called, cron told to stop, or the stop channel closed. */
  datatype Stopping = NotStopped | CronStopped | Closed

  /**
   `firing` holds the triggers that cron has started and that have not reached the queue yet,
   `running` the job in progress, if any; `accepted` and `dropped` record what became of triggers.
   */
  datatype State = State(
    firing: seq<int>, queue: seq<int>, running: seq<int>, executed: seq<int>, phase: Phase, stopping: Stopping,
    accepted: seq<int>, dropped: seq<int>, fired: nat)

  datatype Action =
    | Fire(job: int)
    | Offer(k: nat)
    | Take
    | Finish
    | SeeStop
    | SeeEmpty
    | StopCron
    | CloseStopQ

  const INITIAL := State([], [], [], [], Looping, NotStopped, [], [], 0)

  /**
   One step; an action that is not enabled changes nothing. With the queue non-empty and the
   stop channel closed the main loop may take either branch, as `select` chooses freely.
   */
  function Step(s: State, a: Action): State {
    match a
    case Fire(job) =>
      if s.stopping.NotStopped? then s.(firing := s.firing + [job], fired := s.fired + 1) else s
    case Offer(k) =>
      // Triggers run concurrently, so any one of them may be next.
      if k >= |s.firing| then s
      else
        var job, s' := s.firing[k], s.(firing := s.firing[..k] + s.firing[k + 1..]);
        if |s.queue| < QUEUE_CAPACITY
        then s'.(queue := s.queue + [job], accepted := s.accepted + [job])
        else s'.(dropped := s.dropped + [job])
    case Take =>
      if s.phase.Exited? || s.running != [] || s.queue == [] then s
      else s.(running := [s.queue[0]], queue := s.queue[1..])
    case Finish =>
      s.(running := [], executed := s.executed + s.running)
    case SeeStop =>
      if s.phase.Looping? && s.running == [] && s.stopping.Closed? then s.(phase := Draining) else s
    case SeeEmpty =>
      if s.phase.Draining? && s.running == [] && s.queue == [] then s.(phase := Exited) else s
    case StopCron =>
      if s.stopping.NotStopped? then s.(stopping := CronStopped) else s
    case CloseStopQ =>
      // Cron's stop is over once the triggers it had started are done.
      if s.stopping.CronStopped? && s.firing == [] then s.(stopping := Closed) else s
  }

  function Reach(actions: seq<Action>): State {
    if actions == [] then INITIAL
    else Step(Reach(actions[..|actions| - 1]), actions[|actions| - 1])
  }

  ghost predicate Inv(s: State) {
    && s.accepted == s.executed + s.running + s.queue
    && |s.queue| <= QUEUE_CAPACITY
    && |s.running| <= 1
    && |s.accepted| + |s.dropped| + |s.firing| == s.fired
    && (s.stopping.Closed? ==> s.firing == [])
    && (!s.phase.Looping? ==> s.stopping.Closed?)
    && (s.phase.Exited? ==> s.running == [] && s.queue == [])
  }

  lemma OfferKeepsInv(s: State, k: nat)
    requires Inv(s) && k < |s.firing|
    ensures Inv(Step(s, Offer(k)))
  {
    assert s.executed + s.running + (s.queue + [s.firing[k]]) == s.executed + s.running + s.queue + [s.firing[k]];
  }

  lemma WorkerKeepsInv(s: State, a: Action)
    requires Inv(s) && (a.Take? || a.Finish?)
    ensures Inv(Step(s, a))
  {
    var s' := Step(s, a);
    if s' != s {
      assert s.queue == [] || s.queue == [s.queue[0]] + s.queue[1..];
      assert s.executed + s.running + s.queue == s'.executed + s'.running + s'.queue;
    }
  }

  lemma StepKeepsInv(s: State, a: Action)
    requires Inv(s)
    ensures Inv(Step(s, a))
  {
    match a
    case Offer(k) =>
      if k < |s.firing| {
        OfferKeepsInv(s, k);
      }
    case Take => WorkerKeepsInv(s, a);
    case Finish => WorkerKeepsInv(s, a);
    case _ =>
  }

  lemma {:induction false} ReachKeepsInv(actions: seq<Action>)
    ensures Inv(Reach(actions))
  {
    if actions == [] {
    } else {
      ReachKeepsInv(actions[..|actions| - 1]);
      StepKeepsInv(Reach(actions[..|actions| - 1]), actions[|actions| - 1]);
    }
  }

  /**
   Conservation: every trigger was accepted or dropped or is on its way to the queue, and the
   accepted ones are, in order of acceptance, those executed, the one in progress and those queued.
   */
  lemma AcceptedTriggersAreConserved(actions: seq<Action>)
    ensures var s := Reach(actions);
      && s.accepted == s.executed + s.running + s.queue
      && |s.queue| <= QUEUE_CAPACITY && |s.running| <= 1
      && s.fired == |s.executed| + |s.running| + |s.queue| + |s.dropped| + |s.firing|
  {
    ReachKeepsInv(actions);
  }

  /** A trigger is lost exactly if 256 accepted ones still wait to be taken. */
  lemma DroppedIffQueueFull(actions: seq<Action>, k: nat)
    requires k < |Reach(actions).firing|
    ensures var s, s' := Reach(actions), Reach(actions + [Offer(k)]);
      if |s.accepted| - |s.executed| - |s.running| == 256
      then s'.accepted == s.accepted && s'.dropped == s.dropped + [s.firing[k]]
      else s'.accepted == s.accepted + [s.firing[k]] && s'.dropped == s.dropped
  {
    ReachKeepsInv(actions);
    assert (actions + [Offer(k)])[..|actions|] == actions;
  }

  /** Executions happen in the order of acceptance. */
  lemma ExecutedInOrder(actions: seq<Action>)
    ensures Reach(actions).executed <= Reach(actions).accepted
  {
    ReachKeepsInv(actions);
  }

  /**
   The worker returns only after executing every trigger that was ever accepted, when no trigger
   is left that could still be.
   */
  lemma ExitMeansAllExecuted(actions: seq<Action>)
    requires Reach(actions).phase.Exited?
    ensures Reach(actions).executed == Reach(actions).accepted && Reach(actions).firing == []
  {
    ReachKeepsInv(actions);
    var s := Reach(actions);
    assert s.executed + [] + [] == s.executed;
  }

  /** What a stopped worker has left to do. */
  function Remaining(s: State): nat {
    (match s.phase case Looping => 2 case Draining => 1 case Exited => 0) + 2 * |s.queue| + |s.running|
  }

  /** Once the stop channel is closed nothing adds work, and the worker can always move on. */
  lemma StopDrains(actions: seq<Action>)
    requires Reach(actions).stopping.Closed? && !Reach(actions).phase.Exited?
    ensures var s := Reach(actions);
      && (forall a :: Remaining(Step(s, a)) <= Remaining(s))
      && exists a :: Remaining(Step(s, a)) < Remaining(s)
  {
    ReachKeepsInv(actions);
    var s := Reach(actions);
    var a := if s.running != [] then Finish else if s.queue != [] then Take
             else if s.phase.Looping? then SeeStop else SeeEmpty;
    assert Remaining(Step(s, a)) < Remaining(s);
  }

  /** Stopping gets through: cron fires no more, what it fired reaches the queue, then the channel closes. */
  lemma StopGetsThrough(actions: seq<Action>)
    ensures Reach(actions).stopping.NotStopped? ==> Reach(actions + [StopCron]).stopping.CronStopped?
    ensures !Reach(actions).stopping.NotStopped? ==> forall job :: Reach(actions + [Fire(job)]) == Reach(actions)
    ensures Reach(actions).firing != [] ==> |Reach(actions + [Offer(0)]).firing| < |Reach(actions).firing|
    ensures Reach(actions).stopping.CronStopped? && Reach(actions).firing == [] ==>
      Reach(actions + [CloseStopQ]).stopping.Closed?
  {
    forall a ensures Reach(actions + [a]) == Step(Reach(actions), a) {
      assert (actions + [a])[..|actions|] == actions;
    }
  }

  /** Until cron is stopped every trigger is fired, and the next job of a free worker is the oldest accepted one. */
  lemma TriggersAreTaken(actions: seq<Action>, job: int)
    ensures Reach(actions).stopping.NotStopped? ==> Reach(actions + [Fire(job)]).firing == Reach(actions).firing + [job]
    ensures var s := Reach(actions);
      !s.phase.Exited? && s.running == [] && |s.executed| < |s.accepted| ==>
        Reach(actions + [Take]).running == [s.accepted[|s.executed|]]
  {
    ReachKeepsInv(actions);
    assert (actions + [Fire(job)])[..|actions|] == actions && (actions + [Take])[..|actions|] == actions;
  }
}
