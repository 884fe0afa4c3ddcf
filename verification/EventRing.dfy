/**
 The bounded ring of log events (internal/logging/logging.go:88-140): as a value, with the
 functions that specify it, and as the buffer that is updated in place.
 */
module EventRing {
  import opened Wrappers

  /** A captured event. `seqNo` is the sequence number the ring assigned to it. */
  datatype LogEvent = LogEvent(seqNo: nat, level: int, msg: string)

  /** `head` is the next sequence to write, `tail` the oldest live one; `|buf|` is the capacity. */
  datatype Ring = Ring(buf: seq<LogEvent>, head: nat, tail: nat)

  const ZERO_EVENT := LogEvent(0, 0, "")

  function NewRing(capacity: nat): Ring {
    Ring(seq(capacity, _ => ZERO_EVENT), 0, 0)
  }

  predicate Evicts(r: Ring) {
    r.head - r.tail >= |r.buf|
  }

  function Pushed(r: Ring, e: LogEvent): Ring
    requires |r.buf| > 0
  {
    Ring(r.buf[r.head % |r.buf| := e.(seqNo := r.head)],
         r.head + 1,
         if Evicts(r) then r.tail + 1 else r.tail)
  }

  function Lookup(r: Ring, s: nat): Option<LogEvent>
    requires |r.buf| > 0
  {
    if s < r.tail || s >= r.head then None else Some(r.buf[s % |r.buf|])
  }

  function PushAll(r: Ring, events: seq<LogEvent>): (r': Ring)
    requires |r.buf| > 0
    ensures |r'.buf| == |r.buf|
  {
    if events == [] then r else Pushed(PushAll(r, events[..|events| - 1]), events[|events| - 1])
  }

  /** The unbounded log that a ring stands for: every event pushed so far, numbered from 0. */
  ghost predicate Refines(r: Ring, log: seq<LogEvent>) {
    && |r.buf| > 0
    && r.head == |log|
    && r.tail == OldestLive(|log|, |r.buf|)
    && (forall s :: 0 <= s < |log| ==> log[s].seqNo == s)
    && forall s :: r.tail <= s < r.head ==> r.buf[s % |r.buf|] == log[s]
  }

  /** The oldest sequence still live once `head` events were pushed into `cap` slots. */
  function OldestLive(head: nat, cap: nat): nat {
    if head <= cap then 0 else head - cap
  }

  /** Distinct sequences in a window no wider than the capacity use distinct slots. */
  lemma SlotsDoNotCollide(s: nat, t: nat, cap: nat)
    requires s < t < s + cap
    ensures s % cap != t % cap
  {
    if s % cap == t % cap {
      SameSlotIsWholeTurns(s, t, cap);
      NoPartialTurn(t / cap - s / cap, cap);
    }
  }

  lemma SameSlotIsWholeTurns(s: nat, t: nat, cap: nat)
    requires cap > 0 && s % cap == t % cap
    ensures t - s == (t / cap - s / cap) * cap
  {
    assert s == s / cap * cap + s % cap && t == t / cap * cap + t % cap;
  }

  lemma NoPartialTurn(k: int, cap: nat)
    ensures k * cap <= 0 || k * cap >= cap
  {
    if k >= 1 {
      assert k * cap == (k - 1) * cap + cap && (k - 1) * cap >= 0;
    } else {
      assert (-k) * cap >= 0;
    }
  }

  /** One push appends one event to the log and drops at most the oldest from the window. */
  lemma PushRefines(r: Ring, log: seq<LogEvent>, e: LogEvent)
    requires Refines(r, log)
    ensures Refines(Pushed(r, e), log + [e.(seqNo := |log|)])
    ensures Evicts(r) <==> |log| >= |r.buf|
  {
    var r' := Pushed(r, e);
    var log' := log + [e.(seqNo := |log|)];
    forall s | r'.tail <= s < r'.head
      ensures r'.buf[s % |r.buf|] == log'[s]
    {
      if s < r.head {
        SlotsDoNotCollide(s, r.head, |r.buf|);
      }
    }
  }

  /** A lookup succeeds exactly on the live window and returns the event pushed under that number. */
  lemma LookupRefines(r: Ring, log: seq<LogEvent>, s: nat)
    requires Refines(r, log)
    ensures Lookup(r, s) == if OldestLive(|log|, |r.buf|) <= s < |log| then Some(log[s]) else None
  {
  }

  /**
   The ring is an unbounded log seen through a window of the last `cap` events, whatever is
   pushed: the window width, which lookups succeed, and what they return.
   */
  lemma {:induction false} RingRefinesUnboundedLog(cap: nat, events: seq<LogEvent>)
    requires cap > 0
    ensures var r := PushAll(NewRing(cap), events);
      && r.head == |events|
      && r.head - r.tail == (if |events| <= cap then |events| else cap)
      && (forall s: nat :: Lookup(r, s) ==
            if r.tail <= s < |events| then Some(events[s].(seqNo := s)) else None)
  {
    PushAllRefines(cap, events);
    var log := seq(|events|, i requires 0 <= i < |events| => events[i].(seqNo := i));
    forall s: nat {
      LookupRefines(PushAll(NewRing(cap), events), log, s);
    }
  }

  lemma {:induction false} PushAllRefines(cap: nat, events: seq<LogEvent>)
    requires cap > 0
    ensures Refines(PushAll(NewRing(cap), events),
                    seq(|events|, i requires 0 <= i < |events| => events[i].(seqNo := i)))
  {
    if events == [] {
    } else {
      var init, last := events[..|events| - 1], events[|events| - 1];
      var log := seq(|init|, i requires 0 <= i < |init| => init[i].(seqNo := i));
      PushAllRefines(cap, init);
      PushRefines(PushAll(NewRing(cap), init), log, last);
      assert log + [last.(seqNo := |log|)]
          == seq(|events|, i requires 0 <= i < |events| => events[i].(seqNo := i));
    }
  }

  /** The circular buffer itself. Callers hold the manager's mutex. */
  class EventBuffer {
    const buf: array<LogEvent>
    var head: nat
    var tail: nat

    ghost function Model(): Ring
      reads this, buf
    {
      Ring(buf[..], head, tail)
    }

    constructor (capacity: nat)
      ensures Model() == NewRing(capacity)
      ensures buf.Length == capacity && fresh(buf)
    {
      buf := new LogEvent[capacity](_ => ZERO_EVENT);
      head, tail := 0, 0;
      new;
      assert buf[..] == NewRing(capacity).buf;
    }

    method Push(e: LogEvent) returns (seqNo: nat, evicted: bool, evictedSeq: nat)
      requires buf.Length > 0
      modifies this, buf
      ensures Model() == Pushed(old(Model()), e)
      ensures seqNo == old(head)
      ensures evicted == Evicts(old(Model()))
      ensures evictedSeq == if evicted then old(tail) else 0
    {
      seqNo := head;
      evictedSeq := 0;
      var idx := seqNo % buf.Length;
      evicted := head - tail >= buf.Length;
      if evicted {
        evictedSeq := tail;
        tail := tail + 1;
      }
      buf[idx] := e.(seqNo := seqNo);
      head := head + 1;
    }

    method Get(s: nat) returns (r: Option<LogEvent>)
      requires buf.Length > 0
      ensures r == Lookup(Model(), s)
    {
      if s < tail || s >= head {
        return None;
      }
      return Some(buf[s % buf.Length]);
    }
  }
}
