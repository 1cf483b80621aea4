/** The simulator's thread-safe queue. Every critical section of a call, from taking
    the mutex to releasing it or waiting, is one step; any schedule of any number
    of threads is a sequence of such steps. */
module SimQueue {
  // ----- The bounded FIFO that the queue is for -----

  /** A thread inside `xQueueGenericSend` or `xQueueReceive` that waits for a condition. */
  datatype Pending<T> = Sending(item: T) | Receiving

  datatype Event<T> =
    | Send(thread: nat, item: T, ticks: nat)
    | Receive(thread: nat, ticks: nat)
    | Wake(thread: nat)      // signalled, or woken for no reason
    | TimeOut(thread: nat)

  datatype Outcome<T> = Sent(item: T) | SendFailed | Received(item: T) | ReceiveFailed | Blocked | Ignored

  datatype Fifo<T> = Fifo(items: seq<T>, waiting: map<nat, Pending<T>>)

  function TrySend<T>(capacity: nat, s: Fifo<T>, thread: nat, item: T, mayWait: bool): (Fifo<T>, Outcome<T>) {
    if |s.items| < capacity then (Fifo(s.items + [item], s.waiting - {thread}), Sent(item))
    else if mayWait then (s.(waiting := s.waiting[thread := Sending(item)]), Blocked)
    else (s, SendFailed)
  }

  function TryReceive<T>(s: Fifo<T>, thread: nat, mayWait: bool): (Fifo<T>, Outcome<T>) {
    if s.items != [] then (Fifo(s.items[1..], s.waiting - {thread}), Received(s.items[0]))
    else if mayWait then (s.(waiting := s.waiting[thread := Receiving]), Blocked)
    else (s, ReceiveFailed)
  }

  /** One step of one thread on a FIFO of at most `capacity` items. */
  function Step<T>(capacity: nat, s: Fifo<T>, e: Event<T>): (Fifo<T>, Outcome<T>) {
    match e
    case Send(thread, item, ticks) =>
      if thread in s.waiting then (s, Ignored) else TrySend(capacity, s, thread, item, ticks != 0)
    case Receive(thread, ticks) =>
      if thread in s.waiting then (s, Ignored) else TryReceive(s, thread, ticks != 0)
    case Wake(thread) =>
      if thread !in s.waiting then (s, Ignored)
      else
        (match s.waiting[thread]
         case Sending(item) => TrySend(capacity, s, thread, item, true)
         case Receiving => TryReceive(s, thread, true))
    case TimeOut(thread) =>
      if thread !in s.waiting then (s, Ignored)
      else (Fifo(s.items, s.waiting - {thread}), if s.waiting[thread].Sending? then SendFailed else ReceiveFailed)
  }

  function Run<T>(capacity: nat, s: Fifo<T>, events: seq<Event<T>>): (Fifo<T>, seq<Outcome<T>>) {
    if events == [] then (s, [])
    else
      var n := |events| - 1;
      var (t, outcomes) := Run(capacity, s, events[..n]);
      var (u, outcome) := Step(capacity, t, events[n]);
      (u, outcomes + [outcome])
  }

  /** The items that sends accepted, in the order in which they did. */
  function Accepted<T>(outcomes: seq<Outcome<T>>): seq<T> {
    if outcomes == [] then []
    else
      var n := |outcomes| - 1;
      Accepted(outcomes[..n]) + (if outcomes[n].Sent? then [outcomes[n].item] else [])
  }

  function Delivered<T>(outcomes: seq<Outcome<T>>): seq<T> {
    if outcomes == [] then []
    else
      var n := |outcomes| - 1;
      Delivered(outcomes[..n]) + (if outcomes[n].Received? then [outcomes[n].item] else [])
  }

  /** One step keeps the balance of what came in, what went out and what is inside. */
  lemma StepConserves<T>(capacity: nat, s: Fifo<T>, e: Event<T>)
    requires |s.items| <= capacity
    ensures var (t, outcome) := Step(capacity, s, e);
            && |t.items| <= capacity
            && (outcome.Sent? ==> t.items == s.items + [outcome.item])
            && (outcome.Received? ==> s.items == [outcome.item] + t.items)
            && (!outcome.Sent? && !outcome.Received? ==> t.items == s.items)
  {
  }

  /** A call makes progress whenever it can: a send with room is accepted, a receive
      with an item delivers the first one. A call that can do neither waits, if it has
      time, or fails, and no step touches another thread's wait. */
  lemma StepProgress<T>(capacity: nat, s: Fifo<T>, e: Event<T>)
    ensures var (t, outcome) := Step(capacity, s, e);
            && (e.Send? && e.thread !in s.waiting ==>
                  if |s.items| < capacity then outcome == Sent(e.item) && e.thread !in t.waiting
                  else if e.ticks == 0 then outcome == SendFailed && t == s
                  else outcome == Blocked && t.waiting == s.waiting[e.thread := Sending(e.item)])
            && (e.Receive? && e.thread !in s.waiting ==>
                  if |s.items| > 0 then outcome == Received(s.items[0]) && e.thread !in t.waiting
                  else if e.ticks == 0 then outcome == ReceiveFailed && t == s
                  else outcome == Blocked && t.waiting == s.waiting[e.thread := Receiving])
            && (e.Wake? && e.thread in s.waiting ==>
                  match s.waiting[e.thread]
                  case Sending(item) =>
                    (if |s.items| < capacity then outcome == Sent(item) else outcome == Blocked && t == s)
                  case Receiving =>
                    (if |s.items| > 0 then outcome == Received(s.items[0]) else outcome == Blocked && t == s))
            && (e.TimeOut? && e.thread in s.waiting ==>
                  t.waiting == s.waiting - {e.thread}
                  && outcome == if s.waiting[e.thread].Sending? then SendFailed else ReceiveFailed)
            && t.waiting - {e.thread} == s.waiting - {e.thread}
  {
    if e.Wake? && e.thread in s.waiting {
      assert s.waiting[e.thread := s.waiting[e.thread]] == s.waiting;
    }
  }

  /** In every schedule the items delivered are, in order, the first of the items
      accepted, and the rest is what the queue holds: none is lost, invented,
      repeated or overtaken, and there are never more than fit. */
  lemma {:induction false} RunConserves<T>(capacity: nat, events: seq<Event<T>>)
    ensures var (s, outcomes) := Run(capacity, Fifo([], map[]), events);
            Accepted(outcomes) == Delivered(outcomes) + s.items && |s.items| <= capacity && |outcomes| == |events|
  {
    hide Step;
    if events != [] {
      var n := |events| - 1;
      RunConserves(capacity, events[..n]);
      var (s, outcomes) := Run(capacity, Fifo([], map[]), events[..n]);
      StepConserves(capacity, s, events[n]);
      var (t, outcome) := Step(capacity, s, events[n]);
      assert (outcomes + [outcome])[..n] == outcomes;
    }
  }

  // ----- The ring buffer -----

  /** The slot `n` places after `from`. */
  function Slot(from: nat, n: nat, capacity: nat): nat {
    if from + n < capacity then from + n else from + n - capacity
  }

  lemma Wrap(index: nat, capacity: nat)
    requires index < capacity
    ensures (index + 1) % capacity == Slot(index, 1, capacity)
  {
    if index + 1 < capacity {
      assert (index + 1) % capacity == index + 1;
    } else {
      assert (index + 1) % capacity == 0;
    }
  }

  /** The `count` items from slot `tail` on, around the ring. */
  function Ring<T>(slots: seq<T>, tail: nat, count: nat): (items: seq<T>)
    requires count <= |slots| && (count > 0 ==> tail < |slots|)
    ensures |items| == count
    ensures forall i :: 0 <= i < count ==> items[i] == slots[Slot(tail, i, |slots|)]
  {
    seq(count, i requires 0 <= i < count => slots[Slot(tail, i, |slots|)])
  }

  lemma RingPut<T>(slots: seq<T>, tail: nat, count: nat, item: T)
    requires count < |slots| && tail < |slots|
    ensures Ring(slots[Slot(tail, count, |slots|) := item], tail, count + 1) == Ring(slots, tail, count) + [item]
  {
  }

  lemma RingTake<T>(slots: seq<T>, tail: nat, count: nat)
    requires 0 < count <= |slots| && tail < |slots|
    ensures Ring(slots, tail, count)[0] == slots[tail]
    ensures Ring(slots, Slot(tail, 1, |slots|), count - 1) == Ring(slots, tail, count)[1..]
  {
  }

  class Queue<T(0)> {
    const capacity: nat
    const buf: array<T>
    var head: nat
    var tail: nat
    var count: nat
    var waiting: map<nat, Pending<T>>

    ghost predicate Valid()
      reads this
    {
      && buf.Length == capacity
      && count <= capacity
      && (if capacity == 0 then head == tail == 0
          else tail < capacity && head == Slot(tail, count, capacity) < capacity)
    }

    /** The FIFO that the ring stands for, with the threads that wait. */
    ghost function Abstract(): (s: Fifo<T>)
      reads this, buf
      requires Valid()
    {
      Fifo(Ring(buf[..], tail, count), waiting)
    }

    /** `xQueueGenericCreate`. */
    constructor (length: nat)
      ensures Valid() && capacity == length && Abstract() == Fifo([], map[])
      ensures fresh(buf)
    {
      capacity := length;
      buf := new T[length];
      head, tail, count := 0, 0, 0;
      waiting := map[];
    }

    /** The critical section of `xQueueGenericSend` that begins with the test for room. */
    method SendSection(thread: nat, item: T, mayWait: bool) returns (outcome: Outcome<T>)
      requires Valid()
      modifies this, buf
      ensures Valid()
      ensures (Abstract(), outcome) == TrySend(capacity, old(Abstract()), thread, item, mayWait)
    {
      if count >= capacity {
        if !mayWait {
          return SendFailed;
        }
        waiting := waiting[thread := Sending(item)];
        return Blocked;
      }
      Wrap(head, capacity);
      RingPut(buf[..], tail, count, item);
      buf[head] := item;
      head := (head + 1) % capacity;
      count := count + 1;
      waiting := waiting - {thread};
      return Sent(item);
    }

    /** The critical section of `xQueueReceive` that begins with the test for an item. */
    method ReceiveSection(thread: nat, mayWait: bool) returns (outcome: Outcome<T>)
      requires Valid()
      modifies this
      ensures Valid()
      ensures (Abstract(), outcome) == TryReceive(old(Abstract()), thread, mayWait)
    {
      if count == 0 {
        if !mayWait {
          return ReceiveFailed;
        }
        waiting := waiting[thread := Receiving];
        return Blocked;
      }
      Wrap(tail, capacity);
      RingTake(buf[..], tail, count);
      outcome := Received(buf[tail]);
      tail := (tail + 1) % capacity;
      count := count - 1;
      waiting := waiting - {thread};
    }

    /** One step of one thread: the ring does what the bounded FIFO does. */
    method Advance(e: Event<T>) returns (outcome: Outcome<T>)
      requires Valid()
      modifies this, buf
      ensures Valid()
      ensures (Abstract(), outcome) == Step(capacity, old(Abstract()), e)
    {
      hide TrySend, TryReceive, Ring;
      match e {
        case Send(thread, item, ticks) =>
          if thread in waiting {
            return Ignored;
          }
          outcome := SendSection(thread, item, ticks != 0);
        case Receive(thread, ticks) =>
          if thread in waiting {
            return Ignored;
          }
          outcome := ReceiveSection(thread, ticks != 0);
        case Wake(thread) =>
          if thread !in waiting {
            return Ignored;
          }
          match waiting[thread] {
            case Sending(item) => outcome := SendSection(thread, item, true);
            case Receiving => outcome := ReceiveSection(thread, true);
          }
        case TimeOut(thread) =>
          if thread !in waiting {
            return Ignored;
          }
          outcome := if waiting[thread].Sending? then SendFailed else ReceiveFailed;
          waiting := waiting - {thread};
      }
    }
  }

  /** Any schedule, on a new queue of any capacity: what comes out of the queue is what
      went in, in order, up to the items still inside. */
  method Schedule<T(0)>(length: nat, events: seq<Event<T>>) returns (q: Queue<T>, outcomes: seq<Outcome<T>>)
    ensures q.Valid() && (q.Abstract(), outcomes) == Run(length, Fifo([], map[]), events)
    ensures Accepted(outcomes) == Delivered(outcomes) + q.Abstract().items
  {
    hide Step;
    q := new Queue(length);
    outcomes := [];
    for i := 0 to |events|
      invariant q.Valid() && q.capacity == length && fresh(q) && fresh(q.buf)
      invariant (q.Abstract(), outcomes) == Run(length, Fifo([], map[]), events[..i])
    {
      assert events[..i + 1][..i] == events[..i];
      var outcome := q.Advance(events[i]);
      outcomes := outcomes + [outcome];
    }
    assert events[..|events|] == events;
    RunConserves(length, events);
  }
}
