/** The message queue of a process (message.c): a ring of 32 slots that refines a bounded FIFO sequence. */
module MessageRing {
  import opened Bytes

  const MAX_MESSAGES := 32

  // ---- the FIFO a mailbox stands for ----

  datatype Fifo<M> = Fifo(queue: seq<M>, blocked: bool)

  /** queue_message: a full queue refuses, answering false for -1; an accepted message unblocks the owner. */
  function Queue<M>(f: Fifo<M>, msg: M): (bool, Fifo<M>)
  {
    if |f.queue| >= MAX_MESSAGES then (false, f) else (true, Fifo(f.queue + [msg], false))
  }

  /** receive_message: an empty queue answers None for -1, and marks the owner blocked unless MSG_NONBLOCK is set. */
  function Deliver<M>(f: Fifo<M>, nonblock: bool): (Option<M>, Fifo<M>)
  {
    if f.queue == [] then (None, if nonblock then f else f.(blocked := true))
    else (Some(f.queue[0]), f.(queue := f.queue[1..]))
  }

  // ---- runs, told by the calls and what they answer ----

  datatype Event<M> = Send(msg: M) | Receive(nonblock: bool)

  datatype Reply<M> = Sent(ok: bool) | Got(msg: Option<M>)

  function Call<M>(f: Fifo<M>, e: Event<M>): (Reply<M>, Fifo<M>)
  {
    match e
    case Send(msg) => (Sent(Queue(f, msg).0), Queue(f, msg).1)
    case Receive(nonblock) => (Got(Deliver(f, nonblock).0), Deliver(f, nonblock).1)
  }

  /** The answers of a run, one for each call, and the state after it. */
  function Run<M>(f: Fifo<M>, events: seq<Event<M>>): (r: (seq<Reply<M>>, Fifo<M>))
    ensures |r.0| == |events|
  {
    if events == [] then ([], f) else
      var n := |events| - 1;
      var (replies, g) := Run(f, events[..n]);
      var (reply, h) := Call(g, events[n]);
      (replies + [reply], h)
  }

  /** The messages of the sends that were answered with success, in order. */
  function Accepted<M>(events: seq<Event<M>>, replies: seq<Reply<M>>): seq<M>
    requires |events| == |replies|
  {
    if events == [] then [] else
      var n := |events| - 1;
      Accepted(events[..n], replies[..n]) + (if events[n].Send? && replies[n].Sent? && replies[n].ok then [events[n].msg] else [])
  }

  /** The messages that receives returned, in order. */
  function Returned<M>(replies: seq<Reply<M>>): seq<M>
  {
    if replies == [] then [] else
      var n := |replies| - 1;
      Returned(replies[..n]) + (match replies[n] case Got(Some(msg)) => [msg] case _ => [])
  }

  /** Has a blocking receive failed since the last send that succeeded? */
  predicate FailedSince<M>(events: seq<Event<M>>, replies: seq<Reply<M>>)
    requires |events| == |replies|
  {
    events != [] &&
    var n := |events| - 1;
    if events[n].Receive? && !events[n].nonblock && replies[n].Got? && replies[n].msg.None? then true
    else !(replies[n].Sent? && replies[n].ok) && FailedSince(events[..n], replies[..n])
  }

  /** Over every run from the empty mailbox: what receives returned, and then what is queued, are the messages sent
      with success, in order; the next send succeeds exactly when fewer than 32 of them wait; the next receive
      fails exactly when none waits, and else returns the oldest; and the owner is marked blocked exactly when a
      blocking receive has failed since the last send. */
  lemma {:induction false} RunIsFifo<M>(events: seq<Event<M>>, msg: M, nonblock: bool)
    ensures var (replies, f) := Run(Fifo([], false), events);
            var sent, returned := Accepted(events, replies), Returned(replies);
            var waiting := |sent| - |returned|;
            && returned + f.queue == sent && 0 <= waiting <= MAX_MESSAGES
            && (Queue(f, msg).0 <==> waiting < MAX_MESSAGES)
            && Deliver(f, nonblock).0 == (if waiting == 0 then None else Some(sent[|returned|]))
            && (f.blocked <==> FailedSince(events, replies))
            && (f.blocked ==> waiting == 0)
    decreases |events|
  {
    if events != [] {
      var n := |events| - 1;
      RunIsFifo(events[..n], msg, nonblock);
      var (replies, f) := Run(Fifo([], false), events);
      var g := Run(Fifo([], false), events[..n]).1;
      assert replies[..n] == Run(Fifo([], false), events[..n]).0;
      var sent, returned := Accepted(events[..n], replies[..n]), Returned(replies[..n]);
      match events[n] {
        case Send(m) =>
          assert returned + (g.queue + [m]) == returned + g.queue + [m];
        case Receive(_) =>
          assert g.queue != [] ==> returned + g.queue == returned + [g.queue[0]] + g.queue[1..];
      }
    }
  }

  // ---- the ring ----

  function Slot(head: nat, i: nat): (k: nat)
    ensures k < MAX_MESSAGES
  {
    (head + i) % MAX_MESSAGES
  }

  /** The messages in `count` slots from `head` on, wrapping around. */
  function Unrolled<M>(slots: seq<M>, head: nat, count: nat): (q: seq<M>)
    requires |slots| == MAX_MESSAGES
    ensures |q| == count
  {
    seq(count, i requires 0 <= i < count => slots[Slot(head, i)])
  }

  /** The slot behind a ring that is not full is none of those in use. */
  lemma {:induction false} FreeSlot(head: nat, i: nat, count: nat)
    requires head < MAX_MESSAGES && i < count < MAX_MESSAGES
    ensures Slot(head, i) != Slot(head, count)
  {
  }

  lemma {:induction false} StoreAppends<M>(slots: seq<M>, head: nat, count: nat, msg: M)
    requires |slots| == MAX_MESSAGES && head < MAX_MESSAGES && count < MAX_MESSAGES
    ensures Unrolled(slots[Slot(head, count) := msg], head, count + 1) == Unrolled(slots, head, count) + [msg]
    ensures (Slot(head, count) + 1) % MAX_MESSAGES == Slot(head, count + 1)
  {
    hide Slot;
    forall i | 0 <= i < count
      ensures slots[Slot(head, count) := msg][Slot(head, i)] == slots[Slot(head, i)]
    {
      FreeSlot(head, i, count);
    }
    NextSlot(head, count);
  }

  lemma {:induction false} NextSlot(head: nat, i: nat)
    requires head < MAX_MESSAGES
    ensures (Slot(head, i) + 1) % MAX_MESSAGES == Slot(head, i + 1)
    ensures Slot(head, i + 1) == Slot(Slot(head, 1), i)
    ensures Slot(head, 0) == head && Slot(head, 1) == (head + 1) % MAX_MESSAGES
  {
    Wrap(head + i);
    if head + 1 < MAX_MESSAGES {
      assert Slot(head, 1) == head + 1;
    } else {
      assert Slot(head, 1) == 0 && head + (i + 1) == MAX_MESSAGES + i;
    }
  }

  lemma {:induction false} Wrap(x: nat)
    ensures (x % MAX_MESSAGES + 1) % MAX_MESSAGES == (x + 1) % MAX_MESSAGES
  {
    var q, r := x / MAX_MESSAGES, x % MAX_MESSAGES;
    if r + 1 < MAX_MESSAGES {
      assert x + 1 == MAX_MESSAGES * q + (r + 1);
    } else {
      assert x + 1 == MAX_MESSAGES * (q + 1);
    }
  }

  lemma {:induction false} TakeDropsFirst<M>(slots: seq<M>, head: nat, count: nat)
    requires |slots| == MAX_MESSAGES && head < MAX_MESSAGES && 0 < count <= MAX_MESSAGES
    ensures Unrolled(slots, head, count) == [slots[head]] + Unrolled(slots, (head + 1) % MAX_MESSAGES, count - 1)
    ensures Slot((head + 1) % MAX_MESSAGES, count - 1) == Slot(head, count)
  {
    hide Slot;
    NextSlot(head, 0);
    var next := (head + 1) % MAX_MESSAGES;
    forall i | 0 <= i < count - 1
      ensures Slot(next, i) == Slot(head, i + 1)
    {
      NextSlot(head, i);
    }
    NextSlot(head, count - 1);
  }

  /** msg_queue and msg_blocked of struct process. */
  class Mailbox<M(0)> {
    const messages: array<M>
    var head: nat
    var tail: nat
    var count: nat
    var blocked: bool

    ghost function Contents(): (q: seq<M>)
      requires messages.Length == MAX_MESSAGES
      reads this, messages
    {
      Unrolled(messages[..], head, count)
    }

    ghost function View(): Fifo<M>
      requires messages.Length == MAX_MESSAGES
      reads this, messages
    {
      Fifo(Contents(), blocked)
    }

    ghost predicate Valid()
      reads this, messages
    {
      && messages.Length == MAX_MESSAGES
      && head < MAX_MESSAGES && count <= MAX_MESSAGES && tail == Slot(head, count)
      && (blocked ==> count == 0)
    }

    constructor ()
      ensures Valid() && fresh(messages) && View() == Fifo([], false)
    {
      messages := new M[MAX_MESSAGES];
      head, tail, count, blocked := 0, 0, 0, false;
    }

    /** False for -1, the queue being full. */
    method QueueMessage(msg: M) returns (ok: bool)
      requires Valid()
      modifies this, messages
      ensures Valid() && (ok, View()) == Queue(old(View()), msg)
    {
      if count >= MAX_MESSAGES {
        return false;
      }
      hide Slot, Unrolled;
      StoreAppends(messages[..], head, count, msg);
      messages[tail] := msg;
      tail := (tail + 1) % MAX_MESSAGES;
      count := count + 1;
      if blocked {
        blocked := false;
      }
      return true;
    }

    /** None for -1. The call of schedule for a blocking receive is a step of its own. */
    method ReceiveMessage(nonblock: bool) returns (msg: Option<M>)
      requires Valid()
      modifies this
      ensures Valid() && (msg, View()) == Deliver(old(View()), nonblock)
    {
      if count == 0 {
        if !nonblock {
          blocked := true;
        }
        return None;
      }
      hide Slot, Unrolled;
      TakeDropsFirst(messages[..], head, count);
      ghost var q := Contents();
      msg := Some(messages[head]);
      head := (head + 1) % MAX_MESSAGES;
      count := count - 1;
      assert q == [q[0]] + q[1..] && Contents() == q[1..];
    }
  }
}
