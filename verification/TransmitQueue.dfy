/** The queue of outgoing datagrams of Udp_Client (src/UdpClient.cpp): one asynchronous send at a
    time, started by `send` on an empty queue or by the completion of the one before. */
module TransmitQueues {
  import opened Bytes

  type Packet = seq<Byte>

  /** `outstanding` are the sends handed to the socket and not yet called back. `submitted` and
      `popped` are history. */
  datatype Queue = Queue(queue: seq<Packet>, outstanding: seq<Packet>, submitted: seq<Packet>, popped: seq<Packet>)

  datatype Event = Send(packet: Packet) | Completed(error: bool) | Aborted

  function Start(): Queue { Queue([], [], [], []) }

  /** A callback can only come for a send that was started. */
  predicate Possible(q: Queue, e: Event) { e.Send? || (q.outstanding != [] && (e.Completed? ==> q.queue != [])) }

  function Transmit(q: Queue): Queue
    requires q.queue != []
  {
    q.(outstanding := q.outstanding + [q.queue[0]])
  }

  function Handle(q: Queue, e: Event): Queue
    requires Possible(q, e)
  {
    match e
    case Send(packet) =>
      var q1 := q.(queue := q.queue + [packet], submitted := q.submitted + [packet]);
      if q.queue == [] then Transmit(q1) else q1
    case Completed(error) =>
      var q1 := q.(queue := q.queue[1..], outstanding := q.outstanding[1..], popped := q.popped + [q.queue[0]]);
      if !error && q1.queue != [] then Transmit(q1) else q1
    case Aborted => q.(outstanding := q.outstanding[1..]) // the callback does nothing
  }

  class UdpClient {
    var txQueue: seq<Packet>
    var outstanding: seq<Packet>
    ghost var submitted: seq<Packet>
    ghost var popped: seq<Packet>

    ghost function Value(): Queue
      reads this
    {
      Queue(txQueue, outstanding, submitted, popped)
    }

    constructor ()
      ensures Value() == Start()
    {
      txQueue, outstanding, submitted, popped := [], [], [], [];
    }

    method SendPacket(packet: Packet)
      modifies this
      ensures Value() == Handle(old(Value()), Send(packet))
    {
      var queueEmpty := txQueue == [];
      txQueue, submitted := txQueue + [packet], submitted + [packet];
      if queueEmpty { TransmitFront(); }
    }

    method TransmitFront()
      requires txQueue != []
      modifies this`outstanding
      ensures Value() == Transmit(old(Value()))
    {
      outstanding := outstanding + [txQueue[0]];
    }

    /** write_callback and write_handler. */
    method WriteCallback(e: Event)
      requires !e.Send? && Possible(Value(), e)
      modifies this
      ensures Value() == Handle(old(Value()), e)
    {
      outstanding := outstanding[1..];
      if !e.Aborted? {
        popped := popped + [txQueue[0]];
        txQueue := txQueue[1..];
        if !e.error && txQueue != [] { TransmitFront(); }
      }
    }
  }

  ghost predicate Run(trace: seq<Queue>, events: seq<Event>) {
    && |trace| == |events| + 1
    && trace[0] == Start()
    && forall i: nat | i < |events| :: Possible(trace[i], events[i]) && trace[i + 1] == Handle(trace[i], events[i])
  }

  /** Packets are waiting and nothing is being sent. */
  predicate Stalled(q: Queue) { q.queue != [] && q.outstanding == [] }

  /** The callback that stops the queue: an abort, or an error with packets left behind. */
  predicate Stalls(q: Queue, e: Event) { e.Aborted? || (e.Completed? && e.error && |q.queue| >= 2) }

  /** Nothing is lost, doubled or reordered, and the send in progress is of the front packet. */
  ghost predicate InOrder(q: Queue) {
    && q.submitted == q.popped + q.queue
    && (q.outstanding == [] || (q.queue != [] && q.outstanding == [q.queue[0]]))
  }

  lemma {:induction false} QueueInOrder(trace: seq<Queue>, events: seq<Event>, i: nat)
    requires Run(trace, events) && i < |trace|
    ensures InOrder(trace[i])
  {
    if i == 0 {
    } else {
      QueueInOrder(trace, events, i - 1);
      var q, e := trace[i - 1], events[i - 1];
      assert trace[i] == Handle(q, e);
      assert q.queue != [] ==> q.popped + q.queue == q.popped + [q.queue[0]] + q.queue[1..];
    }
  }

  /** The queue is stalled exactly when some earlier callback stalled it: nothing else can, and once
      stalled it stays so, because `send` transmits into an empty queue only. */
  lemma {:induction false} StalledIff(trace: seq<Queue>, events: seq<Event>, i: nat)
    requires Run(trace, events) && i < |trace|
    ensures Stalled(trace[i]) <==> exists j: nat :: j < i && Stalls(trace[j], events[j])
  {
    if i == 0 {
    } else {
      StalledIff(trace, events, i - 1);
      QueueInOrder(trace, events, i - 1);
      assert trace[i] == Handle(trace[i - 1], events[i - 1]);
      if j: nat :| j < i && Stalls(trace[j], events[j]) {
        if j < i - 1 { assert Stalled(trace[i - 1]); }
      }
    }
  }

  /** A stall: two packets, and the sending of the first fails. */
  lemma ErrorStalls(a: Packet, b: Packet) returns (trace: seq<Queue>, events: seq<Event>)
    ensures Run(trace, events) && events == [Send(a), Send(b), Completed(true)]
    ensures Stalled(trace[3]) && trace[3].queue == [b]
  {
    events := [Send(a), Send(b), Completed(true)];
    var q1 := Handle(Start(), events[0]);
    var q2 := Handle(q1, events[1]);
    trace := [Start(), q1, q2, Handle(q2, events[2])];
  }

  /** Without errors and aborts a packet is being sent exactly while one is queued. */
  lemma SendingIffQueued(trace: seq<Queue>, events: seq<Event>, i: nat)
    requires Run(trace, events) && i < |trace|
    requires forall j: nat | j < i :: events[j].Send? || (events[j].Completed? && !events[j].error)
    ensures trace[i].outstanding == (if trace[i].queue == [] then [] else [trace[i].queue[0]])
  {
    QueueInOrder(trace, events, i);
    StalledIff(trace, events, i);
  }
}
