/**
 The hairpin queue of `userspace/lwip/port/aknet_glue.c`: a ring of 16 slots with 32-bit counters
 that wrap, filled by `aknet_output` and emptied by `aknet_hairpin_drain`, whose deliveries may
 call back into both.
 */
module Hairpin {

  const HQ_SIZE: nat := 16
  const U32: nat := 0x1_0000_0000

  type Packet = nat

  /** What a delivered packet's processing does to the queue: `Send(p, room)` hairpins another
      packet, `room` telling whether `pbuf_alloc` succeeds; `Drain` is a stray nested drain. */
  datatype Act = Send(packet: Packet, room: bool) | Drain

  // ---------------------------------------------------------------------------
  // The specification: a bounded FIFO
  // ---------------------------------------------------------------------------

  /** Waiting packets, the packet that has left the ring and is not yet handed to `ip4_input`,
      the packets handed to it so far, and the packets accepted so far. */
  datatype Queue = Queue(waiting: seq<Packet>, flight: seq<Packet>, delivered: seq<Packet>, accepted: seq<Packet>)

  function Accept(q: Queue, p: Packet, room: bool): Queue
  {
    if |q.waiting| >= HQ_SIZE || !room then q
    else q.(waiting := q.waiting + [p], accepted := q.accepted + [p])
  }

  /** The callbacks of one delivery; a nested drain does nothing. */
  function Callback(q: Queue, acts: seq<Act>): Queue
    decreases |acts|
  {
    if acts == [] then q
    else Callback(if acts[0].Send? then Accept(q, acts[0].packet, acts[0].room) else q, acts[1..])
  }

  /** The oldest packet leaves the ring. */
  function Take(q: Queue): Queue
    requires q.waiting != []
  {
    q.(waiting := q.waiting[1..], flight := q.flight + [q.waiting[0]])
  }

  /** `ip4_input` is entered with a packet. */
  function Enter(q: Queue, p: Packet): Queue
  {
    q.(flight := if q.flight == [p] then [] else q.flight, delivered := q.delivered + [p])
  }

  function Deliver(q: Queue, acts: seq<Act>): Queue
    requires q.waiting != []
  {
    Callback(Enter(Take(q), q.waiting[0]), acts)
  }

  /** Delivery after delivery; the n-th one's processing acts as `script[n]` says, and beyond
      the script it does nothing. */
  function DrainAll(q: Queue, script: seq<seq<Act>>): Queue
    decreases |script|, |q.waiting|
  {
    if q.waiting == [] then q
    else if script == [] then
      CallbackNone(Enter(Take(q), q.waiting[0]));
      DrainAll(Deliver(q, []), [])
    else DrainAll(Deliver(q, script[0]), script[1..])
  }

  lemma CallbackNone(q: Queue)
    ensures Callback(q, []) == q
  {
  }

  /** Nothing is lost, duplicated or reordered. */
  ghost predicate Fifo(q: Queue)
  {
    q.accepted == q.delivered + q.flight + q.waiting && |q.flight| <= 1 && |q.waiting| <= HQ_SIZE
  }

  /** No packet is between the ring and `ip4_input`. */
  ghost predicate AtRest(q: Queue)
  {
    Fifo(q) && q.flight == []
  }

  lemma AcceptFifo(q: Queue, p: Packet, room: bool)
    requires Fifo(q)
    ensures Fifo(Accept(q, p, room))
    ensures q.delivered == Accept(q, p, room).delivered && q.accepted <= Accept(q, p, room).accepted
  {
    assert q.delivered + q.flight + q.waiting + [p] == q.delivered + q.flight + (q.waiting + [p]);
  }

  lemma {:induction false} CallbackFifo(q: Queue, acts: seq<Act>)
    requires Fifo(q)
    ensures Fifo(Callback(q, acts))
    ensures Callback(q, acts).delivered == q.delivered && q.accepted <= Callback(q, acts).accepted
    ensures Callback(q, acts).flight == q.flight
    decreases |acts|
  {
    if acts != [] {
      if acts[0].Send? {
        AcceptFifo(q, acts[0].packet, acts[0].room);
        CallbackFifo(Accept(q, acts[0].packet, acts[0].room), acts[1..]);
      } else {
        CallbackFifo(q, acts[1..]);
      }
    }
  }

  lemma DeliverFifo(q: Queue, acts: seq<Act>)
    requires AtRest(q) && q.waiting != []
    ensures AtRest(Deliver(q, acts)) && Deliver(q, acts).delivered == q.delivered + [q.waiting[0]]
    ensures q.accepted <= Deliver(q, acts).accepted
  {
    TakeFifo(q);
    EnterFifo(Take(q), q.waiting[0]);
    CallbackFifo(Enter(Take(q), q.waiting[0]), acts);
  }

  /** A drain empties the queue: every packet accepted before or during it has been delivered
      exactly once, in the order of acceptance, whatever the callbacks did. */
  lemma {:induction false} DrainDelivers(q: Queue, script: seq<seq<Act>>)
    requires AtRest(q)
    ensures var r := DrainAll(q, script);
            && AtRest(r) && r.waiting == [] && r.delivered == r.accepted && q.delivered <= r.delivered
            && r.accepted == TallyDrain(Tally(|q.waiting|, q.accepted), script).sent && q.accepted <= r.accepted
    decreases |script|, |q.waiting|
  {
    DrainTallied(q, script);
    if q.waiting != [] {
      if script == [] {
        DeliverFifo(q, []);
        DrainDelivers(Deliver(q, []), []);
      } else {
        DeliverFifo(q, script[0]);
        DrainDelivers(Deliver(q, script[0]), script[1..]);
      }
    } else {
      assert q.delivered + [] + [] == q.delivered;
    }
  }

  /** One top-level operation. */
  datatype Op = Output(packet: Packet, room: bool) | TopDrain(script: seq<seq<Act>>)

  function Apply(q: Queue, op: Op): Queue
  {
    match op
    case Output(p, room) => Accept(q, p, room)
    case TopDrain(script) => DrainAll(q, script)
  }

  function Run(q: Queue, ops: seq<Op>): Queue
    decreases |ops|
  {
    if ops == [] then q else Run(Apply(q, ops[0]), ops[1..])
  }

  /** Over every run of outputs and drains, the packets accepted are the ones sent while a buffer
      could be had and fewer than 16 waited; what was delivered is a prefix of them and the rest
      is waiting, in order; never more than 16 wait. */
  lemma {:induction false} RunIsFifo(q: Queue, ops: seq<Op>)
    requires AtRest(q)
    ensures AtRest(Run(q, ops)) && q.delivered <= Run(q, ops).delivered
    ensures Run(q, ops).accepted == TallyRun(Tally(|q.waiting|, q.accepted), ops).sent && q.accepted <= Run(q, ops).accepted
    ensures |Run(q, ops).waiting| == TallyRun(Tally(|q.waiting|, q.accepted), ops).waiting
    decreases |ops|
  {
    RunTallied(q, ops);
    if ops != [] {
      match ops[0] {
        case Output(p, room) => AcceptFifo(q, p, room);
        case TopDrain(script) => DrainDelivers(q, script);
      }
      RunIsFifo(Apply(q, ops[0]), ops[1..]);
    }
  }

  // ---------------------------------------------------------------------------
  // Which packets are accepted
  // ---------------------------------------------------------------------------

  /** A number of waiting packets and the packets that got in, counted without any queue. */
  datatype Tally = Tally(waiting: nat, sent: seq<Packet>)

  /** A packet gets in when a buffer can be had and fewer than 16 wait. */
  function TallySend(t: Tally, p: Packet, room: bool): Tally
  {
    if room && t.waiting < 16 then Tally(t.waiting + 1, t.sent + [p]) else t
  }

  function TallyActs(t: Tally, acts: seq<Act>): Tally
    decreases |acts|
  {
    if acts == [] then t
    else TallyActs(match acts[0] case Send(p, room) => TallySend(t, p, room) case Drain => t, acts[1..])
  }

  /** Each delivery makes room for one packet before its callbacks run; once the script is over,
      the deliveries that are left send nothing. */
  function TallyDrain(t: Tally, script: seq<seq<Act>>): Tally
    decreases |script|
  {
    if t.waiting == 0 || script == [] then t.(waiting := 0)
    else TallyDrain(TallyActs(t.(waiting := t.waiting - 1), script[0]), script[1..])
  }

  function TallyRun(t: Tally, ops: seq<Op>): Tally
    decreases |ops|
  {
    if ops == [] then t
    else
      TallyRun(match ops[0] case Output(p, room) => TallySend(t, p, room) case TopDrain(script) => TallyDrain(t, script), ops[1..])
  }

  function TallyOf(q: Queue): Tally
  {
    Tally(|q.waiting|, q.accepted)
  }

  lemma {:induction false} ActsTallied(q: Queue, acts: seq<Act>)
    ensures TallyOf(Callback(q, acts)) == TallyActs(TallyOf(q), acts)
    decreases |acts|
  {
    if acts != [] {
      ActsTallied(if acts[0].Send? then Accept(q, acts[0].packet, acts[0].room) else q, acts[1..]);
    }
  }

  /** A drain accepts the packets of its callbacks, counted delivery by delivery. */
  lemma {:induction false} DrainTallied(q: Queue, script: seq<seq<Act>>)
    ensures TallyOf(DrainAll(q, script)) == TallyDrain(TallyOf(q), script)
    decreases |script|, |q.waiting|
  {
    if q.waiting != [] {
      var entered := Enter(Take(q), q.waiting[0]);
      if script == [] {
        CallbackNone(entered);
        DrainTallied(Deliver(q, []), []);
      } else {
        ActsTallied(entered, script[0]);
        DrainTallied(Deliver(q, script[0]), script[1..]);
      }
    }
  }

  /** Over every run, the accepted packets are the ones counted from the operations and their
      callbacks alone. */
  lemma {:induction false} RunTallied(q: Queue, ops: seq<Op>)
    ensures TallyOf(Run(q, ops)) == TallyRun(TallyOf(q), ops)
    decreases |ops|
  {
    if ops != [] {
      if ops[0].TopDrain? {
        DrainTallied(q, ops[0].script);
      }
      RunTallied(Apply(q, ops[0]), ops[1..]);
    }
  }

  // ---------------------------------------------------------------------------
  // The ring
  // ---------------------------------------------------------------------------

  /** The counter difference of C, `tail - head` modulo 2^32, is the true distance. */
  lemma WrappedDistance(head: nat, tail: nat)
    requires head <= tail <= head + HQ_SIZE
    ensures (tail % U32 - head % U32) % U32 == tail - head
    ensures head % U32 == tail % U32 <==> head == tail
  {
  }

  lemma WrappedSuccessor(n: nat)
    ensures (n % U32 + 1) % U32 == (n + 1) % U32
  {
  }

  lemma TakeFifo(q: Queue)
    requires AtRest(q) && q.waiting != []
    ensures Fifo(Take(q)) && Take(q).flight == [q.waiting[0]]
  {
    assert q.delivered + [] + q.waiting == q.delivered + [q.waiting[0]] + q.waiting[1..];
  }

  /** Handing over the packet in flight, and no other, keeps the order. */
  lemma EnterFifo(q: Queue, p: Packet)
    requires Fifo(q) && q.flight == [p]
    ensures AtRest(Enter(q, p))
  {
    assert q.delivered + [p] + [] == q.delivered + [p];
  }

  function SlotOf(n: nat): (i: nat)
    ensures i < HQ_SIZE
  {
    n % HQ_SIZE
  }

  /** The slot of a wrapped counter is the slot of the true one, since 16 divides 2^32. */
  lemma WrappedSlot(n: nat)
    ensures SlotOf(n % U32) == SlotOf(n)
  {
  }

  /** The slot to be written is none of the live ones. */
  lemma SlotsApart(first: nat, last: nat)
    requires first <= last < first + HQ_SIZE
    ensures forall n: nat :: first <= n < last ==> SlotOf(n) != SlotOf(last)
  {
  }

  class Ring {
    var slots: array<Packet>
    var head: nat
    var tail: nat
    var draining: bool
    /** The counters without wrap-around. */
    ghost var first: nat
    ghost var last: nat
    ghost var queue: Queue
    /** Deliveries in progress: nested calls of `ip4_input` from the drain. */
    ghost var depth: nat

    ghost predicate Valid()
      reads this, slots
    {
      && slots.Length == HQ_SIZE
      && first <= last <= first + HQ_SIZE
      && head == first % U32 && tail == last % U32
      && Fifo(queue)
      && |queue.waiting| == last - first
      && (forall n: nat :: first <= n < last ==> slots[SlotOf(n)] == queue.waiting[n - first])
      && depth <= 1 && (depth == 1 ==> draining)
      && (queue.flight != [] ==> draining && depth == 0)
    }

    constructor ()
      ensures Valid() && fresh(slots) && queue == Queue([], [], [], []) && !draining && depth == 0
    {
      slots := new Packet[HQ_SIZE];
      head, tail, draining := 0, 0, false;
      first, last, queue, depth := 0, 0, Queue([], [], [], []), 0;
    }

    /** The hairpin branch of `aknet_output`; false is ERR_MEM. */
    method Enqueue(p: Packet, room: bool) returns (ok: bool)
      requires Valid()
      modifies this`tail, this`last, this`queue, slots
      ensures Valid() && queue == Accept(old(queue), p, room)
      ensures ok <==> |old(queue).waiting| < HQ_SIZE && room
      ensures ok ==> queue.waiting == old(queue.waiting) + [p] && queue.accepted == old(queue.accepted) + [p]
      ensures ok ==> queue.flight == old(queue.flight) && queue.delivered == old(queue.delivered)
      ensures !ok ==> queue == old(queue)
    {
      hide Fifo, SlotOf;
      WrappedDistance(first, last);
      if (tail - head) % U32 >= HQ_SIZE {
        return false;
      }
      if !room {
        return false;
      }
      WrappedSlot(last);
      WrappedSuccessor(last);
      AcceptFifo(queue, p, room);
      SlotsApart(first, last);
      slots[SlotOf(tail)] := p;
      tail := (tail + 1) % U32;
      last := last + 1;
      queue := Accept(queue, p, room);
      return true;
    }

    /** The packet at the head leaves its slot; it is not delivered yet. */
    method TakeHead() returns (p: Packet)
      requires Valid() && head != tail && draining && depth == 0 && queue.flight == []
      modifies this`head, this`first, this`queue
      ensures Valid() && old(queue).waiting != [] && p == old(queue).waiting[0]
      ensures queue == Take(old(queue)) && queue.flight == [p]
    {
      hide SlotOf, Fifo;
      WrappedDistance(first, last);
      WrappedSlot(first);
      WrappedSuccessor(first);
      TakeFifo(queue);
      p := slots[SlotOf(head)];
      head := (head + 1) % U32;
      queue := Take(queue);
      first := first + 1;
    }

    /** `ip4_input` as the drain calls it: with the packet that has just left the ring, and never
        while another delivery is in progress. This is the only place where a delivery is
        recorded. It may hairpin packets and call the drain again. */
    method Ip4Input(p: Packet, acts: seq<Act>)
      requires Valid() && draining && depth == 0 && queue.flight == [p]
      modifies this, slots
      ensures Valid() && draining && depth == 0 && slots == old(slots) && queue.flight == []
      ensures queue == Callback(Enter(old(queue), p), acts)
      decreases 1
    {
      hide Fifo, SlotOf;
      EnterFifo(queue, p);
      queue := Enter(queue, p);
      depth := 1;
      var i := 0;
      assert acts[0..] == acts;
      while i < |acts|
        invariant 0 <= i <= |acts|
        invariant Valid() && draining && depth == 1 && slots == old(slots)
        invariant Callback(Enter(old(queue), p), acts) == Callback(queue, acts[i..])
      {
        assert acts[i..][1..] == acts[i + 1..];
        match acts[i] {
          case Send(another, room) =>
            var ok := Enqueue(another, room);
          case Drain =>
            HairpinDrain([]);
        }
        i := i + 1;
      }
      depth := 0;
    }

    /** `aknet_hairpin_drain`: it delivers until the queue is empty; entered again while it is
        running, it does nothing. */
    method HairpinDrain(script: seq<seq<Act>>)
      requires Valid() && (!draining ==> depth == 0)
      modifies this, slots
      ensures Valid() && draining == old(draining) && depth == old(depth) && slots == old(slots)
      ensures queue == if old(draining) then old(queue) else DrainAll(old(queue), script)
      decreases if draining then 0 else 2
    {
      hide Fifo, SlotOf, Callback;
      if draining {
        return;
      }
      draining := true;
      ghost var q0 := queue;
      var n := 0;
      assert script[0..] == script;
      while head != tail
        invariant Valid() && draining && depth == 0 && slots == old(slots) && queue.flight == []
        invariant 0 <= n <= |script|
        invariant DrainAll(q0, script) == DrainAll(queue, script[n..])
        decreases |script| - n, |queue.waiting|
      {
        var p := TakeHead();
        if n < |script| {
          assert script[n..][1..] == script[n + 1..];
          Ip4Input(p, script[n]);
          n := n + 1;
        } else {
          assert script[n..] == [];
          CallbackNone(Enter(queue, p));
          Ip4Input(p, []);
        }
      }
      WrappedDistance(first, last);
      draining := false;
    }
  }
}
