/** From the bytes of many connections to the steps of the system
    (src/protocol/protocol.cpp, src/coordinator/coordinator.cpp, handleConnection). */
module Wires {
  import opened Binary
  import opened Coordinators
  import Frames

  // --- The receive loop of one connection -------------------------------------------

  // What a pop does to the system: a frame is received, a corrupt one ends the
  // connection, and one that is not complete yet is waited for.
  function Taken(s: System, c: nat, v: Frames.Verdict, replied: bool): System {
    match v
    case Frame(m, _) => Next(s, Receive(c, m, replied))
    case Fault(e) => if e == Frames.Truncated then s else Next(s, Lost(c))
  }

  // One turn of the receive loop over the connection's buffer.
  method TakeFrame(coordinator: Coordinator, buffer: Frames.FrameBuffer, c: nat, replied: bool)
    returns (v: Frames.Verdict)
    requires coordinator.Valid() && c in coordinator.open
    modifies coordinator, coordinator.model, coordinator.model.resourceGen, coordinator.model.reservationGen, buffer
    ensures (v, buffer.buf) == Frames.Pop(old(buffer.buf))
    ensures coordinator.Snapshot() == Taken(old(coordinator.Snapshot()), c, v, replied)
  {
    v := buffer.PopFrame();
    match v
    case Frame(m, _) => coordinator.OnMessage(c, m, replied);
    case Fault(e) =>
      if e != Frames.Truncated { coordinator.OnLost(c); }
  }

  // --- Many connections ---------------------------------------------------------------

  // A chunk arrives, a connection takes a frame from its buffer, or something else happens.
  datatype Wire =
    | Chunk(conn: nat, data: seq<Byte>)
    | Take(conn: nat, replied: bool)
    | Other(event: Event)

  // What one connection's buffer sees of it.
  function OpsOf(wires: seq<Wire>, c: nat): seq<Frames.Op> {
    if wires == [] then []
    else
      var (ops, last) := (OpsOf(wires[..|wires| - 1], c), wires[|wires| - 1]);
      match last
      case Chunk(k, data) => if k == c then ops + [Frames.Append(data)] else ops
      case Take(k, _) => if k == c then ops + [Frames.PopOne] else ops
      case Other(_) => ops
  }

  // The verdict when c takes a frame after these wires.
  function VerdictAt(wires: seq<Wire>, c: nat): Frames.Verdict {
    Frames.Pop(Frames.Run(OpsOf(wires, c)).buf).0
  }

  function EventsOf(v: Frames.Verdict, c: nat, replied: bool): seq<Event> {
    match v
    case Frame(m, _) => [Receive(c, m, replied)]
    case Fault(e) => if e == Frames.Truncated then [] else [Lost(c)]
  }

  // The events of the system, in the order in which the wires cause them.
  function Caused(wires: seq<Wire>): seq<Event> {
    if wires == [] then []
    else
      var (init, last) := (wires[..|wires| - 1], wires[|wires| - 1]);
      Caused(init) + match last
                     case Chunk(_, _) => []
                     case Take(c, replied) => EventsOf(VerdictAt(init, c), c, replied)
                     case Other(e) => [e]
  }

  // The system with one buffer for every connection.
  datatype Net = Net(system: System, buffers: map<nat, seq<Byte>>) {
    function Buffer(c: nat): seq<Byte> {
      if c in buffers then buffers[c] else []
    }
  }

  function Wired(n: Net, w: Wire): Net {
    match w
    case Chunk(c, data) => n.(buffers := n.buffers[c := n.Buffer(c) + data])
    case Take(c, replied) =>
      var (v, rest) := Frames.Pop(n.Buffer(c));
      Net(Taken(n.system, c, v, replied), n.buffers[c := rest])
    case Other(e) => n.(system := Next(n.system, e))
  }

  function WireRun(n: Net, wires: seq<Wire>): Net {
    if wires == [] then n else Wired(WireRun(n, wires[..|wires| - 1]), wires[|wires| - 1])
  }

  // --- The network drives the system through the events it causes -----------------------

  lemma RunsOne(s: System, events: seq<Event>, e: Event)
    ensures Runs(s, events + [e]) == Next(Runs(s, events), e)
  {
    assert (events + [e])[..|events|] == events;
  }

  lemma RunsCaused(s: System, events: seq<Event>, v: Frames.Verdict, c: nat, replied: bool)
    ensures Runs(s, events + EventsOf(v, c, replied)) == Taken(Runs(s, events), c, v, replied)
  {
    match v
    case Frame(m, _) => RunsOne(s, events, Receive(c, m, replied));
    case Fault(e) =>
      if e == Frames.Truncated {
        assert events + [] == events;
      } else {
        RunsOne(s, events, Lost(c));
      }
  }

  // Each buffer is that of its own connection's chunks and takes alone.
  lemma {:induction false} BuffersApart(s: System, wires: seq<Wire>, c: nat)
    ensures WireRun(Net(s, map[]), wires).Buffer(c) == Frames.Run(OpsOf(wires, c)).buf
  {
    if wires != [] {
      var init, last := wires[..|wires| - 1], wires[|wires| - 1];
      BuffersApart(s, init, c);
      if !last.Other? && last.conn == c {
        BufferNext(OpsOf(init, c), if last.Chunk? then Frames.Append(last.data) else Frames.PopOne);
      }
    }
  }

  lemma BufferNext(ops: seq<Frames.Op>, op: Frames.Op)
    ensures Frames.Run(ops + [op]) == Frames.After(Frames.Run(ops), op)
    ensures Frames.Run(ops + [op]).buf
            == match op
               case Append(data) => Frames.Run(ops).buf + data
               case PopOne => Frames.Pop(Frames.Run(ops).buf).1
  {
    assert (ops + [op])[..|ops|] == ops;
  }

  // Whatever the interleaving of chunks, takes and other events over all connections, the
  // system runs through exactly the events they cause.
  lemma {:induction false} NetworkRunsCaused(s: System, wires: seq<Wire>)
    ensures WireRun(Net(s, map[]), wires).system == Runs(s, Caused(wires))
  {
    if wires != [] {
      var init, last := wires[..|wires| - 1], wires[|wires| - 1];
      NetworkRunsCaused(s, init);
      match last
      case Chunk(_, _) => assert Caused(init) + [] == Caused(init);
      case Take(c, replied) =>
        BuffersApart(s, init, c);
        RunsCaused(s, Caused(init), VerdictAt(init, c), c, replied);
      case Other(e) => RunsOne(s, Caused(init), e);
    }
  }

  // --- And these are the messages that were sent ------------------------------------------

  // The messages received on one connection, in order.
  function Received(events: seq<Event>, c: nat): seq<Frames.Message> {
    if events == [] then []
    else
      var (ms, e) := (Received(events[..|events| - 1], c), events[|events| - 1]);
      if e.Receive? && e.conn == c then ms + [e.msg] else ms
  }

  lemma ReceivedOne(events: seq<Event>, e: Event, c: nat)
    ensures Received(events + [e], c)
            == if e.Receive? && e.conn == c then Received(events, c) + [e.msg] else Received(events, c)
  {
    assert (events + [e])[..|events|] == events;
  }

  // Messages come from buffers only.
  ghost predicate OthersReceiveNothing(wires: seq<Wire>) {
    forall w | w in wires :: w.Other? ==> !w.event.Receive?
  }

  lemma {:induction false} ReceivedIsPopped(wires: seq<Wire>, c: nat)
    requires OthersReceiveNothing(wires)
    ensures Received(Caused(wires), c) == Frames.Run(OpsOf(wires, c)).popped
  {
    if wires != [] {
      var init, last := wires[..|wires| - 1], wires[|wires| - 1];
      assert last in wires;
      ReceivedIsPopped(init, c);
      match last
      case Chunk(k, data) =>
        assert Caused(init) + [] == Caused(init);
        BufferNext(OpsOf(init, c), Frames.Append(data));
      case Take(k, replied) =>
        TakeReceives(Caused(init), VerdictAt(init, k), k, replied, c);
        BufferNext(OpsOf(init, c), Frames.PopOne);
      case Other(e) => ReceivedOne(Caused(init), e, c);
    }
  }

  lemma TakeReceives(events: seq<Event>, v: Frames.Verdict, k: nat, replied: bool, c: nat)
    ensures Received(events + EventsOf(v, k, replied), c)
            == if v.Frame? && k == c then Received(events, c) + [v.msg] else Received(events, c)
  {
    match v
    case Frame(m, _) => ReceivedOne(events, Receive(k, m, replied), c);
    case Fault(e) =>
      if e == Frames.Truncated {
        assert events + [] == events;
      } else {
        ReceivedOne(events, Lost(k), c);
      }
  }

  // While a peer's bytes are a part of the stream of its messages, what the system
  // receives on that connection is exactly the first of them, in order, and the buffer
  // never ends the connection, whatever the chunks and whatever the others do.
  lemma ConnectionReceivesInOrder(wires: seq<Wire>, c: nat, msgs: seq<Frames.Message>)
    requires OthersReceiveNothing(wires) && Frames.AllBounded(msgs)
    requires Frames.Delivered(OpsOf(wires, c)) <= Frames.Stream(msgs)
    ensures Received(Caused(wires), c) <= msgs
    ensures VerdictAt(wires, c).Frame? || VerdictAt(wires, c) == Frames.Fault(Frames.Truncated)
  {
    ReceivedIsPopped(wires, c);
    Frames.StreamInOrder(OpsOf(wires, c), msgs);
    InStepVerdict(Frames.Run(OpsOf(wires, c)), Frames.Delivered(OpsOf(wires, c)), msgs);
  }

  lemma InStepVerdict(r: Frames.Receiver, delivered: seq<Byte>, msgs: seq<Frames.Message>)
    requires Frames.AllBounded(msgs) && delivered <= Frames.Stream(msgs) && Frames.InStep(r, delivered, msgs)
    ensures Frames.Pop(r.buf).0.Frame? || Frames.Pop(r.buf).0 == Frames.Fault(Frames.Truncated)
  {
    Frames.PopKeepsStep(r, delivered, msgs);
    var v, after := Frames.Pop(r.buf).0, Frames.After(r, Frames.PopOne);
    if v.Fault? {
      assert after.faults[|r.faults|] == v.err && after.faults[|r.faults|] in after.faults;
    }
  }

  // The connection takes n more times.
  function Takes(c: nat, n: nat): seq<Wire> {
    if n == 0 then [] else Takes(c, n - 1) + [Take(c, true)]
  }

  lemma OpsOne(wires: seq<Wire>, c: nat)
    ensures OpsOf(wires + [Take(c, true)], c) == OpsOf(wires, c) + [Frames.PopOne]
  {
    assert (wires + [Take(c, true)])[..|wires|] == wires;
  }

  lemma Regrouped<T>(a: seq<T>, b: seq<T>, x: T)
    ensures a + (b + [x]) == (a + b) + [x]
  {
  }

  lemma {:induction false} OpsOfTakes(wires: seq<Wire>, c: nat, n: nat)
    ensures OpsOf(wires + Takes(c, n), c) == OpsOf(wires, c) + Frames.Pops(n)
  {
    if n == 0 {
      assert wires + [] == wires && OpsOf(wires, c) + [] == OpsOf(wires, c);
    } else {
      OpsOfTakes(wires, c, n - 1);
      Regrouped(wires, Takes(c, n - 1), Take(c, true));
      OpsOne(wires + Takes(c, n - 1), c);
      Regrouped(OpsOf(wires, c), Frames.Pops(n - 1), Frames.PopOne);
    }
  }

  lemma {:induction false} TakesAreNotOther(c: nat, n: nat)
    ensures OthersReceiveNothing(Takes(c, n))
  {
    if n > 0 { TakesAreNotOther(c, n - 1); }
  }

  // Once all the bytes of a peer's messages have arrived, enough takes drive the system
  // through the receipt of all of them, in order, and of nothing else from that peer.
  lemma ConnectionReceivesAll(wires: seq<Wire>, c: nat, msgs: seq<Frames.Message>, n: nat)
    requires OthersReceiveNothing(wires) && Frames.AllBounded(msgs) && n >= |msgs|
    requires Frames.Delivered(OpsOf(wires, c)) == Frames.Stream(msgs)
    ensures Received(Caused(wires + Takes(c, n)), c) == msgs
  {
    TakesAreNotOther(c, n);
    assert OthersReceiveNothing(wires + Takes(c, n));
    ReceivedIsPopped(wires + Takes(c, n), c);
    OpsOfTakes(wires, c, n);
    Frames.StreamDelivered(OpsOf(wires, c), msgs, n);
  }
}
