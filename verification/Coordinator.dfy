/** The coordinator: many connections over one model (src/coordinator/coordinator.cpp). */
module Coordinators {
  import opened Wrappers
  import opened Binary
  import opened Doubles
  import opened Capacities
  import opened Fleet
  import opened Payload
  import opened PayloadIO
  import opened Authority
  import opened Frames

  const REGISTER: Byte := 2
  const PUBLISH_RESOURCE: Byte := 3
  const PUBLISH_RELEASE: Byte := 5
  const PUBLISH_RESERVATION: Byte := 6
  const ADVANCE_GENERATION: Byte := 8
  const SHUTDOWN: Byte := 17

  // --- Messages as model steps ----------------------------------------------------

  function AmountsOf(c: Words): Amounts {
    Amounts(map d | d in c :: RealOf(c[d]))
  }

  function ResourceOf(r: WireResource): Resource {
    Resource(r.identity.id, r.identity.generation, r.identity.fleetId, r.identity.nodeId, r.identity.deviceId,
             r.identity.kind, CapabilityOf(r.capability), AmountsOf(r.shares.nominal), AmountsOf(r.shares.free),
             r.freeBlocks, AmountsOf(r.shares.committed), AmountsOf(r.shares.unavailable), r.identity.health,
             r.condition.drained, r.condition.maintenance, r.identity.worker, r.identity.bootId)
  }

  // The worker and boot a Register message names.
  function Named(payload: Bytes): Option<(nat, nat)> {
    var (w, s1) :- GetU64(payload);
    var (b, _) :- GetU64(s1);
    Some((w, b))
  }

  datatype Effect = Nothing | Does(step: Step) | Aborts

  // What dispatch does to the model; a reader that raises ends the process.
  function EffectOf(msg: Message): Effect {
    if msg.kind == PUBLISH_RESOURCE then
      match ReadResource(msg.payload)
      case None => Nothing
      case Some((r, _)) => Does(PublishResource(ResourceOf(r)))
    else if msg.kind == PUBLISH_RESERVATION then
      match ReadReservation(msg.payload)
      case Malformed => Nothing
      case Raised => Aborts
      case Got(r, _) => Does(PublishReservation(RecoveredReservation(r)))
    else if msg.kind == PUBLISH_RELEASE then
      match ReadRelease(msg.payload)
      case Malformed => Nothing
      case Raised => Aborts
      case Got(e, _) => Does(PublishRelease(RecoveredRelease(e)))
    else if msg.kind == ADVANCE_GENERATION then
      match GetU64(msg.payload)
      case None => Nothing
      case Some((id, _)) => Does(AdvanceGeneration(id))
    else Nothing
  }

  // --- Steps of the system -----------------------------------------------------------

  // Each open connection has a current worker, zero before any Register.
  datatype System = System(model: State, running: bool, open: map<nat, nat>)

  datatype Event =
    | Accept(conn: nat)
    | Receive(conn: nat, msg: Message, replied: bool)
    | Lost(conn: nat)
    | Stop

  function Next(s: System, e: Event): System {
    match e
    case Stop => s.(running := false)
    case Accept(c) => if c in s.open then s else s.(open := s.open[c := 0])
    case Lost(c) =>
      if c !in s.open then s
      else
        var w := s.open[c];
        System(if w != 0 then Apply(s.model, MarkDead(w)).0 else s.model, s.running, s.open - {c})
    case Receive(c, msg, replied) =>
      if c !in s.open then s
      else if msg.kind == SHUTDOWN then System(s.model, false, s.open - {c})
      else if msg.kind == REGISTER then
        match Named(msg.payload)
        case None => s
        case Some((w, b)) => System(Apply(s.model, Register(w, b)).0, s.running, s.open[c := w])
      else
        match EffectOf(msg)
        case Aborts => System(s.model, false, map[])
        case effect =>
          var model := if effect.Does? then Apply(s.model, effect.step).0 else s.model;
          if replied then s.(model := model) else System(model, false, s.open - {c})
  }

  function Runs(s: System, events: seq<Event>): System {
    if events == [] then s else Next(Runs(s, events[..|events| - 1]), events[|events| - 1])
  }

  // --- The coordinator object ------------------------------------------------------------

  class Coordinator {
    const model: CapacityModel
    var running: bool
    var open: map<nat, nat>

    ghost predicate Valid()
      reads this, model
    {
      model.Valid()
    }

    ghost function Snapshot(): System
      reads this, model, model.resourceGen, model.reservationGen, model.healthGen
    {
      System(model.Snapshot(), running, open)
    }

    constructor (model: CapacityModel)
      requires model.Valid()
      ensures Valid() && this.model == model && running && open == map[]
    {
      this.model := model;
      running, open := true, map[];
    }

    method OnAccept(c: nat)
      requires Valid()
      modifies this
      ensures Snapshot() == Next(old(Snapshot()), Accept(c))
    {
      if c !in open { open := open[c := 0]; }
    }

    // The receive loop ends: the worker this connection named is fenced.
    method OnLost(c: nat)
      requires Valid() && c in open
      modifies this, model
      ensures Snapshot() == Next(old(Snapshot()), Lost(c))
    {
      var curWorker := open[c];
      if curWorker != 0 { model.MarkWorkerDead(curWorker); }
      open := open - {c};
    }

    // One turn of the message loop.
    method OnMessage(c: nat, msg: Message, replied: bool)
      requires Valid() && c in open
      modifies this, model, model.resourceGen, model.reservationGen
      ensures Snapshot() == Next(old(Snapshot()), Receive(c, msg, replied))
    {
      if msg.kind == SHUTDOWN {
        running, open := false, open - {c};
        return;
      }
      if msg.kind == REGISTER {
        var r := new BinaryReader(msg.payload);
        var w := r.ReadU64();
        if w.None? { return; }
        var b := r.ReadU64();
        if b.None? { return; }
        open := open[c := w.value];
        var _ := model.RegisterWorker(w.value, b.value);
        return;
      }
      var aborts := Dispatch(msg);
      if aborts {
        running, open := false, map[];
        return;
      }
      if !replied {
        running, open := false, open - {c};
      }
    }

    // Reads the payload and performs what it asks for.
    method Dispatch(msg: Message) returns (aborts: bool)
      requires Valid()
      modifies model, model.resourceGen, model.reservationGen
      ensures aborts == EffectOf(msg).Aborts?
      ensures model.Snapshot() == if EffectOf(msg).Does? then Apply(old(model.Snapshot()), EffectOf(msg).step).0
                                  else old(model.Snapshot())
    {
      var r := new BinaryReader(msg.payload);
      if msg.kind == PUBLISH_RESOURCE {
        var res := ReadResourceFrom(r);
        if res.Some? { var _ := model.Publish(ResourceOf(res.value.0)); }
      } else if msg.kind == PUBLISH_RESERVATION {
        var res := ReadReservationFrom(r);
        if res.Raised? { return true; }
        if res.Got? { var _ := model.PublishReservationView(RecoveredReservation(res.value)); }
      } else if msg.kind == PUBLISH_RELEASE {
        var rel := ReadReleaseFrom(r);
        if rel.Raised? { return true; }
        if rel.Got? { var _ := model.PublishReleaseEvent(RecoveredRelease(rel.value)); }
      } else if msg.kind == ADVANCE_GENERATION {
        var id := r.ReadU64();
        if id.Some? { var _ := model.AdvanceResourceGeneration(id.value); }
      }
      return false;
    }
  }

  // --- Every live worker is named by an open connection -------------------------------------

  ghost predicate NamedBy(s: System, w: nat) {
    exists c :: c in s.open && s.open[c] == w
  }

  ghost predicate EveryLiveWorkerNamed(s: System) {
    s.running ==> forall w | s.model.Alive(w) :: w != 0 && NamedBy(s, w)
  }

  // The worker the event registers, as far as the connection is concerned.
  function Registers(s: System, e: Event): Option<(nat, nat)> {
    if e.Receive? && e.conn in s.open && e.msg.kind == REGISTER then Named(e.msg.payload) else None
  }

  // The event makes a connection name a different worker from the one it named before.
  predicate Renames(s: System, e: Event) {
    Registers(s, e).Some? && s.open[e.conn] != 0 && s.open[e.conn] != Registers(s, e).value.0
  }

  // Messages other than Register only publish and advance ...
  lemma EffectIsPublication(msg: Message)
    requires EffectOf(msg).Does?
    ensures var step := EffectOf(msg).step;
            step.PublishResource? || step.PublishReservation? || step.PublishRelease? || step.AdvanceGeneration?
  {
  }

  // ... which leaves every registration alone.
  lemma PublicationKeepsSources(m: State, step: Step)
    requires step.PublishResource? || step.PublishReservation? || step.PublishRelease? || step.AdvanceGeneration?
    ensures Apply(m, step).0.sources == m.sources
  {
  }

  // What one event does to the registrations and to the connections.
  lemma EventShape(s: System, e: Event)
    ensures var t := Next(s, e);
            match e
            case Lost(c) =>
              c in s.open ==>
                (t == System(if s.open[c] != 0 then Apply(s.model, MarkDead(s.open[c])).0 else s.model,
                             s.running, s.open - {c}))
            case _ =>
              Registers(s, e).None? ==>
                (&& t.model.sources == s.model.sources
                 && (t.running ==>
                       s.running && forall c | c in s.open :: c in t.open && t.open[c] == s.open[c]))
  {
    if e.Receive? && e.conn in s.open && EffectOf(e.msg).Does? {
      EffectIsPublication(e.msg);
      PublicationKeepsSources(s.model, EffectOf(e.msg).step);
    }
  }

  lemma RegisterShape(s: System, e: Event)
    requires Registers(s, e).Some?
    ensures var (t, (w, b)) := (Next(s, e), Registers(s, e).value);
            && t == System(Apply(s.model, Register(w, b)).0, s.running, s.open[e.conn := w])
            && (forall x | t.model.Alive(x) :: x == w || s.model.Alive(x))
            && (t.model.Alive(0) ==> s.model.Alive(0))
  {
  }

  // Every event keeps the invariant, except that a connection must not go over from
  // one worker to another.
  lemma StepKeepsNamed(s: System, e: Event)
    requires EveryLiveWorkerNamed(s) && !Renames(s, e)
    ensures EveryLiveWorkerNamed(Next(s, e))
  {
    var t := Next(s, e);
    if t.running {
      if Registers(s, e).Some? {
        RegisterShape(s, e);
      } else {
        EventShape(s, e);
      }
      forall w | t.model.Alive(w) ensures w != 0 && NamedBy(t, w) {
        if Registers(s, e).Some? && w == Registers(s, e).value.0 {
          assert t.open[e.conn] == w;
        } else {
          assert s.model.Alive(w);
          var c :| c in s.open && s.open[c] == w;
          assert c in t.open && t.open[c] == w;
        }
      }
    }
  }

  // Exactly: a re-registration breaks the invariant if and only if it abandons a live
  // worker that no other open connection names.
  lemma RenamingBreaksIff(s: System, e: Event)
    requires s.running && EveryLiveWorkerNamed(s) && Renames(s, e)
    ensures !EveryLiveWorkerNamed(Next(s, e))
            <==> var w := s.open[e.conn];
                 s.model.Alive(w) && forall c | c in s.open && c != e.conn :: s.open[c] != w
  {
    var t, w := Next(s, e), s.open[e.conn];
    RegisterShape(s, e);
    assert t.model.Alive(w) == s.model.Alive(w);
    if s.model.Alive(w) && (forall c | c in s.open && c != e.conn :: s.open[c] != w) {
      assert !NamedBy(t, w);
    } else {
      forall x | t.model.Alive(x) ensures x != 0 && NamedBy(t, x) {
        if x == Registers(s, e).value.0 {
          assert t.open[e.conn] == x;
        } else {
          var c :| c in s.open && s.open[c] == x && (x == w ==> c != e.conn);
          assert c in t.open && t.open[c] == x;
        }
      }
    }
  }

  ghost predicate NeverRenames(s: System, events: seq<Event>)
    decreases |events|
  {
    events == [] ||
    var (init, last) := (events[..|events| - 1], events[|events| - 1]);
    NeverRenames(s, init) && !Renames(Runs(s, init), last)
  }

  // Over every interleaving in which no connection goes over from one worker to
  // another (in particular if each registers at most once): while the coordinator is
  // running, every live worker is named by an open connection.
  lemma {:induction false} LiveWorkersNamed(s: System, events: seq<Event>)
    requires EveryLiveWorkerNamed(s) && NeverRenames(s, events)
    ensures EveryLiveWorkerNamed(Runs(s, events))
  {
    if events != [] {
      var init := events[..|events| - 1];
      LiveWorkersNamed(s, init);
      StepKeepsNamed(Runs(s, init), events[|events| - 1]);
    }
  }

  // --- Every death is the close of a connection that named the worker ----------------------

  lemma DeathIsClose(s: System, e: Event, w: nat)
    ensures s.model.Alive(w) && !Next(s, e).model.Alive(w) ==>
              e.Lost? && e.conn in s.open && s.open[e.conn] == w
  {
    if Registers(s, e).Some? {
      RegisterShape(s, e);
    } else {
      EventShape(s, e);
    }
  }

  // A Register message on connection c that names a worker.
  predicate NamesOn(e: Event, c: nat) {
    e.Receive? && e.conn == c && e.msg.kind == REGISTER && Named(e.msg.payload).Some?
  }

  // Connection c has been open ever since event i, so its number names one connection.
  ghost predicate OpenSince(s: System, events: seq<Event>, c: nat, i: nat) {
    forall j | i < j <= |events| :: c in Runs(s, events[..j]).open
  }

  // Event i is a Register in which the connection now open as c names w.
  ghost predicate NamedAt(s: System, events: seq<Event>, c: nat, i: nat, w: nat) {
    && i < |events| && NamesOn(events[i], c) && Named(events[i].msg.payload).value.0 == w
    && OpenSince(s, events, c, i)
  }

  // A connection names only workers that one of its own Register messages named.
  lemma {:induction false} NamesComeFromRegisters(s: System, events: seq<Event>, c: nat)
    requires s.open == map[] && c in Runs(s, events).open && Runs(s, events).open[c] != 0
    ensures exists i: nat :: NamedAt(s, events, c, i, Runs(s, events).open[c])
  {
    if events != [] {
      var n := |events| - 1;
      var before, e := Runs(s, events[..n]), events[n];
      assert events[..n + 1] == events;
      if Registers(before, e).Some? && e.conn == c {
        assert Next(before, e).open[c] == Registers(before, e).value.0;
        assert NamedAt(s, events, c, n, Runs(s, events).open[c]);
      } else {
        OnlyRegisterNames(before, e, c);
        NamesComeFromRegisters(s, events[..n], c);
        var i: nat :| NamedAt(s, events[..n], c, i, before.open[c]);
        StaysNamed(s, events, c, i, before.open[c]);
      }
    }
  }

  lemma StaysNamed(s: System, events: seq<Event>, c: nat, i: nat, w: nat)
    requires events != [] && NamedAt(s, events[..|events| - 1], c, i, w) && c in Runs(s, events).open
    ensures NamedAt(s, events, c, i, w)
  {
    var n := |events| - 1;
    forall j | i < j <= n + 1 ensures c in Runs(s, events[..j]).open {
      if j <= n {
        assert events[..n][..j] == events[..j];
      } else {
        assert events[..j] == events;
      }
    }
  }

  lemma OnlyRegisterNames(s: System, e: Event, c: nat)
    requires !(Registers(s, e).Some? && e.conn == c)
    requires c in Next(s, e).open && Next(s, e).open[c] != 0
    ensures c in s.open && s.open[c] == Next(s, e).open[c]
  {
  }

  // In every run from no connections, a worker dies only when a connection closes
  // whose own Register named it, while it has been open ever since.
  lemma DeathsAreAttributed(s: System, events: seq<Event>, e: Event, w: nat)
    requires s.open == map[] && w != 0
    ensures Runs(s, events).model.Alive(w) && !Next(Runs(s, events), e).model.Alive(w) ==>
              e.Lost? && exists i: nat :: NamedAt(s, events, e.conn, i, w)
  {
    DeathIsClose(Runs(s, events), e, w);
    if Runs(s, events).model.Alive(w) && !Next(Runs(s, events), e).model.Alive(w) {
      NamesComeFromRegisters(s, events, e.conn);
    }
  }

  // The connection names the worker even when the registration is refused, so closing
  // it kills the incarnation that another connection holds.
  lemma RefusedRegistrationStillKills(s: System, e: Event)
    requires Registers(s, e).Some? && Registers(s, e).value.0 != 0
    requires !Apply(s.model, Register(Registers(s, e).value.0, Registers(s, e).value.1)).1
    requires s.model.Alive(Registers(s, e).value.0)
    ensures var (w, _) := Registers(s, e).value;
            && Next(s, e).model == s.model && Next(s, e).open[e.conn] == w
            && !Next(Next(s, e), Lost(e.conn)).model.Alive(w)
  {
  }

  // --- Registering at most once ---------------------------------------------------------------

  // No connection sends a second Register while it stays open; a number may be used again.
  ghost predicate RegistersOnce(s: System, events: seq<Event>) {
    forall i, j, c: nat | 0 <= i < j < |events| && NamesOn(events[i], c) && NamesOn(events[j], c) ::
      !OpenSince(s, events[..j], c, i)
  }

  // A connection that goes over to another worker sends its second Register.
  lemma RenamingIsSecond(s: System, events: seq<Event>, e: Event)
    requires s.open == map[] && Renames(Runs(s, events), e)
    ensures !RegistersOnce(s, events + [e])
  {
    var (n, all, c) := (|events|, events + [e], e.conn);
    NamesComeFromRegisters(s, events, c);
    var i: nat :| NamedAt(s, events, c, i, Runs(s, events).open[c]);
    assert all[..n] == events && NamesOn(all[i], c) && NamesOn(all[n], c);
  }

  lemma {:induction false} OnceNeverRenames(s: System, events: seq<Event>)
    requires s.open == map[] && RegistersOnce(s, events)
    ensures NeverRenames(s, events)
  {
    if events != [] {
      var n := |events| - 1;
      OnceBefore(s, events);
      OnceNeverRenames(s, events[..n]);
      assert events[..n] + [events[n]] == events;
      if Renames(Runs(s, events[..n]), events[n]) {
        RenamingIsSecond(s, events[..n], events[n]);
      }
    }
  }

  lemma OnceBefore(s: System, events: seq<Event>)
    requires events != [] && RegistersOnce(s, events)
    ensures RegistersOnce(s, events[..|events| - 1])
  {
    var init := events[..|events| - 1];
    forall i, j, c: nat | 0 <= i < j < |init| && NamesOn(init[i], c) && NamesOn(init[j], c)
      ensures !OpenSince(s, init[..j], c, i)
    {
      assert init[..j] == events[..j] && NamesOn(events[i], c) && NamesOn(events[j], c);
    }
  }

  // From no connections and no live workers, over every interleaving in which each
  // connection registers at most once: while the coordinator is running, every live
  // worker is named by an open connection.
  lemma RegisteringOnceKeepsNamed(s: System, events: seq<Event>)
    requires s.open == map[] && RegistersOnce(s, events)
    requires forall w :: !s.model.Alive(w)
    ensures EveryLiveWorkerNamed(Runs(s, events))
  {
    OnceNeverRenames(s, events);
    LiveWorkersNamed(s, events);
  }
}
