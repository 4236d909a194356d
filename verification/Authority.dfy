/** The authoritative model as a state machine
    (src/model/model.cpp, include/capacity_fabric/model/freshness.hpp). */
module Authority {
  import opened Binary
  import opened Doubles
  import opened Capacities
  import opened Timelines
  import opened Fleet
  import opened Payload
  import Persistence
  import PersistenceIO

  // --- Generations -------------------------------------------------------------------

  type Generations = map<nat, U64>

  // Zero stands for "no valid generation".
  function Current(gen: Generations, id: nat): U64 {
    if id in gen then gen[id] else 0
  }

  predicate Regresses(gen: Generations, id: nat, next: U64) {
    next != 0 && Current(gen, id) != 0 && next < Current(gen, id)
  }

  function Advanced(gen: Generations, id: nat, next: U64): Generations {
    if Regresses(gen, id, next) then gen else gen[id := next]
  }

  function NextGeneration(v: U64): U64 {
    if v == 0 then 1 else if v == MAX_U64 then v else v + 1
  }

  class GenerationTracker {
    var gen: Generations

    constructor ()
      ensures gen == map[]
    {
      gen := map[];
    }

    method Advance(id: nat, next: U64) returns (ok: bool)
      modifies this
      ensures ok == !Regresses(old(gen), id, next)
      ensures gen == Advanced(old(gen), id, next)
    {
      var cur := if id in gen then gen[id] else 0;
      if next != 0 && cur != 0 && next < cur { return false; }
      gen := gen[id := next];
      return true;
    }
  }

  // On its own the tracker goes back exactly when it is given an invalid generation
  // for an object that has a valid one; its callers guard against that.
  lemma TrackerGoesBackIff(gen: Generations, id: nat, next: U64)
    ensures Current(Advanced(gen, id, next), id) < Current(gen, id) <==> next == 0 && Current(gen, id) != 0
  {
  }

  // --- The state and its steps ------------------------------------------------------------

  datatype Source = Source(bootId: nat, alive: bool)

  // What was forecast for a time, and what was then observed.
  datatype Prediction = Prediction(at: TimePoint, expected: Amounts, observed: Amounts)

  datatype State = State(
    epoch: nat, recovered: bool, sources: map<nat, Source>, resources: map<nat, Resource>,
    resourceGen: Generations, reservationGen: Generations,
    reservations: seq<Reservation>, releases: seq<Release>, history: seq<Prediction>,
    devices: map<nat, Device>, healthGen: Generations)
  {
    predicate Alive(w: nat) {
      w in sources && sources[w].alive
    }

    predicate Live(w: nat, boot: nat) {
      Alive(w) && sources[w].bootId == boot
    }

    // The evidence of a resource was published under the live boot of its worker.
    predicate IsCurrent(r: Resource) {
      r.bootId != 0 && Live(r.worker, r.bootId)
    }
  }

  const INITIAL := State(1, false, map[], map[], map[], map[], [], [], [], map[], map[])

  datatype Step =
    | Register(worker: nat, boot: nat)
    | Unregister(worker: nat)
    | MarkDead(worker: nat)
    | PublishResource(resource: Resource)
    | AdvanceGeneration(id: nat)
    | PublishReservation(reservation: Reservation)
    | PublishRelease(release: Release)
    | RecordForecast(at: TimePoint, expected: Amounts)
    | RecordObserved(at: TimePoint, observed: Amounts)
    | SetHealth(device: nat, health: Health, gen: U64)
    | Load(bytes: Bytes)

  function OtherReleases(es: seq<Release>, source: nat): seq<Release> {
    if es == [] then []
    else
      var (s, e) := (OtherReleases(es[..|es| - 1], source), es[|es| - 1]);
      if e.sourceId == source then s else s + [e]
  }

  // What a publication records of the device: not its blocks, its drain or its maintenance.
  function Registered(r: Resource): Device {
    DeviceOf(r).(freeBlocks := [], drained := false, maintenance := false)
  }

  // The first prediction for a time gets what was observed.
  function Observed(ps: seq<Prediction>, at: TimePoint, observed: Amounts): seq<Prediction> {
    if ps == [] then []
    else if ps[0].at == at then [ps[0].(observed := observed)] + ps[1..]
    else [ps[0]] + Observed(ps[1..], at, observed)
  }

  lemma {:induction false} ObservedFirst(ps: seq<Prediction>, i: nat, at: TimePoint, observed: Amounts)
    requires i < |ps| && ps[i].at == at && forall j | 0 <= j < i :: ps[j].at != at
    ensures Observed(ps, at, observed) == ps[i := ps[i].(observed := observed)]
  {
    if i > 0 {
      ObservedFirst(ps[1..], i - 1, at, observed);
    }
  }

  lemma {:induction false} ObservedNone(ps: seq<Prediction>, at: TimePoint, observed: Amounts)
    requires forall j | 0 <= j < |ps| :: ps[j].at != at
    ensures Observed(ps, at, observed) == ps
  {
    if ps != [] { ObservedNone(ps[1..], at, observed); }
  }

  // --- Recovered records ----------------------------------------------------------------------

  function Text(b: Bytes): string {
    seq(|b|, i requires 0 <= i < |b| => b[i] as char)
  }

  function DeltaOf(c: Words): Delta {
    Delta(map d | d in c :: RealOf(c[d]))
  }

  function CapabilityOf(c: Capability): DeviceCapability {
    DeviceCapability(Text(c.architecture), Text(c.className), Text(c.name))
  }

  // Durable identity only: no free capacity, no worker, no boot identity.
  function RecoveredResource(r: Persistence.DurableResource): Resource {
    Resource(r.id, r.generation, r.fleetId, r.nodeId, r.deviceId, r.kind, CapabilityOf(r.capability),
             Set(Set(NOTHING, VRAM_BYTES, r.vram as real), ACCELERATOR_COUNT, r.accelerators as real),
             NOTHING, [], NOTHING, NOTHING, r.health, false, false, 0, 0)
  }

  function RecoveredReservation(r: WireReservation): Reservation {
    Reservation(r.id, r.generation, Interval(r.start, r.end), DeltaOf(r.hold), r.strength)
  }

  function RecoveredRelease(e: WireRelease): Release {
    Release(e.sourceId, e.time, e.earliest, e.latest, DeltaOf(e.release), RealOf(e.confidence))
  }

  function OfAccelerators(w: Word): Amounts {
    Set(NOTHING, ACCELERATOR_COUNT, RealOf(w))
  }

  function RecoveredPrediction(f: Persistence.Forecast): Prediction {
    Prediction(f.at, OfAccelerators(f.expected), OfAccelerators(f.observed))
  }

  function ResourceMap(rs: seq<Persistence.DurableResource>): map<nat, Resource> {
    if rs == [] then map[]
    else
      var r := rs[|rs| - 1];
      ResourceMap(rs[..|rs| - 1])[r.id := RecoveredResource(r)]
  }

  function AdvancedAll(gen: Generations, rs: seq<WireReservation>): Generations {
    if rs == [] then gen
    else
      var r := rs[|rs| - 1];
      Advanced(AdvancedAll(gen, rs[..|rs| - 1]), r.id, r.generation)
  }

  // Whatever a load read before it ended replaces what was there; the rest stays.
  function AfterLoad(s: State, l: Persistence.Loaded): State {
    s.(epoch := if l.epoch.Some? then l.epoch.value else s.epoch,
       resources := if l.resources.Some? then ResourceMap(l.resources.value) else s.resources,
       reservations := if l.reservations.Some? then Persistence.Mapped(l.reservations.value, RecoveredReservation)
                       else s.reservations,
       reservationGen := if l.reservations.Some? then AdvancedAll(s.reservationGen, l.reservations.value)
                         else s.reservationGen,
       releases := if l.releases.Some? then Persistence.Mapped(l.releases.value, RecoveredRelease)
                   else s.releases,
       history := if l.history.Some? then Persistence.Mapped(l.history.value, RecoveredPrediction) else s.history,
       recovered := s.recovered || l.status.Ok?)
  }

  // --- One step, and whether it was accepted -----------------------------------------------------

  function Apply(s: State, step: Step): (State, bool) {
    match step
    case Register(w, b) =>
      if w == 0 || b == 0 || (s.Alive(w) && s.sources[w].bootId != b) then (s, false)
      else (s.(sources := s.sources[w := Source(b, true)]), true)
    case Unregister(w) =>
      if w !in s.sources then (s, false)
      else (s.(sources := s.sources[w := s.sources[w].(alive := false)]), true)
    case MarkDead(w) =>
      if w !in s.sources then (s, true)
      else (s.(sources := s.sources[w := s.sources[w].(alive := false)]), true)
    case PublishResource(r) =>
      var cur := Current(s.resourceGen, r.id);
      if !s.Live(r.worker, r.bootId) || (cur != 0 && r.generation < cur) then (s, false)
      else (s.(resourceGen := Advanced(s.resourceGen, r.id, r.generation),
               resources := s.resources[r.id := r], devices := s.devices[r.deviceId := Registered(r)]), true)
    case AdvanceGeneration(id) =>
      var next := NextGeneration(Current(s.resourceGen, id));
      if id !in s.resources || Regresses(s.resourceGen, id, next) then (s, false)
      else (s.(resourceGen := Advanced(s.resourceGen, id, next),
               resources := s.resources[id := s.resources[id].(generation := next)]), true)
    case PublishReservation(r) =>
      var cur := Current(s.reservationGen, r.id);
      if cur != 0 && r.generation < cur then (s, false)
      else (s.(reservationGen := Advanced(s.reservationGen, r.id, r.generation),
               reservations := WithoutReservation(s.reservations, r.id) + [r]), true)
    case PublishRelease(e) =>
      (s.(releases := OtherReleases(s.releases, e.sourceId) + [e]), true)
    case RecordForecast(at, expected) => (s.(history := s.history + [Prediction(at, expected, NOTHING)]), true)
    case RecordObserved(at, observed) => (s.(history := Observed(s.history, at, observed)), true)
    case SetHealth(id, health, gen) =>
      var cur := Current(s.healthGen, id);
      if cur != 0 && gen < cur then (s, false)
      else (s.(healthGen := Advanced(s.healthGen, id, gen),
               devices := if id in s.devices then s.devices[id := s.devices[id].(health := health)]
                          else s.devices), true)
    case Load(bytes) =>
      var l := Persistence.Load(bytes);
      (AfterLoad(s, l), l.status.Ok?)
  }

  function Run(s: State, steps: seq<Step>): State {
    if steps == [] then s else Apply(Run(s, steps[..|steps| - 1]), steps[|steps| - 1]).0
  }

  // --- The model object ---------------------------------------------------------------------------

  class CapacityModel {
    var epoch: nat
    var recovered: bool
    var sources: map<nat, Source>
    var resources: map<nat, Resource>
    const resourceGen: GenerationTracker
    const reservationGen: GenerationTracker
    var reservations: seq<Reservation>
    var releases: seq<Release>
    var history: seq<Prediction>
    var devices: map<nat, Device>
    const healthGen: GenerationTracker

    ghost predicate Valid()
      reads this
    {
      resourceGen != reservationGen && healthGen != resourceGen && healthGen != reservationGen
    }

    ghost function Snapshot(): State
      reads this, resourceGen, reservationGen, healthGen
    {
      State(epoch, recovered, sources, resources, resourceGen.gen, reservationGen.gen, reservations, releases,
            history, devices, healthGen.gen)
    }

    constructor ()
      ensures Valid() && fresh(resourceGen) && fresh(reservationGen) && fresh(healthGen)
      ensures Snapshot() == INITIAL
    {
      epoch, recovered, sources, resources := 1, false, map[], map[];
      resourceGen := new GenerationTracker();
      reservationGen := new GenerationTracker();
      healthGen := new GenerationTracker();
      reservations, releases, history, devices := [], [], [], map[];
    }

    method RegisterWorker(w: nat, b: nat) returns (ok: bool)
      requires Valid()
      modifies this
      ensures (Snapshot(), ok) == Apply(old(Snapshot()), Register(w, b))
    {
      if w == 0 || b == 0 { return false; }
      if w in sources && sources[w].alive && sources[w].bootId != b { return false; }
      sources := sources[w := Source(b, true)];
      return true;
    }

    method UnregisterWorker(w: nat) returns (ok: bool)
      requires Valid()
      modifies this
      ensures (Snapshot(), ok) == Apply(old(Snapshot()), Unregister(w))
    {
      if w !in sources { return false; }
      sources := sources[w := sources[w].(alive := false)];
      return true;
    }

    method MarkWorkerDead(w: nat)
      requires Valid()
      modifies this
      ensures Snapshot() == Apply(old(Snapshot()), MarkDead(w)).0
    {
      if w in sources {
        sources := sources[w := sources[w].(alive := false)];
      }
    }

    method Publish(r: Resource) returns (ok: bool)
      requires Valid()
      modifies this, resourceGen
      ensures (Snapshot(), ok) == Apply(old(Snapshot()), PublishResource(r))
    {
      if r.worker !in sources || !sources[r.worker].alive || sources[r.worker].bootId != r.bootId {
        return false;
      }
      var cur := Current(resourceGen.gen, r.id);
      if cur != 0 && r.generation < cur { return false; }
      var _ := resourceGen.Advance(r.id, r.generation);
      resources := resources[r.id := r];
      devices := devices[r.deviceId := Registered(r)];
      return true;
    }

    method AdvanceResourceGeneration(id: nat) returns (ok: bool)
      requires Valid()
      modifies this, resourceGen
      ensures (Snapshot(), ok) == Apply(old(Snapshot()), AdvanceGeneration(id))
    {
      if id !in resources { return false; }
      var next := NextGeneration(Current(resourceGen.gen, id));
      var advanced := resourceGen.Advance(id, next);
      if !advanced { return false; }
      resources := resources[id := resources[id].(generation := next)];
      return true;
    }

    method PublishReservationView(r: Reservation) returns (ok: bool)
      requires Valid()
      modifies this, reservationGen
      ensures (Snapshot(), ok) == Apply(old(Snapshot()), PublishReservation(r))
    {
      var cur := Current(reservationGen.gen, r.id);
      if cur != 0 && r.generation < cur { return false; }
      var _ := reservationGen.Advance(r.id, r.generation);
      reservations := WithoutReservation(reservations, r.id);
      reservations := reservations + [r];
      return true;
    }

    method PublishReleaseEvent(e: Release) returns (ok: bool)
      requires Valid()
      modifies this
      ensures (Snapshot(), ok) == Apply(old(Snapshot()), PublishRelease(e))
    {
      releases := OtherReleases(releases, e.sourceId);
      releases := releases + [e];
      return true;
    }

    method SetDeviceHealth(id: nat, health: Health, gen: U64) returns (ok: bool)
      requires Valid()
      modifies this, healthGen
      ensures (Snapshot(), ok) == Apply(old(Snapshot()), SetHealth(id, health, gen))
    {
      var cur := Current(healthGen.gen, id);
      if cur != 0 && gen < cur { return false; }
      var _ := healthGen.Advance(id, gen);
      if id in devices { devices := devices[id := devices[id].(health := health)]; }
      return true;
    }

    method RecordForecastFor(at: TimePoint, expected: Amounts)
      requires Valid()
      modifies this
      ensures Snapshot() == Apply(old(Snapshot()), RecordForecast(at, expected)).0
    {
      history := history + [Prediction(at, expected, NOTHING)];
    }

    method RecordObservedAt(at: TimePoint, observed: Amounts)
      requires Valid()
      modifies this
      ensures Snapshot() == Apply(old(Snapshot()), RecordObserved(at, observed)).0
    {
      for i := 0 to |history|
        invariant history == old(history)
        invariant forall j | 0 <= j < i :: history[j].at != at
      {
        if history[i].at == at {
          ObservedFirst(history, i, at, observed);
          history := history[i := history[i].(observed := observed)];
          return;
        }
      }
      ObservedNone(history, at, observed);
    }

    method LoadFile(bytes: Bytes) returns (ok: bool)
      requires Valid()
      modifies this, reservationGen
      ensures (Snapshot(), ok) == Apply(old(Snapshot()), Load(bytes))
    {
      var l := PersistenceIO.LoadFile(bytes);
      TakeOver(l);
      ok := l.status.Ok?;
    }

    method TakeOver(l: Persistence.Loaded)
      requires Valid()
      modifies this, reservationGen
      ensures Snapshot() == AfterLoad(old(Snapshot()), l)
    {
      if l.epoch.Some? { epoch := l.epoch.value; }
      if l.resources.Some? { ReplaceResources(l.resources.value); }
      if l.reservations.Some? { ReplaceReservations(l.reservations.value); }
      if l.releases.Some? { ReplaceReleases(l.releases.value); }
      if l.history.Some? { ReplaceHistory(l.history.value); }
      if l.status.Ok? { recovered := true; }
    }

    method ReplaceResources(rs: seq<Persistence.DurableResource>)
      modifies this`resources
      ensures resources == ResourceMap(rs)
    {
      resources := map[];
      for i := 0 to |rs|
        invariant resources == ResourceMap(rs[..i])
      {
        assert rs[..i + 1][..i] == rs[..i];
        resources := resources[rs[i].id := RecoveredResource(rs[i])];
      }
      assert rs[..|rs|] == rs;
    }

    method ReplaceReservations(rs: seq<WireReservation>)
      modifies this`reservations, reservationGen
      ensures reservations == Persistence.Mapped(rs, RecoveredReservation)
      ensures reservationGen.gen == AdvancedAll(old(reservationGen.gen), rs)
    {
      reservations := [];
      for i := 0 to |rs|
        invariant reservations == Persistence.Mapped(rs[..i], RecoveredReservation)
        invariant reservationGen.gen == AdvancedAll(old(reservationGen.gen), rs[..i])
      {
        assert rs[..i + 1][..i] == rs[..i];
        var _ := reservationGen.Advance(rs[i].id, rs[i].generation);
        reservations := reservations + [RecoveredReservation(rs[i])];
      }
      assert rs[..|rs|] == rs;
    }

    method ReplaceReleases(es: seq<WireRelease>)
      modifies this`releases
      ensures releases == Persistence.Mapped(es, RecoveredRelease)
    {
      releases := [];
      for i := 0 to |es|
        invariant releases == Persistence.Mapped(es[..i], RecoveredRelease)
      {
        assert es[..i + 1][..i] == es[..i];
        releases := releases + [RecoveredRelease(es[i])];
      }
      assert es[..|es|] == es;
    }

    method ReplaceHistory(fs: seq<Persistence.Forecast>)
      modifies this`history
      ensures history == Persistence.Mapped(fs, RecoveredPrediction)
    {
      history := [];
      for i := 0 to |fs|
        invariant history == Persistence.Mapped(fs[..i], RecoveredPrediction)
      {
        history := history + [RecoveredPrediction(fs[i])];
      }
      assert fs[..|fs|] == fs;
    }
  }

  // --- Generations never go back ---------------------------------------------------------------------

  ghost predicate NoLoad(steps: seq<Step>) {
    forall x | x in steps :: !x.Load?
  }

  // Every stored record carries the tracked generation, and reservation ids are unique.
  ghost predicate Tracked(s: State) {
    && (forall id | id in s.resources :: id in s.resourceGen && s.resources[id].generation == s.resourceGen[id])
    && TrackedBy(s.reservations, s.reservationGen)
  }

  ghost predicate UniqueIds(rs: seq<Reservation>) {
    forall i, j | 0 <= i < j < |rs| :: rs[i].id != rs[j].id
  }

  lemma {:induction false} OthersKept(rs: seq<Reservation>, id: nat)
    ensures forall r | r in WithoutReservation(rs, id) :: r in rs && r.id != id
  {
    if rs != [] {
      OthersKept(rs[..|rs| - 1], id);
      assert rs[|rs| - 1] in rs;
    }
  }

  lemma {:induction false} OthersUnique(rs: seq<Reservation>, id: nat)
    requires UniqueIds(rs)
    ensures UniqueIds(WithoutReservation(rs, id))
  {
    if rs != [] {
      var n := |rs| - 1;
      OthersUnique(rs[..n], id);
      var s := WithoutReservation(rs[..n], id);
      forall i | 0 <= i < |s| ensures s[i].id != rs[n].id {
        OthersKept(rs[..n], id);
        assert s[i] in s;
        var k :| 0 <= k < n && rs[..n][k] == s[i];
      }
    }
  }

  lemma StepKeepsTracked(s: State, step: Step)
    requires Tracked(s) && !step.Load?
    ensures Tracked(Apply(s, step).0)
  {
    match step
    case PublishResource(r) => ResourceKeepsTracked(s, r);
    case AdvanceGeneration(id) => AdvanceKeepsTracked(s, id);
    case PublishReservation(r) => ReservationKeepsTracked(s, r);
    case _ => OtherKeepsTracked(s, step);
  }

  lemma ResourceKeepsTracked(s: State, r: Resource)
    requires Tracked(s)
    ensures Tracked(Apply(s, PublishResource(r)).0)
  {
  }

  lemma AdvanceKeepsTracked(s: State, id: nat)
    requires Tracked(s)
    ensures Tracked(Apply(s, AdvanceGeneration(id)).0)
  {
  }

  lemma OtherKeepsTracked(s: State, step: Step)
    requires Tracked(s) && !step.Load?
    requires !step.PublishResource? && !step.AdvanceGeneration? && !step.PublishReservation?
    ensures Tracked(Apply(s, step).0)
  {
  }

  lemma StepNeverLowers(s: State, step: Step)
    requires !step.Load?
    ensures forall id :: Current(s.resourceGen, id) <= Current(Apply(s, step).0.resourceGen, id)
    ensures forall id :: Current(s.reservationGen, id) <= Current(Apply(s, step).0.reservationGen, id)
  {
  }

  lemma ReservationKeepsTracked(s: State, r: Reservation)
    requires Tracked(s)
    ensures Tracked(Apply(s, PublishReservation(r)).0)
  {
    AppendedTracked(s.reservations, s.reservationGen, r);
  }

  ghost predicate TrackedBy(rs: seq<Reservation>, gen: Generations) {
    (forall r | r in rs :: r.id in gen && r.generation == gen[r.id]) && UniqueIds(rs)
  }

  lemma AppendedTracked(rs: seq<Reservation>, gen: Generations, r: Reservation)
    requires TrackedBy(rs, gen)
    ensures !(Current(gen, r.id) != 0 && r.generation < Current(gen, r.id)) ==>
              TrackedBy(WithoutReservation(rs, r.id) + [r], Advanced(gen, r.id, r.generation))
  {
    OthersKept(rs, r.id);
    AppendedUnique(rs, r);
  }

  lemma AppendedUnique(rs: seq<Reservation>, r: Reservation)
    requires UniqueIds(rs)
    ensures UniqueIds(WithoutReservation(rs, r.id) + [r])
  {
    var others := WithoutReservation(rs, r.id);
    OthersKept(rs, r.id);
    OthersUnique(rs, r.id);
    forall i | 0 <= i < |others| ensures others[i].id != r.id {
      assert others[i] in others;
    }
  }

  // In every run without a load: records agree with the trackers, reservation ids
  // stay unique, and no tracked generation ever decreases.
  lemma {:induction false} GenerationsNeverDecrease(s: State, steps: seq<Step>)
    requires Tracked(s) && NoLoad(steps)
    ensures Tracked(Run(s, steps))
    ensures forall id :: Current(s.resourceGen, id) <= Current(Run(s, steps).resourceGen, id)
    ensures forall id :: Current(s.reservationGen, id) <= Current(Run(s, steps).reservationGen, id)
  {
    if steps != [] {
      var init, last := steps[..|steps| - 1], steps[|steps| - 1];
      assert last in steps;
      GenerationsNeverDecrease(s, init);
      StepKeepsTracked(Run(s, init), last);
      StepNeverLowers(Run(s, init), last);
    }
  }

  // Advancing a known resource strictly increases its generation unless it is saturated.
  lemma AdvanceIncreasesIff(s: State, id: nat)
    ensures var (t, ok) := Apply(s, AdvanceGeneration(id));
            && (ok <==> id in s.resources)
            && (ok ==> (Current(t.resourceGen, id) > Current(s.resourceGen, id)
                        <==> Current(s.resourceGen, id) < MAX_U64))
  {
  }

  // An accepted publication lowers the stored generation exactly when the tracker has
  // lost it: no tracked generation, or a tracked one that is lower than the record's.
  lemma PublishLowersIff(s: State, r: Resource)
    requires s.Live(r.worker, r.bootId) && r.id in s.resources
    ensures var (t, ok) := Apply(s, PublishResource(r));
            (ok && t.resources[r.id].generation < s.resources[r.id].generation)
            <==> r.generation < s.resources[r.id].generation
                 && (Current(s.resourceGen, r.id) == 0 || Current(s.resourceGen, r.id) <= r.generation)
  {
  }

  // --- Boot identities ------------------------------------------------------------------------------

  predicate IsDeathOf(step: Step, w: nat) {
    step == MarkDead(w) || step == Unregister(w)
  }

  lemma StepHoldsBoot(s: State, step: Step, w: nat)
    requires s.Alive(w) && !IsDeathOf(step, w)
    ensures w in Apply(s, step).0.sources && Apply(s, step).0.sources[w] == s.sources[w]
  {
  }

  // A live incarnation keeps its boot identity through every run that does not
  // contain its death: registrations of other boots, loads, anything.
  lemma {:induction false} LiveBootHeld(s: State, steps: seq<Step>, w: nat)
    requires s.Alive(w) && forall x | x in steps :: !IsDeathOf(x, w)
    ensures w in Run(s, steps).sources && Run(s, steps).sources[w] == s.sources[w]
  {
    if steps != [] {
      assert steps[|steps| - 1] in steps;
      LiveBootHeld(s, steps[..|steps| - 1], w);
      StepHoldsBoot(Run(s, steps[..|steps| - 1]), steps[|steps| - 1], w);
    }
  }

  // After the death of its worker a stored record is current again exactly when a Register
  // names the record's own boot.
  lemma ReviveIff(s: State, w: nat, c: nat, r: Resource)
    requires w in s.sources && !s.sources[w].alive && w != 0 && c != 0
    requires r.worker == w && r.bootId != 0
    ensures !s.IsCurrent(r) && (Apply(s, Register(w, c)).0.IsCurrent(r) <==> c == r.bootId)
  {
  }

  ghost predicate NoAcceptedRegister(s: State, steps: seq<Step>, w: nat, boot: nat)
    decreases |steps|
  {
    steps == [] ||
    var (init, last) := (steps[..|steps| - 1], steps[|steps| - 1]);
    NoAcceptedRegister(s, init, w, boot) && !(last == Register(w, boot) && Apply(Run(s, init), last).1)
  }

  lemma StepRevivesNothing(s: State, step: Step, w: nat, boot: nat)
    requires !s.Live(w, boot) && !(step == Register(w, boot) && Apply(s, step).1)
    ensures !Apply(s, step).0.Live(w, boot)
  {
  }

  // A boot that is not live, once dead or never registered, stays so in every run in which
  // no Register of that very boot is accepted.
  lemma {:induction false} DeadBootStaysDead(s: State, steps: seq<Step>, w: nat, boot: nat)
    requires !s.Live(w, boot) && NoAcceptedRegister(s, steps, w, boot)
    ensures !Run(s, steps).Live(w, boot)
  {
    if steps != [] {
      var init := steps[..|steps| - 1];
      DeadBootStaysDead(s, init, w, boot);
      StepRevivesNothing(Run(s, init), steps[|steps| - 1], w, boot);
    }
  }

  // --- Restart -----------------------------------------------------------------------------------

  // No resource carries a boot identity, so none is current.
  ghost predicate NoDynamicEvidence(s: State) {
    forall id | id in s.resources :: s.resources[id].bootId == 0
  }

  ghost predicate NoAcceptedPublish(s: State, steps: seq<Step>)
    decreases |steps|
  {
    steps == [] ||
    var (init, last) := (steps[..|steps| - 1], steps[|steps| - 1]);
    NoAcceptedPublish(s, init) && !(last.PublishResource? && Apply(Run(s, init), last).1)
  }

  lemma {:induction false} RecoveredHaveNoBoot(rs: seq<Persistence.DurableResource>)
    ensures forall id | id in ResourceMap(rs) :: ResourceMap(rs)[id].bootId == 0 && ResourceMap(rs)[id].free == NOTHING
  {
    if rs != [] { RecoveredHaveNoBoot(rs[..|rs| - 1]); }
  }

  lemma LoadDropsEvidence(s: State, bytes: Bytes)
    requires Apply(s, Load(bytes)).1 || NoDynamicEvidence(s)
    ensures NoDynamicEvidence(Apply(s, Load(bytes)).0)
  {
    LoadIs(s, bytes, Persistence.Load(bytes));
    Persistence.OkLoadsAll(bytes);
    TakingOverDropsEvidence(s, Persistence.Load(bytes));
  }

  lemma TakingOverDropsEvidence(s: State, l: Persistence.Loaded)
    requires l.resources.Some? || NoDynamicEvidence(s)
    ensures NoDynamicEvidence(AfterLoad(s, l))
  {
    if l.resources.Some? {
      RecoveredHaveNoBoot(l.resources.value);
    }
  }

  lemma {:induction false} EvidenceStaysDropped(s: State, steps: seq<Step>)
    requires NoDynamicEvidence(s) && NoAcceptedPublish(s, steps)
    ensures NoDynamicEvidence(Run(s, steps))
  {
    if steps != [] {
      var init, last := steps[..|steps| - 1], steps[|steps| - 1];
      EvidenceStaysDropped(s, init);
      StepDropsEvidence(Run(s, init), last);
    }
  }

  lemma StepDropsEvidence(s: State, step: Step)
    requires NoDynamicEvidence(s) && !(step.PublishResource? && Apply(s, step).1)
    ensures NoDynamicEvidence(Apply(s, step).0)
  {
    if step.Load? { LoadDropsEvidence(s, step.bytes); }
  }

  // A saved file with one byte changed is refused and changes nothing at all ...
  lemma CorruptFileChangesNothing(s: State, d: Persistence.Durable, i: nat, x: Byte)
    ensures var f := Persistence.Save(d);
            i < |f| && x != f[i] ==> Apply(s, Load(f[i := x])) == (s, false)
  {
    var f := Persistence.Save(d);
    if i < |f| && x != f[i] {
      Persistence.OneByteRefused(Persistence.EncBody(d), i, x);
      LoadIs(s, f[i := x], Persistence.UNTOUCHED);
    }
  }

  // ... and so is one that is extended, or cut short if its length fits the 32-bit field.
  lemma OtherLengthChangesNothing(s: State, d: Persistence.Durable, bytes: Bytes)
    requires var f := Persistence.Save(d); bytes != f && (f <= bytes || (bytes <= f && |f| < TWO32))
    ensures Apply(s, Load(bytes)) == (s, false)
  {
    SavedSize(d);
    Persistence.OtherLengthRefused(Persistence.EncBody(d), bytes);
    LoadIs(s, bytes, Persistence.UNTOUCHED);
  }

  lemma SavedSize(d: Persistence.Durable)
    ensures |Persistence.Save(d)| == |Persistence.EncBody(d)| + 20
  {
    Persistence.SealedTail(Persistence.EncBody(d));
  }

  lemma {:induction false} ResourceMapHas(rs: seq<Persistence.DurableResource>, i: nat)
    requires i < |rs| && forall j, k | 0 <= j < k < |rs| :: rs[j].id != rs[k].id
    ensures rs[i].id in ResourceMap(rs) && ResourceMap(rs)[rs[i].id] == RecoveredResource(rs[i])
  {
    if i < |rs| - 1 { ResourceMapHas(rs[..|rs| - 1], i); }
  }

  lemma {:induction false} ResourceMapOnly(rs: seq<Persistence.DurableResource>, id: nat)
    requires id in ResourceMap(rs)
    ensures exists i :: 0 <= i < |rs| && rs[i].id == id
  {
    var n := |rs| - 1;
    if rs[n].id != id {
      ResourceMapOnly(rs[..n], id);
      var i :| 0 <= i < n && rs[..n][i].id == id;
      assert rs[i].id == id;
    }
  }

  ghost predicate SavedIdsUnique(d: Persistence.Durable) {
    forall j, k | 0 <= j < k < |d.resources| :: d.resources[j].id != d.resources[k].id
  }

  lemma RecoveredMap(ds: seq<Persistence.DurableResource>)
    requires forall j, k | 0 <= j < k < |ds| :: ds[j].id != ds[k].id
    ensures var m := ResourceMap(Persistence.Mapped(ds, Persistence.Unmarked));
            && (forall id :: id in m <==> exists i :: 0 <= i < |ds| && ds[i].id == id)
            && (forall i | 0 <= i < |ds| :: m[ds[i].id] == RecoveredResource(ds[i]))
  {
    var rs := Persistence.Mapped(ds, Persistence.Unmarked);
    var m := ResourceMap(rs);
    forall i | 0 <= i < |ds| ensures ds[i].id in m && m[ds[i].id] == RecoveredResource(ds[i]) {
      ResourceMapHas(rs, i);
    }
    forall id | id in m ensures exists i :: 0 <= i < |ds| && ds[i].id == id {
      ResourceMapOnly(rs, id);
      var i :| 0 <= i < |rs| && rs[i].id == id;
      assert ds[i].id == id;
    }
  }

  lemma LoadOfSaved(s: State, d: Persistence.Durable)
    requires Persistence.Loadable(d)
    ensures |Persistence.Save(d)| <= Persistence.MAX_FILE ==>
              Apply(s, Load(Persistence.Save(d)))
              == (AfterLoad(s, Persistence.AllLoaded(Persistence.Recovered(d))), true)
  {
    SavedSize(d);
    if |Persistence.Save(d)| <= Persistence.MAX_FILE {
      var l := Persistence.AllLoaded(Persistence.Recovered(d));
      assert Persistence.Load(Persistence.Save(d)) == l by { Persistence.SaveLoad(d); }
      LoadIs(s, Persistence.Save(d), l);
    }
  }

  lemma LoadIs(s: State, bytes: Bytes, l: Persistence.Loaded)
    requires Persistence.Load(bytes) == l
    ensures Apply(s, Load(bytes)) == (AfterLoad(s, l), l.status.Ok?)
  {
  }

  // A restart from a saved file, whatever the state was before: the epoch and exactly
  // the saved resources come back, each with its identity and whole nominal amounts
  // and with no free capacity, no worker and no boot identity.
  lemma RestartRecovers(s: State, d: Persistence.Durable)
    requires Persistence.Loadable(d) && SavedIdsUnique(d)
    ensures var (t, ok) := Apply(s, Load(Persistence.Save(d)));
            |Persistence.Save(d)| <= Persistence.MAX_FILE ==>
              && ok && t.recovered && t.epoch == d.epoch && t.sources == s.sources
              && (forall id :: id in t.resources <==> exists i :: 0 <= i < |d.resources| && d.resources[i].id == id)
              && (forall i | 0 <= i < |d.resources| ::
                    t.resources[d.resources[i].id] == RecoveredResource(d.resources[i]))
  {
    RecoveredMap(d.resources);
    LoadOfSaved(s, d);
  }

  // The bits of an infinite hold.
  const INFINITE: Word := 0x7ff0_0000_0000_0000

  // A well-framed file with no resources and one reservation of an infinite hold.
  const RAISING := Persistence.Durable(
    7, [], [WireReservation(1, 1, 0, 1, 0, map[ACCELERATOR_COUNT := INFINITE], REPORTED)], [], [])

  // Loading it raises, and the epoch is taken over and every resource and reservation is gone.
  lemma RaisingFileHalfLoads(s: State)
    ensures Apply(s, Load(Persistence.Save(RAISING)))
            == (s.(epoch := 7, resources := map[], reservations := []), false)
  {
    RaisingSize();
    var l := Persistence.RaisedHalfWay(RAISING);
    assert Persistence.Load(Persistence.Save(RAISING)) == l by { Persistence.RaisedLoad(RAISING); }
    LoadIs(s, Persistence.Save(RAISING), l);
  }

  lemma RaisingSize()
    ensures Persistence.RaisesAtFirst(RAISING) && |Persistence.EncBody(RAISING)| + 20 <= Persistence.MAX_FILE
  {
    var rs := RAISING.reservations;
    assert Payload.At(rs[0].hold, ACCELERATOR_COUNT) == INFINITE && !IsFinite(INFINITE);
    assert rs[1..] == [] && |EncReservation(rs[0])| == 41;
    assert |Persistence.EncItems(rs, EncReservation)| == 41 + |Persistence.EncItems(rs[1..], EncReservation)|;
  }

  // No load restores the resource tracker: what a restarted process does not track is
  // accepted under a live boot at any generation, however old.
  lemma RestartForgetsGenerations(s: State, bytes: Bytes, r: Resource)
    requires r.id !in s.resourceGen && s.Live(r.worker, r.bootId)
    ensures var t := Apply(s, Load(bytes)).0;
            Apply(t, PublishResource(r)).1 && Apply(t, PublishResource(r)).0.resources[r.id] == r
  {
  }
}
