/** A restart as the model sees it: what a save and a load do to the durable part of a state
    (src/model/model.cpp, save and load). */
module Restarts {
  import opened Binary
  import opened Doubles
  import opened Capacities
  import opened Timelines
  import opened Fleet
  import opened Payload
  import opened Authority
  import Persistence

  // --- The durable part ---------------------------------------------------------------

  datatype ResourceCore = ResourceCore(
    id: U64, generation: U64, fleetId: U64, nodeId: U64, deviceId: U64, kind: nat,
    capability: DeviceCapability, vram: U64, accelerators: U64, health: Health)

  datatype ReservationCore = ReservationCore(
    id: U64, generation: U64, interval: Interval, strength: nat, accelerators: real)

  datatype ReleaseCore = ReleaseCore(
    sourceId: U64, time: TimePoint, earliest: TimePoint, latest: TimePoint, confidence: real, accelerators: real)

  // Predictions keep whole accelerators.
  datatype PredictionCore = PredictionCore(at: TimePoint, expected: int, observed: int)

  function CoreOf(r: Resource): ResourceCore {
    ResourceCore(r.id, r.generation, r.fleetId, r.nodeId, r.deviceId, r.kind, r.capability,
                 Vram(r.nominal), Fleet.Whole(r.nominal.At(ACCELERATOR_COUNT)), r.health)
  }

  function ReservationCoreOf(r: Reservation): ReservationCore {
    ReservationCore(r.id, r.generation, r.interval, r.strength, r.hold.At(ACCELERATOR_COUNT))
  }

  function ReleaseCoreOf(e: Release): ReleaseCore {
    ReleaseCore(e.sourceId, e.time, e.earliest, e.latest, e.confidence, e.release.At(ACCELERATOR_COUNT))
  }

  function PredictionCoreOf(p: Prediction): PredictionCore {
    PredictionCore(p.at, p.expected.At(ACCELERATOR_COUNT).Floor, p.observed.At(ACCELERATOR_COUNT).Floor)
  }

  // --- What a save writes down -------------------------------------------------------------

  // The word of a value; zero has no sign.
  ghost predicate IsWordOf(w: Word, v: real) {
    RealOf(w) == v && w != NEGATIVE_ZERO
  }

  ghost predicate WritesResource(r: Resource, w: Persistence.DurableResource) {
    && w.id == r.id && w.generation == r.generation && w.fleetId == r.fleetId && w.nodeId == r.nodeId
    && w.deviceId == r.deviceId && w.kind == r.kind && w.health == r.health
    && CapabilityOf(w.capability) == r.capability
    && w.vram == Vram(r.nominal) && w.accelerators == Fleet.Whole(r.nominal.At(ACCELERATOR_COUNT))
  }

  ghost predicate WritesReservation(r: Reservation, w: WireReservation) {
    && w.id == r.id && w.generation == r.generation && w.strength == r.strength
    && w.start == r.interval.start && w.end == r.interval.end
    && IsWordOf(Payload.At(w.hold, ACCELERATOR_COUNT), r.hold.At(ACCELERATOR_COUNT))
  }

  ghost predicate WritesRelease(e: Release, w: WireRelease) {
    && w.sourceId == e.sourceId && w.time == e.time && w.earliest == e.earliest && w.latest == e.latest
    && IsWordOf(w.confidence, e.confidence)
    && IsWordOf(Payload.At(w.release, ACCELERATOR_COUNT), e.release.At(ACCELERATOR_COUNT))
  }

  // The word of a finite amount that is not negative.
  ghost predicate WritesAmount(v: real, w: Word) {
    IsFinite(w) && !IsNegative(w) && IsWordOf(w, v)
  }

  ghost predicate WritesPrediction(p: Prediction, f: Persistence.Forecast) {
    && f.at == p.at
    && WritesAmount(p.expected.At(ACCELERATOR_COUNT), f.expected)
    && WritesAmount(p.observed.At(ACCELERATOR_COUNT), f.observed)
  }

  // The file lists exactly the resources of m, each once.
  ghost predicate WritesAll(m: map<nat, Resource>, ds: seq<Persistence.DurableResource>) {
    && (forall id :: id in m <==> exists i :: 0 <= i < |ds| && ds[i].id == id)
    && (forall i | 0 <= i < |ds| :: WritesResource(m[ds[i].id], ds[i]))
  }

  // Resources are written in the order of their ids, as a sorted map visits them.
  ghost predicate SavedInOrder(ds: seq<Persistence.DurableResource>) {
    forall i, j | 0 <= i < j < |ds| :: ds[i].id < ds[j].id
  }

  // d holds the durable part of s.
  ghost predicate Writes(s: State, d: Persistence.Durable) {
    && d.epoch == s.epoch
    && SavedInOrder(d.resources)
    && WritesAll(s.resources, d.resources)
    && |d.reservations| == |s.reservations|
    && (forall i | 0 <= i < |d.reservations| :: WritesReservation(s.reservations[i], d.reservations[i]))
    && |d.releases| == |s.releases|
    && (forall i | 0 <= i < |d.releases| :: WritesRelease(s.releases[i], d.releases[i]))
    && |d.history| == |s.history|
    && (forall i | 0 <= i < |d.history| :: WritesPrediction(s.history[i], d.history[i]))
  }

  // --- And a load gives back ------------------------------------------------------------------

  lemma ZeroHasNoSign(w: Word)
    ensures RealOf(PlusZero(w)) == RealOf(w)
  {
    if w == NEGATIVE_ZERO {
      assert Exponent(w) == 0 && w % FRACTION == 0;
    }
  }

  lemma ResourceBack(r: Resource, w: Persistence.DurableResource)
    requires WritesResource(r, w)
    ensures CoreOf(RecoveredResource(w)) == CoreOf(r)
  {
  }

  lemma ReservationBack(r: Reservation, w: WireReservation)
    requires WritesReservation(r, w)
    ensures ReservationCoreOf(RecoveredReservation(Carried(w))) == ReservationCoreOf(r)
  {
    ZeroHasNoSign(Payload.At(w.hold, ACCELERATOR_COUNT));
  }

  lemma ReleaseBack(e: Release, w: WireRelease)
    requires WritesRelease(e, w)
    ensures ReleaseCoreOf(RecoveredRelease(CarriedRelease(w))) == ReleaseCoreOf(e)
  {
    ZeroHasNoSign(Payload.At(w.release, ACCELERATOR_COUNT));
  }

  lemma AmountBack(v: real, w: Word)
    requires WritesAmount(v, w)
    ensures OfAccelerators(Truncated(w)).At(ACCELERATOR_COUNT) == v.Floor as real
  {
    TruncatedIsFloor(w);
    AmountKept(RealOf(Truncated(w)));
  }

  lemma AmountKept(x: real)
    requires x >= 0.0
    ensures Set(NOTHING, ACCELERATOR_COUNT, x).At(ACCELERATOR_COUNT) == x
  {
  }

  lemma PredictionBack(p: Prediction, f: Persistence.Forecast)
    requires WritesPrediction(p, f)
    ensures PredictionCoreOf(RecoveredPrediction(Persistence.Whole(f))) == PredictionCoreOf(p)
  {
    AmountBack(p.expected.At(ACCELERATOR_COUNT), f.expected);
    AmountBack(p.observed.At(ACCELERATOR_COUNT), f.observed);
  }

  lemma ReservationsBack(rs: seq<Reservation>, ws: seq<WireReservation>, i: nat)
    requires |rs| == |ws| && i < |rs| && WritesReservation(rs[i], ws[i])
    ensures var t := Persistence.Mapped(Persistence.Mapped(ws, Carried), RecoveredReservation);
            ReservationCoreOf(t[i]) == ReservationCoreOf(rs[i])
  {
    ReservationBack(rs[i], ws[i]);
  }

  lemma ReleasesBack(es: seq<Release>, ws: seq<WireRelease>, i: nat)
    requires |es| == |ws| && i < |es| && WritesRelease(es[i], ws[i])
    ensures var t := Persistence.Mapped(Persistence.Mapped(ws, CarriedRelease), RecoveredRelease);
            ReleaseCoreOf(t[i]) == ReleaseCoreOf(es[i])
  {
    ReleaseBack(es[i], ws[i]);
  }

  // The durable parts of two states are the same.
  ghost predicate SameCore(t: State, s: State) {
    && t.epoch == s.epoch
    && t.resources.Keys == s.resources.Keys
    && (forall id | id in s.resources :: CoreOf(t.resources[id]) == CoreOf(s.resources[id]))
    && |t.reservations| == |s.reservations|
    && (forall i | 0 <= i < |s.reservations| ::
          ReservationCoreOf(t.reservations[i]) == ReservationCoreOf(s.reservations[i]))
    && |t.releases| == |s.releases|
    && (forall i | 0 <= i < |s.releases| :: ReleaseCoreOf(t.releases[i]) == ReleaseCoreOf(s.releases[i]))
    && |t.history| == |s.history|
    && (forall i | 0 <= i < |s.history| :: PredictionCoreOf(t.history[i]) == PredictionCoreOf(s.history[i]))
  }

  // Saving any state and loading the file into any other gives that other state exactly
  // the durable part of the first, and leaves its registrations alone.
  lemma RestartKeepsDurablePart(s: State, d: Persistence.Durable, u: State)
    requires Writes(s, d) && Persistence.Loadable(d)
    ensures var (t, ok) := Apply(u, Load(Persistence.Save(d)));
            |Persistence.Save(d)| <= Persistence.MAX_FILE ==>
              ok && SameCore(t, s) && t.sources == u.sources && t.recovered
  {
    LoadOfSaved(u, d);
    RecoveredHasCore(s, d, u, Persistence.AllLoaded(Persistence.Recovered(d)));
  }

  lemma RecoveredHasCore(s: State, d: Persistence.Durable, u: State, l: Persistence.Loaded)
    requires Writes(s, d) && l == Persistence.AllLoaded(Persistence.Recovered(d))
    ensures SameCore(AfterLoad(u, l), s)
  {
    ResourcesSame(s, d, u, l);
    ListsSame(s, d, u, l);
    HistorySame(s, d, u, l);
  }

  lemma HistorySame(s: State, d: Persistence.Durable, u: State, l: Persistence.Loaded)
    requires Writes(s, d) && l == Persistence.AllLoaded(Persistence.Recovered(d))
    ensures var t := AfterLoad(u, l);
            && |t.history| == |s.history|
            && (forall i | 0 <= i < |s.history| :: PredictionCoreOf(t.history[i]) == PredictionCoreOf(s.history[i]))
  {
    var t := AfterLoad(u, l);
    forall i | 0 <= i < |s.history| ensures PredictionCoreOf(t.history[i]) == PredictionCoreOf(s.history[i]) {
      PredictionBack(s.history[i], d.history[i]);
    }
  }

  lemma MapSame(m: map<nat, Resource>, ds: seq<Persistence.DurableResource>, back: map<nat, Resource>)
    requires WritesAll(m, ds)
    requires forall id :: id in back <==> exists i :: 0 <= i < |ds| && ds[i].id == id
    requires forall i | 0 <= i < |ds| :: back[ds[i].id] == RecoveredResource(ds[i])
    ensures back.Keys == m.Keys && forall id | id in m :: CoreOf(back[id]) == CoreOf(m[id])
  {
    forall id | id in m ensures CoreOf(back[id]) == CoreOf(m[id]) {
      var i :| 0 <= i < |ds| && ds[i].id == id;
      ResourceBack(m[id], ds[i]);
    }
  }

  lemma ResourcesSame(s: State, d: Persistence.Durable, u: State, l: Persistence.Loaded)
    requires Writes(s, d) && l == Persistence.AllLoaded(Persistence.Recovered(d))
    ensures var t := AfterLoad(u, l);
            && t.epoch == s.epoch && t.resources.Keys == s.resources.Keys
            && (forall id | id in s.resources :: CoreOf(t.resources[id]) == CoreOf(s.resources[id]))
  {
    RecoveredMap(d.resources);
    MapSame(s.resources, d.resources, ResourceMap(Persistence.Mapped(d.resources, Persistence.Unmarked)));
  }

  lemma ListsSame(s: State, d: Persistence.Durable, u: State, l: Persistence.Loaded)
    requires Writes(s, d) && l == Persistence.AllLoaded(Persistence.Recovered(d))
    ensures var t := AfterLoad(u, l);
            && |t.reservations| == |s.reservations|
            && (forall i | 0 <= i < |s.reservations| ::
                  ReservationCoreOf(t.reservations[i]) == ReservationCoreOf(s.reservations[i]))
            && |t.releases| == |s.releases|
            && (forall i | 0 <= i < |s.releases| :: ReleaseCoreOf(t.releases[i]) == ReleaseCoreOf(s.releases[i]))
  {
    var t := AfterLoad(u, l);
    forall i | 0 <= i < |s.reservations|
      ensures ReservationCoreOf(t.reservations[i]) == ReservationCoreOf(s.reservations[i])
    {
      ReservationsBack(s.reservations, d.reservations, i);
    }
    forall i | 0 <= i < |s.releases| ensures ReleaseCoreOf(t.releases[i]) == ReleaseCoreOf(s.releases[i]) {
      ReleasesBack(s.releases, d.releases, i);
    }
  }

  // --- Saving again ---------------------------------------------------------------------

  lemma TextHasOneSpelling(a: Bytes, b: Bytes)
    requires Text(a) == Text(b)
    ensures a == b
  {
    assert |a| == |Text(a)| && |b| == |Text(b)|;
    forall i | 0 <= i < |a| ensures a[i] == b[i] {
      assert Text(a)[i] == Text(b)[i];
      assert (a[i] as char) as int == a[i] && (b[i] as char) as int == b[i];
    }
  }

  lemma SameResourceBytes(r: Resource, v: Persistence.DurableResource, t: Resource, w: Persistence.DurableResource)
    requires WritesResource(r, v) && WritesResource(t, w) && CoreOf(r) == CoreOf(t)
    ensures Persistence.EncDurable(v) == Persistence.EncDurable(w)
  {
    var c, d := CapabilityOf(v.capability), CapabilityOf(w.capability);
    assert CoreOf(r).capability == c && CoreOf(t).capability == d;
    assert CoreOf(r).vram == v.vram && CoreOf(t).vram == w.vram;
    assert CoreOf(r).accelerators == v.accelerators && CoreOf(t).accelerators == w.accelerators;
    TextHasOneSpelling(v.capability.architecture, w.capability.architecture);
    TextHasOneSpelling(v.capability.className, w.capability.className);
    TextHasOneSpelling(v.capability.name, w.capability.name);
  }

  lemma SameReservationBytes(r: Reservation, v: WireReservation, t: Reservation, w: WireReservation)
    requires WritesReservation(r, v) && WritesReservation(t, w) && ReservationCoreOf(r) == ReservationCoreOf(t)
    ensures EncReservation(v) == EncReservation(w)
  {
    assert ReservationCoreOf(r).accelerators == ReservationCoreOf(t).accelerators;
    ValueHasOneWord(Payload.At(v.hold, ACCELERATOR_COUNT), Payload.At(w.hold, ACCELERATOR_COUNT));
    assert ReservationCoreOf(r).interval == ReservationCoreOf(t).interval;
  }

  lemma SameReleaseBytes(e: Release, v: WireRelease, f: Release, w: WireRelease)
    requires WritesRelease(e, v) && WritesRelease(f, w) && ReleaseCoreOf(e) == ReleaseCoreOf(f)
    ensures EncRelease(v) == EncRelease(w)
  {
    ValueHasOneWord(Payload.At(v.release, ACCELERATOR_COUNT), Payload.At(w.release, ACCELERATOR_COUNT));
    ValueHasOneWord(v.confidence, w.confidence);
  }

  // The amounts of a prediction are whole numbers of accelerators.
  ghost predicate WholePrediction(p: Prediction) {
    && p.expected.At(ACCELERATOR_COUNT) == p.expected.At(ACCELERATOR_COUNT).Floor as real
    && p.observed.At(ACCELERATOR_COUNT) == p.observed.At(ACCELERATOR_COUNT).Floor as real
  }

  ghost predicate WholeHistory(s: State) {
    forall p | p in s.history :: WholePrediction(p)
  }

  lemma SamePredictionBytes(p: Prediction, v: Persistence.Forecast, q: Prediction, w: Persistence.Forecast)
    requires WritesPrediction(p, v) && WritesPrediction(q, w) && PredictionCoreOf(p) == PredictionCoreOf(q)
    requires WholePrediction(p) && WholePrediction(q)
    ensures Persistence.EncForecast(v) == Persistence.EncForecast(w)
  {
    ValueHasOneWord(v.expected, w.expected);
    ValueHasOneWord(v.observed, w.observed);
  }

  lemma {:induction false} SameItemBytes<T>(xs: seq<T>, ys: seq<T>, enc: T -> Bytes)
    requires |xs| == |ys| && forall i | 0 <= i < |xs| :: enc(xs[i]) == enc(ys[i])
    ensures Persistence.EncMany(xs, enc) == Persistence.EncMany(ys, enc)
    ensures Persistence.EncItems(xs, enc) == Persistence.EncItems(ys, enc)
  {
    if xs != [] {
      SameItemBytes(xs[1..], ys[1..], enc);
    }
  }

  ghost predicate Lists(ds: seq<Persistence.DurableResource>, id: nat) {
    exists i :: 0 <= i < |ds| && ds[i].id == id
  }

  ghost predicate SameIds(xs: seq<Persistence.DurableResource>, ys: seq<Persistence.DurableResource>) {
    forall id: nat :: Lists(xs, id) <==> Lists(ys, id)
  }

  // Lists in order with the same ids have the same id at every place.
  lemma {:induction false} SamePlaces(xs: seq<Persistence.DurableResource>, ys: seq<Persistence.DurableResource>)
    requires SavedInOrder(xs) && SavedInOrder(ys) && SameIds(xs, ys)
    ensures |xs| == |ys| && forall i | 0 <= i < |xs| :: xs[i].id == ys[i].id
  {
    if xs == [] {
      if ys != [] { assert Lists(ys, ys[0].id); }
    } else {
      assert Lists(xs, xs[0].id);
      FirstSame(xs, ys);
      RestIds(xs);
      RestIds(ys);
      SamePlaces(xs[1..], ys[1..]);
    }
  }

  lemma FirstSame(xs: seq<Persistence.DurableResource>, ys: seq<Persistence.DurableResource>)
    requires SavedInOrder(xs) && SavedInOrder(ys) && SameIds(xs, ys) && xs != []
    ensures ys != [] && xs[0].id == ys[0].id
  {
    assert Lists(xs, xs[0].id);
    assert Lists(ys, xs[0].id);
    var j :| 0 <= j < |ys| && ys[j].id == xs[0].id;
    assert Lists(ys, ys[0].id);
    assert Lists(xs, ys[0].id);
    var i :| 0 <= i < |xs| && xs[i].id == ys[0].id;
  }

  lemma RestIds(xs: seq<Persistence.DurableResource>)
    requires SavedInOrder(xs) && xs != []
    ensures forall id: nat :: Lists(xs[1..], id) <==> id != xs[0].id && Lists(xs, id)
  {
    forall id: nat ensures Lists(xs[1..], id) <==> id != xs[0].id && Lists(xs, id) {
      if Lists(xs[1..], id) {
        var i :| 0 <= i < |xs[1..]| && xs[1..][i].id == id;
        assert xs[i + 1].id == id;
      }
      if id != xs[0].id && Lists(xs, id) {
        var i :| 0 <= i < |xs| && xs[i].id == id;
        assert xs[1..][i - 1].id == id;
      }
    }
  }

  lemma SameResourceSections(s: State, d: Persistence.Durable, t: State, e: Persistence.Durable)
    requires Writes(s, d) && Writes(t, e) && SameCore(t, s)
    ensures Persistence.EncMany(d.resources, Persistence.EncDurable)
            == Persistence.EncMany(e.resources, Persistence.EncDurable)
  {
    SameMapBytes(s.resources, d.resources, t.resources, e.resources);
  }

  lemma SameMapBytes(m: map<nat, Resource>, xs: seq<Persistence.DurableResource>,
                     n: map<nat, Resource>, ys: seq<Persistence.DurableResource>)
    requires SavedInOrder(xs) && SavedInOrder(ys) && WritesAll(m, xs) && WritesAll(n, ys)
    requires m.Keys == n.Keys && forall id | id in m :: CoreOf(n[id]) == CoreOf(m[id])
    ensures Persistence.EncMany(xs, Persistence.EncDurable) == Persistence.EncMany(ys, Persistence.EncDurable)
  {
    forall id: nat ensures Lists(xs, id) <==> Lists(ys, id) {
      assert Lists(xs, id) <==> id in m.Keys;
      assert Lists(ys, id) <==> id in n.Keys;
    }
    SamePlaces(xs, ys);
    forall i | 0 <= i < |xs| ensures Persistence.EncDurable(xs[i]) == Persistence.EncDurable(ys[i]) {
      assert xs[i].id in m;
      SameResourceBytes(m[xs[i].id], xs[i], n[xs[i].id], ys[i]);
    }
    SameItemBytes(xs, ys, Persistence.EncDurable);
  }

  lemma SameListSections(s: State, d: Persistence.Durable, t: State, e: Persistence.Durable)
    requires Writes(s, d) && Writes(t, e) && SameCore(t, s)
    ensures Persistence.EncMany(d.reservations, EncReservation) == Persistence.EncMany(e.reservations, EncReservation)
    ensures Persistence.EncMany(d.releases, EncRelease) == Persistence.EncMany(e.releases, EncRelease)
  {
    forall i | 0 <= i < |d.reservations|
      ensures EncReservation(d.reservations[i]) == EncReservation(e.reservations[i])
    {
      SameReservationBytes(s.reservations[i], d.reservations[i], t.reservations[i], e.reservations[i]);
    }
    SameItemBytes(d.reservations, e.reservations, EncReservation);
    forall i | 0 <= i < |d.releases| ensures EncRelease(d.releases[i]) == EncRelease(e.releases[i]) {
      SameReleaseBytes(s.releases[i], d.releases[i], t.releases[i], e.releases[i]);
    }
    SameItemBytes(d.releases, e.releases, EncRelease);
  }

  lemma SameHistorySection(s: State, d: Persistence.Durable, t: State, e: Persistence.Durable)
    requires Writes(s, d) && Writes(t, e) && SameCore(t, s) && WholeHistory(s) && WholeHistory(t)
    ensures Persistence.EncMany(d.history, Persistence.EncForecast)
            == Persistence.EncMany(e.history, Persistence.EncForecast)
  {
    forall i | 0 <= i < |d.history|
      ensures Persistence.EncForecast(d.history[i]) == Persistence.EncForecast(e.history[i])
    {
      assert s.history[i] in s.history && t.history[i] in t.history;
      SamePredictionBytes(s.history[i], d.history[i], t.history[i], e.history[i]);
    }
    SameItemBytes(d.history, e.history, Persistence.EncForecast);
  }

  // The file is a function of the durable part: states with the same one are saved alike.
  lemma DurablePartDecidesFile(s: State, d: Persistence.Durable, t: State, e: Persistence.Durable)
    requires Writes(s, d) && Writes(t, e) && SameCore(t, s) && WholeHistory(s) && WholeHistory(t)
    ensures Persistence.Save(d) == Persistence.Save(e)
  {
    SameResourceSections(s, d, t, e);
    SameListSections(s, d, t, e);
    SameHistorySection(s, d, t, e);
    assert d.epoch == e.epoch;
    assert Persistence.EncBody(d) == Persistence.EncBody(e);
  }

  lemma WholeBack(p: Prediction, f: Persistence.Forecast)
    requires WritesPrediction(p, f)
    ensures WholePrediction(RecoveredPrediction(Persistence.Whole(f)))
  {
    AmountBack(p.expected.At(ACCELERATOR_COUNT), f.expected);
    AmountBack(p.observed.At(ACCELERATOR_COUNT), f.observed);
  }

  lemma LoadedHistoryWhole(s: State, d: Persistence.Durable, u: State, l: Persistence.Loaded)
    requires Writes(s, d) && l == Persistence.AllLoaded(Persistence.Recovered(d))
    ensures WholeHistory(AfterLoad(u, l))
  {
    var t := AfterLoad(u, l);
    assert t.history == Persistence.Mapped(Persistence.Mapped(d.history, Persistence.Whole), RecoveredPrediction);
    WholeBacks(s.history, d.history, t.history);
  }

  lemma WholeBacks(ps: seq<Prediction>, fs: seq<Persistence.Forecast>, back: seq<Prediction>)
    requires |fs| == |ps| && forall i | 0 <= i < |fs| :: WritesPrediction(ps[i], fs[i])
    requires |back| == |fs| && forall i | 0 <= i < |fs| :: back[i] == RecoveredPrediction(Persistence.Whole(fs[i]))
    ensures forall p | p in back :: WholePrediction(p)
  {
    forall i | 0 <= i < |back| ensures WholePrediction(back[i]) {
      WholeBack(ps[i], fs[i]);
    }
  }

  // Save, restart, save: the model writes the same file again, byte for byte, when the
  // amounts it had predicted were whole.
  lemma SaveAfterRestart(s: State, d: Persistence.Durable, u: State, e: Persistence.Durable)
    requires Writes(s, d) && Persistence.Loadable(d) && WholeHistory(s)
    ensures var t := Apply(u, Load(Persistence.Save(d))).0;
            |Persistence.Save(d)| <= Persistence.MAX_FILE && Writes(t, e) ==>
              Persistence.Save(e) == Persistence.Save(d)
  {
    var l := Persistence.AllLoaded(Persistence.Recovered(d));
    LoadOfSaved(u, d);
    if Writes(AfterLoad(u, l), e) {
      SavedAlike(s, d, u, l, e);
    }
  }

  lemma SavedAlike(s: State, d: Persistence.Durable, u: State, l: Persistence.Loaded, e: Persistence.Durable)
    requires Writes(s, d) && WholeHistory(s) && l == Persistence.AllLoaded(Persistence.Recovered(d))
    requires Writes(AfterLoad(u, l), e)
    ensures Persistence.Save(e) == Persistence.Save(d)
  {
    RecoveredHasCore(s, d, u, l);
    LoadedHistoryWhole(s, d, u, l);
    DurablePartDecidesFile(s, d, AfterLoad(u, l), e);
  }

  // --- Generations across a restart -------------------------------------------------------

  // Every saved reservation has a valid generation, and no id is saved twice.
  ghost predicate ValidReservations(rs: seq<Reservation>) {
    (forall r | r in rs :: r.generation != 0) && UniqueIds(rs)
  }

  // What the tracker holds for an id once records with these ids and generations are read.
  lemma {:induction false} TrackedAfter(gen: Generations, ws: seq<WireReservation>, id: nat)
    requires forall w | w in ws :: w.generation != 0
    requires forall i, j | 0 <= i < j < |ws| :: ws[i].id != ws[j].id
    ensures (forall w | w in ws :: w.id != id) ==> Current(AdvancedAll(gen, ws), id) == Current(gen, id)
    ensures forall w | w in ws && w.id == id ::
              Current(AdvancedAll(gen, ws), id)
              == if w.generation < Current(gen, id) then Current(gen, id) else w.generation
  {
    if ws != [] {
      var n := |ws| - 1;
      var init, last := ws[..n], ws[n];
      assert last in ws && forall w | w in init :: w in ws;
      assert forall w | w in ws :: w in init || w == last;
      TrackedAfter(gen, init, id);
      if last.id == id {
        assert forall w | w in init :: w.id != id;
      }
    }
  }

  lemma CarriedKeepsIds(ws: seq<WireReservation>, i: nat)
    requires i < |ws|
    ensures Persistence.Mapped(ws, Carried)[i].id == ws[i].id
    ensures Persistence.Mapped(ws, Carried)[i].generation == ws[i].generation
  {
  }

  // From tracker gen, reading these records has led to now, as far as id is concerned.
  ghost predicate Tracks(rs: seq<Reservation>, id: nat, gen: Generations, now: Generations) {
    && ((forall r | r in rs :: r.id != id) ==> Current(now, id) == Current(gen, id))
    && (forall r | r in rs && r.id == id ::
          Current(now, id) == if r.generation < Current(gen, id) then Current(gen, id) else r.generation)
  }

  lemma LoadedTracker(s: State, d: Persistence.Durable, u: State, l: Persistence.Loaded, id: nat)
    requires Writes(s, d) && ValidReservations(s.reservations)
    requires l == Persistence.AllLoaded(Persistence.Recovered(d))
    ensures Tracks(s.reservations, id, u.reservationGen, AfterLoad(u, l).reservationGen)
  {
    var ws := Persistence.Mapped(d.reservations, Carried);
    RecordsTracked(s.reservations, d.reservations, ws, u.reservationGen, id);
    assert AfterLoad(u, l).reservationGen == AdvancedAll(u.reservationGen, ws);
  }

  lemma RecordsTracked(rs: seq<Reservation>, ds: seq<WireReservation>, ws: seq<WireReservation>,
                       gen: Generations, id: nat)
    requires |ds| == |rs| && ws == Persistence.Mapped(ds, Carried) && ValidReservations(rs)
    requires forall i | 0 <= i < |ds| :: WritesReservation(rs[i], ds[i])
    ensures Tracks(rs, id, gen, AdvancedAll(gen, ws))
  {
    SavedIds(rs, ds, ws);
    TrackedAfter(gen, ws, id);
    forall r | r in rs && r.id == id
      ensures Current(AdvancedAll(gen, ws), id)
              == if r.generation < Current(gen, id) then Current(gen, id) else r.generation
    {
      var i :| 0 <= i < |rs| && rs[i] == r;
      assert ws[i] in ws && ws[i].id == id;
    }
  }

  lemma SavedIds(rs: seq<Reservation>, ds: seq<WireReservation>, ws: seq<WireReservation>)
    requires |ds| == |rs| && ws == Persistence.Mapped(ds, Carried)
    requires forall i | 0 <= i < |ds| :: WritesReservation(rs[i], ds[i])
    requires ValidReservations(rs)
    ensures forall i | 0 <= i < |rs| :: ws[i].id == rs[i].id && ws[i].generation == rs[i].generation
    ensures forall w | w in ws :: w.generation != 0 && exists r | r in rs :: r.id == w.id
    ensures forall i, j | 0 <= i < j < |ws| :: ws[i].id != ws[j].id
  {
    forall i | 0 <= i < |rs| ensures ws[i].id == rs[i].id && ws[i].generation == rs[i].generation && rs[i] in rs {
      CarriedKeepsIds(ds, i);
      assert WritesReservation(rs[i], ds[i]);
    }
  }

  // A load sets the tracker of each saved reservation to the saved generation, or leaves it
  // where it is already further, and no other tracker moves.
  lemma LoadTracksReservations(s: State, d: Persistence.Durable, u: State, id: nat)
    requires Writes(s, d) && Persistence.Loadable(d) && ValidReservations(s.reservations)
    ensures var t := Apply(u, Load(Persistence.Save(d))).0;
            |Persistence.Save(d)| <= Persistence.MAX_FILE ==>
              Tracks(s.reservations, id, u.reservationGen, t.reservationGen)
  {
    LoadOfSaved(u, d);
    LoadedTracker(s, d, u, Persistence.AllLoaded(Persistence.Recovered(d)), id);
  }

  lemma {:induction false} TrackerNeverFalls(s: State, steps: seq<Step>, id: nat)
    requires NoLoad(steps)
    ensures Current(s.reservationGen, id) <= Current(Run(s, steps).reservationGen, id)
  {
    if steps != [] {
      var init, last := steps[..|steps| - 1], steps[|steps| - 1];
      assert last in steps;
      TrackerNeverFalls(s, init, id);
      StepNeverLowers(Run(s, init), last);
    }
  }

  // After a restart from a saved state, and in every later run without a load, a reservation
  // older than the saved one is refused and changes nothing.
  lemma OlderReservationRefused(s: State, d: Persistence.Durable, u: State, steps: seq<Step>,
                                saved: Reservation, r: Reservation)
    requires Writes(s, d) && Persistence.Loadable(d) && ValidReservations(s.reservations)
    requires saved in s.reservations && r.id == saved.id && r.generation < saved.generation
    requires NoLoad(steps)
    ensures var t := Run(Apply(u, Load(Persistence.Save(d))).0, steps);
            |Persistence.Save(d)| <= Persistence.MAX_FILE ==> Apply(t, PublishReservation(r)) == (t, false)
  {
    var t := Apply(u, Load(Persistence.Save(d))).0;
    LoadTracksReservations(s, d, u, r.id);
    TrackerNeverFalls(t, steps, r.id);
    RefusedBelow(Run(t, steps), r);
  }

  lemma RefusedBelow(s: State, r: Reservation)
    ensures r.generation < Current(s.reservationGen, r.id) ==> Apply(s, PublishReservation(r)) == (s, false)
  {
  }
}
