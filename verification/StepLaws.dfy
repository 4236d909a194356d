/** When the model accepts each step, what it changes and what it leaves alone, told by the
    fields of the state (src/model/model.cpp). */
module StepLaws {
  import opened Capacities
  import opened Timelines
  import opened Fleet
  import opened Authority
  import opened Payload
  import Persistence
  import LoadExact

  // --- Workers ----------------------------------------------------------------------------

  // Everything but the registrations.
  ghost predicate SameRecords(t: State, s: State) {
    && t.epoch == s.epoch && t.recovered == s.recovered && t.resources == s.resources
    && t.resourceGen == s.resourceGen && t.reservationGen == s.reservationGen
    && t.reservations == s.reservations && t.releases == s.releases && t.history == s.history
    && t.devices == s.devices && t.healthGen == s.healthGen
  }

  // Worker x is registered in t as in s.
  ghost predicate SameSource(t: State, s: State, x: nat) {
    (x in t.sources <==> x in s.sources) && (x in s.sources ==> t.sources[x] == s.sources[x])
  }

  // A registration is accepted exactly when worker and boot are valid and the worker is not
  // alive under another boot; then that boot is live, and no other worker is touched.
  lemma RegisterLaw(s: State, w: nat, b: nat)
    ensures var (t, ok) := Apply(s, Register(w, b));
            && (ok <==> w != 0 && b != 0 && !(w in s.sources && s.sources[w].alive && s.sources[w].bootId != b))
            && (ok ==> w in t.sources && t.sources[w].alive && t.sources[w].bootId == b)
            && (!ok ==> t == s)
            && SameRecords(t, s) && forall x | x != w :: SameSource(t, s, x)
  {
  }

  // A death leaves the worker registered under its boot, but not alive, and no other worker
  // is touched; an unknown worker can only be reported.
  lemma DeathLaw(s: State, w: nat, step: Step)
    requires step == MarkDead(w) || step == Unregister(w)
    ensures var (t, ok) := Apply(s, step);
            && (ok <==> step.MarkDead? || w in s.sources)
            && (w in s.sources ==> w in t.sources && !t.sources[w].alive && t.sources[w].bootId == s.sources[w].bootId)
            && (w !in s.sources ==> t == s)
            && SameRecords(t, s) && forall x | x != w :: SameSource(t, s, x)
  {
  }

  // --- Resources ----------------------------------------------------------------------------

  // A publication is accepted exactly when the worker is alive under the record's boot and
  // the generation is not below a valid tracked one; then the record and its generation are
  // what is stored, and no other resource is touched.
  lemma PublishLaw(s: State, r: Resource)
    ensures var (t, ok) := Apply(s, PublishResource(r));
            && (ok <==> && r.worker in s.sources && s.sources[r.worker].alive && s.sources[r.worker].bootId == r.bootId
                        && !(r.id in s.resourceGen && s.resourceGen[r.id] != 0 && r.generation < s.resourceGen[r.id]))
            && (ok ==> r.id in t.resources && t.resources[r.id] == r
                       && r.id in t.resourceGen && t.resourceGen[r.id] == r.generation)
            && (!ok ==> t == s)
            && (forall x | x != r.id :: (x in t.resources <==> x in s.resources)
                                        && (x in s.resources ==> t.resources[x] == s.resources[x]))
            && (forall x | x != r.id :: Current(t.resourceGen, x) == Current(s.resourceGen, x))
            && t.sources == s.sources && t.reservations == s.reservations && t.releases == s.releases
            && t.reservationGen == s.reservationGen && t.history == s.history
  {
  }

  // And the device is registered as the resource reports it, without flags and blocks; no
  // other device is touched.
  lemma PublishRegisters(s: State, r: Resource)
    ensures var (t, ok) := Apply(s, PublishResource(r));
            ok ==>
              && r.deviceId in t.devices
              && t.devices[r.deviceId] == Device(r.deviceId, r.nodeId, r.capability, Vram(r.nominal), Vram(r.free), [],
                                                 r.health, false, false)
              && forall x | x != r.deviceId :: (x in t.devices <==> x in s.devices)
                                               && (x in s.devices ==> t.devices[x] == s.devices[x])
  {
  }

  // The generation goes up by one: from none to 1, and no further than the last.
  lemma AdvanceLaw(s: State, id: nat)
    ensures var (t, ok) := Apply(s, AdvanceGeneration(id));
            var before := if id in s.resourceGen then s.resourceGen[id] else 0;
            && (ok <==> id in s.resources)
            && (ok ==> && id in t.resourceGen
                       && t.resourceGen[id] == (if before == MAX_U64 then MAX_U64 else before + 1)
                       && id in t.resources
                       && t.resources[id] == s.resources[id].(generation := t.resourceGen[id]))
            && (!ok ==> t == s)
            && (forall x | x != id :: (x in t.resources <==> x in s.resources)
                                      && (x in s.resources ==> t.resources[x] == s.resources[x]))
            && t.sources == s.sources && t.reservations == s.reservations && t.releases == s.releases
            && t.reservationGen == s.reservationGen && t.history == s.history && t.devices == s.devices
  {
    AdvanceNumber(s, id);
  }

  lemma AdvanceNumber(s: State, id: nat)
    ensures NextGeneration(Current(s.resourceGen, id)) >= Current(s.resourceGen, id)
  {
  }

  // --- Reservations and releases --------------------------------------------------------------

  lemma {:induction false} KeptReservations(rs: seq<Reservation>, id: nat, x: Reservation)
    ensures multiset(WithoutReservation(rs, id))[x] == if x.id == id then 0 else multiset(rs)[x]
  {
    if rs != [] {
      var init, last := rs[..|rs| - 1], rs[|rs| - 1];
      assert rs == init + [last];
      KeptReservations(init, id, x);
    }
  }

  lemma Replaced(rs: seq<Reservation>, r: Reservation, x: Reservation)
    ensures multiset(WithoutReservation(rs, r.id) + [r])[x]
            == if x.id != r.id then multiset(rs)[x] else if x == r then 1 else 0
  {
    KeptReservations(rs, r.id, x);
  }

  // A reservation is accepted exactly when its generation is not below a valid tracked one;
  // then that is what is tracked, and no other tracker moves.
  lemma ReservationLaw(s: State, r: Reservation)
    ensures var (t, ok) := Apply(s, PublishReservation(r));
            && (ok <==> !(r.id in s.reservationGen && s.reservationGen[r.id] != 0
                          && r.generation < s.reservationGen[r.id]))
            && (ok ==> r.id in t.reservationGen && t.reservationGen[r.id] == r.generation)
            && (!ok ==> t == s)
            && (forall i | i != r.id :: Current(t.reservationGen, i) == Current(s.reservationGen, i))
            && t == s.(reservations := t.reservations, reservationGen := t.reservationGen)
  {
  }

  // It is then the only reservation of its id, and those of other ids stay.
  lemma ReservationReplaces(s: State, r: Reservation, x: Reservation)
    ensures var (t, ok) := Apply(s, PublishReservation(r));
            ok ==> multiset(t.reservations)[x]
                   == if x.id != r.id then multiset(s.reservations)[x] else if x == r then 1 else 0
  {
    Replaced(s.reservations, r, x);
  }

  lemma {:induction false} KeptReleases(es: seq<Release>, source: nat, x: Release)
    ensures multiset(OtherReleases(es, source))[x] == if x.sourceId == source then 0 else multiset(es)[x]
  {
    if es != [] {
      var init, last := es[..|es| - 1], es[|es| - 1];
      assert es == init + [last];
      KeptReleases(init, source, x);
    }
  }

  lemma ReplacedRelease(es: seq<Release>, e: Release, x: Release)
    ensures multiset(OtherReleases(es, e.sourceId) + [e])[x]
            == if x.sourceId != e.sourceId then multiset(es)[x] else if x == e then 1 else 0
  {
    KeptReleases(es, e.sourceId, x);
  }

  // A release is always accepted; it is then the only one of its source, and those of other
  // sources stay.
  lemma ReleaseLaw(s: State, e: Release, x: Release)
    ensures var (t, ok) := Apply(s, PublishRelease(e));
            && ok
            && multiset(t.releases)[x]
               == (if x.sourceId != e.sourceId then multiset(s.releases)[x] else if x == e then 1 else 0)
            && t == s.(releases := t.releases)
  {
    ReplacedRelease(s.releases, e, x);
  }

  // --- Predictions and health -------------------------------------------------------------------

  // A forecast is appended without an observation.
  lemma ForecastLaw(s: State, at: TimePoint, expected: Amounts)
    ensures var (t, ok) := Apply(s, RecordForecast(at, expected));
            ok && t == s.(history := t.history) && t.history == s.history + [Prediction(at, expected, NOTHING)]
  {
  }

  // Prediction i is the first one for its time.
  ghost predicate IsFirst(ps: seq<Prediction>, at: TimePoint, i: nat) {
    i < |ps| && ps[i].at == at && forall j | 0 <= j < i :: ps[j].at != at
  }

  lemma ObservedIs(ps: seq<Prediction>, at: TimePoint, observed: Amounts)
    ensures |Observed(ps, at, observed)| == |ps|
    ensures forall i | 0 <= i < |ps| ::
              Observed(ps, at, observed)[i]
              == if IsFirst(ps, at, i) then Prediction(at, ps[i].expected, observed) else ps[i]
  {
    if i: nat :| IsFirst(ps, at, i) {
      ObservedFirst(ps, i, at, observed);
    } else {
      NoFirst(ps, at, |ps|);
      ObservedNone(ps, at, observed);
    }
  }

  // An observation completes the first forecast for its time, whatever stood there before,
  // and no other.
  lemma ObservationLaw(s: State, at: TimePoint, observed: Amounts)
    ensures var (t, ok) := Apply(s, RecordObserved(at, observed));
            && ok && t == s.(history := t.history) && |t.history| == |s.history|
            && forall i | 0 <= i < |s.history| ::
                 t.history[i] == if IsFirst(s.history, at, i) then Prediction(at, s.history[i].expected, observed)
                                 else s.history[i]
  {
    ObservedIs(s.history, at, observed);
  }

  lemma {:induction false} NoFirst(ps: seq<Prediction>, at: TimePoint, n: nat)
    requires n <= |ps|
    requires forall i: nat :: !IsFirst(ps, at, i)
    ensures forall i | 0 <= i < n :: ps[i].at != at
  {
    if n > 0 {
      NoFirst(ps, at, n - 1);
      assert !IsFirst(ps, at, n - 1);
    }
  }

  // A health report is accepted exactly when its generation is not below a valid tracked one;
  // it then changes the health of that device, if it is registered, and no other.
  lemma HealthLaw(s: State, id: nat, health: Health, gen: U64)
    ensures var (t, ok) := Apply(s, SetHealth(id, health, gen));
            && (ok <==> !(id in s.healthGen && s.healthGen[id] != 0 && gen < s.healthGen[id]))
            && (ok ==> id in t.healthGen && t.healthGen[id] == gen)
            && (ok && id in s.devices ==> id in t.devices && t.devices[id] == s.devices[id].(health := health))
            && (!ok ==> t == s)
            && t.devices.Keys == s.devices.Keys
            && (forall x | x in s.devices && x != id :: t.devices[x] == s.devices[x])
            && t == s.(devices := t.devices, healthGen := t.healthGen)
  {
  }

  // --- Loads --------------------------------------------------------------------------------------

  // A load, however it ends, touches neither the registrations, the resource and health
  // trackers nor the registered devices; and only a successful one marks the state recovered.
  lemma LoadLaw(s: State, bytes: Bytes)
    ensures var (t, ok) := Apply(s, Load(bytes));
            && t.sources == s.sources && t.resourceGen == s.resourceGen && t.healthGen == s.healthGen
            && t.devices == s.devices
            && (ok <==> Persistence.Load(bytes).status.Ok?) && (t.recovered <==> s.recovered || ok)
  {
    LoadIs(s, bytes, Persistence.Load(bytes));
  }

  // It is accepted exactly when a save of some state, within the read limit, wrote the bytes.
  lemma LoadAcceptedIff(s: State, bytes: Bytes)
    ensures Apply(s, Load(bytes)).1
            <==> |bytes| <= Persistence.MAX_FILE
                 && exists d :: Persistence.Loadable(d) && bytes == Persistence.Save(d)
  {
    LoadIs(s, bytes, Persistence.Load(bytes));
    LoadExact.LoadsExactlySaved(bytes);
  }
}
