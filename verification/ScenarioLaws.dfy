/** What each action of a scenario does to the view, told by the view's own fields
    (include/capacity_fabric/scenario/scenario.hpp). */
module ScenarioLaws {
  import opened Capacities
  import opened Timelines
  import opened Sums
  import opened Fleet
  import opened Forecasts
  import opened Feasibility
  import opened Scenarios

  // One action on a view, re-aggregated.
  lemma OneAction(v: View, a: Action)
    ensures Applied(v, [a]) == Aggregated(Act(v, a)) && Applied(v, []) == Aggregated(v)
  {
    ActLast(v, [], a);
    assert [] + [a] == [a];
    AppliedOf(v, [a], Act(v, a));
  }

  // What is not named by an action stays.
  ghost predicate SameEvidence(w: View, v: View) {
    && w.releases == v.releases && w.maintenance == v.maintenance && w.now == v.now
    && w.freshness == v.freshness && w.staleDynamic == v.staleDynamic
  }

  // --- Re-aggregation -------------------------------------------------------------------

  // Usable for a scenario: neither failed nor of unknown health, nor drained, nor under
  // maintenance.
  predicate LooksUsable(r: Resource) {
    r.health != 4 && r.health != 5 && !r.drained && !r.maintenance
  }

  function UsableFree(d: Dimension): Resource -> real {
    (r: Resource) => if LooksUsable(r) then r.free.At(d) else 0.0
  }

  function NominalOf(d: Dimension): Resource -> real {
    (r: Resource) => r.nominal.At(d)
  }

  function CommittedOf(d: Dimension): Resource -> real {
    (r: Resource) => r.committed.At(d)
  }

  function UnavailableOf(d: Dimension): Resource -> real {
    (r: Resource) => r.unavailable.At(d)
  }

  lemma {:induction false} TotalsAt(rs: seq<Resource>, d: Dimension)
    ensures TotalsOf(rs).available.At(d) == SumBy(rs, UsableFree(d))
    ensures TotalsOf(rs).nominal.At(d) == SumBy(rs, NominalOf(d))
    ensures TotalsOf(rs).committed.At(d) == SumBy(rs, CommittedOf(d))
    ensures TotalsOf(rs).unavailable.At(d) == SumBy(rs, UnavailableOf(d))
  {
    if rs != [] {
      var init, r := rs[..|rs| - 1], rs[|rs| - 1];
      TotalsAt(init, d);
      SumAt(TotalsOf(init).available, r.free, d);
      SumAt(TotalsOf(init).nominal, r.nominal, d);
      SumAt(TotalsOf(init).committed, r.committed, d);
      SumAt(TotalsOf(init).unavailable, r.unavailable, d);
    }
  }

  lemma {:induction false} TotalsDevices(rs: seq<Resource>)
    ensures |TotalsOf(rs).devices| == |rs|
    ensures forall i | 0 <= i < |rs| :: StandsFor(TotalsOf(rs).devices[i], rs[i])
  {
    if rs != [] { TotalsDevices(rs[..|rs| - 1]); }
  }

  // The device shows what the resource reports, flags included.
  ghost predicate StandsFor(dev: Device, r: Resource) {
    && dev.id == r.deviceId && dev.nodeId == r.nodeId && dev.capability == r.capability
    && dev.vramTotal == Vram(r.nominal) && dev.vramFree == Vram(r.free) && dev.freeBlocks == r.freeBlocks
    && dev.health == r.health && dev.drained == r.drained && dev.maintenance == r.maintenance
  }

  // After any scenario every total is the sum over the resources that are left.
  lemma ScenarioTotals(v: View, actions: seq<Action>, d: Dimension)
    ensures var w := Applied(v, actions);
            && w.available.At(d) == SumBy(w.resources, UsableFree(d))
            && w.nominal.At(d) == SumBy(w.resources, NominalOf(d))
            && w.committed.At(d) == SumBy(w.resources, CommittedOf(d))
            && w.unavailable.At(d) == SumBy(w.resources, UnavailableOf(d))
            && w.synthetic
  {
    AggregatedTotals(ActAll(v, actions), d);
  }

  lemma AggregatedTotals(x: View, d: Dimension)
    ensures var w := Aggregated(x);
            && w.available.At(d) == SumBy(w.resources, UsableFree(d))
            && w.nominal.At(d) == SumBy(w.resources, NominalOf(d))
            && w.committed.At(d) == SumBy(w.resources, CommittedOf(d))
            && w.unavailable.At(d) == SumBy(w.resources, UnavailableOf(d))
  {
    TotalsAt(x.resources, d);
  }

  // What is in use is what the three other totals leave of the nominal.
  lemma UseIsRest(nominal: Amounts, available: Amounts, committed: Amounts, unavailable: Amounts, d: Dimension)
    requires nominal.NonNegative()
    ensures CurrentUse(nominal, available, committed, unavailable).At(d)
            == Max0(Max0(Max0(nominal.At(d) - available.At(d)) - committed.At(d)) - unavailable.At(d))
  {
    var rest := Monus(nominal, available);
    Taken(nominal, available, d);
    Taken(rest, committed, d);
    Taken(Monus(rest, committed), unavailable, d);
  }

  lemma Taken(a: Amounts, b: Amounts, d: Dimension)
    requires a.NonNegative()
    ensures Monus(a, b).NonNegative() && Monus(a, b).At(d) == Max0(a.At(d) - b.At(d))
  {
  }

  lemma ScenarioUse(v: View, actions: seq<Action>, d: Dimension)
    ensures var w := Applied(v, actions);
            w.nominal.NonNegative() ==>
              w.currentUse.At(d) == Max0(Max0(Max0(w.nominal.At(d) - w.available.At(d)) - w.committed.At(d))
                                         - w.unavailable.At(d))
  {
    AggregatedUse(ActAll(v, actions), d);
  }

  lemma AggregatedUse(x: View, d: Dimension)
    ensures var w := Aggregated(x);
            w.nominal.NonNegative() ==>
              w.currentUse.At(d) == Max0(Max0(Max0(w.nominal.At(d) - w.available.At(d)) - w.committed.At(d))
                                         - w.unavailable.At(d))
  {
    var t := TotalsOf(x.resources);
    if t.nominal.NonNegative() { UseIsRest(t.nominal, t.available, t.committed, t.unavailable, d); }
  }

  lemma ScenarioDevices(v: View, actions: seq<Action>)
    ensures var w := Applied(v, actions);
            |w.devices| == |w.resources|
            && forall i | 0 <= i < |w.devices| :: StandsFor(w.devices[i], w.resources[i])
  {
    TotalsDevices(Applied(v, actions).resources);
  }

  // --- Reservations -------------------------------------------------------------------------

  lemma {:induction false} WithoutCounts(rs: seq<Reservation>, id: nat, r: Reservation)
    ensures multiset(WithoutReservation(rs, id))[r] == if r.id == id then 0 else multiset(rs)[r]
  {
    if rs != [] {
      var init, last := rs[..|rs| - 1], rs[|rs| - 1];
      assert rs == init + [last];
      WithoutCounts(init, id, r);
    }
  }

  // Cancelling takes away every reservation of the id and no other.
  lemma CancelErases(v: View, id: nat, r: Reservation)
    ensures var w := Applied(v, [CancelReservation(id)]);
            && multiset(w.reservations)[r] == (if r.id == id then 0 else multiset(v.reservations)[r])
            && w.resources == v.resources && SameEvidence(w, v)
  {
    OneAction(v, CancelReservation(id));
    WithoutCounts(v.reservations, id, r);
  }

  // Adding a reservation adds exactly one.
  lemma AddReservationAdds(v: View, r: Reservation)
    ensures var w := Applied(v, [AddReservation(r)]);
            && multiset(w.reservations) == multiset(v.reservations) + multiset{r}
            && w.resources == v.resources && SameEvidence(w, v)
  {
    OneAction(v, AddReservation(r));
  }

  // What the active hard holds of one id take.
  function TakenOfFn(d: Dimension, now: int, id: nat): Reservation -> real {
    (r: Reservation) => if r.id == id then TakenFn(d, now)(r) else 0.0
  }

  lemma {:induction false} WithoutTakes(rs: seq<Reservation>, id: nat, d: Dimension, now: int)
    ensures SumBy(WithoutReservation(rs, id), TakenFn(d, now))
            == SumBy(rs, TakenFn(d, now)) - SumBy(rs, TakenOfFn(d, now, id))
  {
    if rs != [] {
      var init, last := rs[..|rs| - 1], rs[|rs| - 1];
      WithoutTakes(init, id, d, now);
      if last.id != id {
        SumByOne(WithoutReservation(init, id), last, TakenFn(d, now));
      }
    }
  }

  lemma EffectiveWithout(available: Amounts, rs: seq<Reservation>, id: nat, now: int, d: Dimension)
    requires available.NonNegative()
    ensures Effective(available, WithoutReservation(rs, id), now).At(d)
            == Max0(available.At(d) - (SumBy(rs, TakenFn(d, now)) - SumBy(rs, TakenOfFn(d, now, id))))
  {
    WithoutTakes(rs, id, d, now);
    EffectiveAt(available, WithoutReservation(rs, id), now, d);
  }

  // The effective capacity after cancelling: what the holds of that id took comes back,
  // before the clamp.
  lemma CancelGivesBack(v: View, id: nat, d: Dimension)
    requires Applied(v, []).available.NonNegative()
    ensures var w := Applied(v, [CancelReservation(id)]);
            Effective(w.available, w.reservations, w.now).At(d)
            == Max0(Applied(v, []).available.At(d)
                    - (SumBy(v.reservations, TakenFn(d, v.now)) - SumBy(v.reservations, TakenOfFn(d, v.now, id))))
  {
    OneAction(v, CancelReservation(id));
    EffectiveWithout(Applied(v, []).available, v.reservations, id, v.now, d);
  }

  // What a hold takes of a dimension while it is hard and active: its size.
  function Takes(r: Reservation, now: int, d: Dimension): real {
    if r.strength == 0 && r.interval.start <= now < r.interval.end then Abs(r.hold.At(d)) else 0.0
  }

  lemma EffectiveWith(available: Amounts, rs: seq<Reservation>, r: Reservation, now: int, d: Dimension)
    requires available.NonNegative()
    ensures Effective(available, rs + [r], now).At(d)
            == Max0(available.At(d) - (SumBy(rs, TakenFn(d, now)) + Takes(r, now, d)))
  {
    SumByOne(rs, r, TakenFn(d, now));
    EffectiveAt(available, rs + [r], now, d);
  }

  // And after adding a hold: it takes its size while it is hard and active.
  lemma AddReservationTakes(v: View, r: Reservation, d: Dimension)
    requires Applied(v, []).available.NonNegative()
    ensures var w := Applied(v, [AddReservation(r)]);
            Effective(w.available, w.reservations, w.now).At(d)
            == Max0(Applied(v, []).available.At(d)
                    - (SumBy(v.reservations, TakenFn(d, v.now)) + Takes(r, v.now, d)))
  {
    OneAction(v, AddReservation(r));
    EffectiveWith(Applied(v, []).available, v.reservations, r, v.now, d);
  }

  // --- Resources ------------------------------------------------------------------------------

  lemma {:induction false} WithoutResourceCounts(rs: seq<Resource>, id: U64, r: Resource)
    ensures multiset(WithoutResource(rs, id))[r] == if r.id == id then 0 else multiset(rs)[r]
  {
    if rs != [] {
      var init, last := rs[..|rs| - 1], rs[|rs| - 1];
      assert rs == init + [last];
      WithoutResourceCounts(init, id, r);
    }
  }

  // Removing takes away every resource of the id and no other.
  lemma RemoveErases(v: View, id: U64, r: Resource)
    ensures var w := Applied(v, [RemoveResource(id)]);
            && multiset(w.resources)[r] == (if r.id == id then 0 else multiset(v.resources)[r])
            && w.reservations == v.reservations && SameEvidence(w, v)
  {
    OneAction(v, RemoveResource(id));
    WithoutResourceCounts(v.resources, id, r);
  }

  // Adding appends the resource, with its device, and what it has free if it is usable.
  lemma AddResourceAdds(v: View, r: Resource, d: Dimension)
    ensures var w := Applied(v, [AddResource(r)]);
            && w.resources == v.resources + [r]
            && w.available.At(d)
               == Applied(v, []).available.At(d) + (if LooksUsable(r) then r.free.At(d) else 0.0)
            && (exists dev :: dev in w.devices && StandsFor(dev, r))
            && w.reservations == v.reservations && SameEvidence(w, v)
  {
    OneAction(v, AddResource(r));
    TotalsAt(v.resources, d);
    TotalsAt(v.resources + [r], d);
    SumByOne(v.resources, r, UsableFree(d));
    TotalsDevices(v.resources + [r]);
    var w := Applied(v, [AddResource(r)]);
    assert w.devices[|v.resources|] in w.devices && StandsFor(w.devices[|v.resources|], r);
  }

  // --- Degrading ------------------------------------------------------------------------------

  // Some listed device is the one the resource is on.
  ghost predicate IsListed(v: View, r: Resource) {
    r.deviceId != 0 && exists dev :: dev in v.devices && dev.id == r.deviceId
  }

  // Whichever resource is named, every resource on a listed device fails and every other
  // one stays as it is.
  lemma DegradeFails(v: View, id: U64)
    ensures var w := Applied(v, [DegradeDevice(id)]);
            && |w.resources| == |v.resources|
            && (forall i | 0 <= i < |v.resources| ::
                  w.resources[i] == if IsListed(v, v.resources[i]) then v.resources[i].(health := 4)
                                    else v.resources[i])
            && w.reservations == v.reservations && SameEvidence(w, v)
  {
    OneAction(v, DegradeDevice(id));
  }

  ghost function UnlistedFree(v: View, d: Dimension): Resource -> real {
    (r: Resource) => if LooksUsable(r) && !IsListed(v, r) then r.free.At(d) else 0.0
  }

  lemma {:induction false} SameSums(xs: seq<Resource>, ys: seq<Resource>, f: Resource -> real, g: Resource -> real)
    requires |xs| == |ys| && forall i | 0 <= i < |xs| :: f(xs[i]) == g(ys[i])
    ensures SumBy(xs, f) == SumBy(ys, g)
  {
    if xs != [] { SameSums(xs[..|xs| - 1], ys[..|ys| - 1], f, g); }
  }

  // So what is left available is what the usable resources on no listed device have free.
  lemma DegradeLeaves(v: View, id: U64, d: Dimension)
    ensures Applied(v, [DegradeDevice(id)]).available.At(d) == SumBy(v.resources, UnlistedFree(v, d))
  {
    DegradeFails(v, id);
    ScenarioTotals(v, [DegradeDevice(id)], d);
    SameSums(Applied(v, [DegradeDevice(id)]).resources, v.resources, UsableFree(d), UnlistedFree(v, d));
  }

  // --- Releases, maintenance, headroom ------------------------------------------------------------

  // Delaying moves the three times of each release of the source, and nothing else.
  lemma DelayMoves(v: View, source: nat, delay: nat)
    ensures var w := Applied(v, [DelayRelease(source, delay)]);
            && |w.releases| == |v.releases|
            && (forall i | 0 <= i < |v.releases| ::
                  var (e, f) := (v.releases[i], w.releases[i]);
                  if e.sourceId != source then f == e
                  else f == Release(e.sourceId, e.time + delay, e.earliest + delay, e.latest + delay,
                                    e.release, e.confidence))
            && w.resources == v.resources && w.reservations == v.reservations
            && w.maintenance == v.maintenance && w.now == v.now && w.freshness == v.freshness
  {
    OneAction(v, DelayRelease(source, delay));
  }

  // What is credited by t when the releases of one source come delay later.
  function DelayedCreditFn(mode: QueryMode, d: Dimension, t: int, source: nat, delay: nat): Release -> real {
    (e: Release) => if e.sourceId == source then CreditFn(mode, d, t - delay)(e) else CreditFn(mode, d, t)(e)
  }

  lemma {:induction false} DelayedSum(es: seq<Release>, fs: seq<Release>, mode: QueryMode, d: Dimension, t: int,
                                      source: nat, delay: nat)
    requires fs == Delayed(es, source, delay)
    ensures SumBy(fs, CreditFn(mode, d, t)) == SumBy(es, DelayedCreditFn(mode, d, t, source, delay))
  {
    if es != [] {
      var n := |es| - 1;
      assert fs[..n] == Delayed(es[..n], source, delay);
      DelayedSum(es[..n], fs[..n], mode, d, t, source, delay);
    }
  }

  // So in every mode that source is credited exactly the delay later, and every other one as
  // before.
  lemma DelayCreditsLater(v: View, source: nat, delay: nat, mode: QueryMode, d: Dimension, t: int)
    ensures SumBy(Applied(v, [DelayRelease(source, delay)]).releases, CreditFn(mode, d, t))
            == SumBy(v.releases, DelayedCreditFn(mode, d, t, source, delay))
  {
    OneAction(v, DelayRelease(source, delay));
    DelayedSum(v.releases, Delayed(v.releases, source, delay), mode, d, t, source, delay);
  }

  // A maintenance window is appended, without any capacity of its own.
  lemma MoveMaintenanceAppends(v: View, window: Interval)
    ensures var w := Applied(v, [MoveMaintenance(window)]);
            && w.maintenance == v.maintenance + [Maintenance(window, Delta(map[]), true)]
            && w.resources == v.resources && w.reservations == v.reservations && w.releases == v.releases
  {
    OneAction(v, MoveMaintenance(window));
  }

  // A headroom action leaves the view to the demand.
  lemma SetHeadroomChangesNothing(v: View, headroom: real)
    ensures Applied(v, [SetHeadroom(headroom)]) == Applied(v, [])
  {
    OneAction(v, SetHeadroom(headroom));
  }
}
