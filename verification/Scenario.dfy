/** What-if overlays (include/capacity_fabric/scenario/scenario.hpp). */
module Scenarios {
  import opened Capacities
  import opened Timelines
  import opened Fleet
  import opened Sums

  datatype Action =
    | RemoveResource(resource: U64)
    | AddResource(added: Resource)
    | CancelReservation(reservation: nat)
    | AddReservation(addReservation: Reservation)
    | DelayRelease(source: nat, delay: nat)
    | DegradeDevice(degraded: U64)
    | SetHeadroom(sloHeadroom: real)
    | MoveMaintenance(window: Interval)

  // --- One action -------------------------------------------------------------------

  function WithoutResource(rs: seq<Resource>, id: U64): seq<Resource> {
    if rs == [] then []
    else
      var (s, r) := (WithoutResource(rs[..|rs| - 1], id), rs[|rs| - 1]);
      if r.id == id then s else s + [r]
  }

  function Owned(rs: seq<Resource>, id: U64): set<U64> {
    set r | r in rs && r.id == id :: r.deviceId
  }

  function WithoutDevices(ds: seq<Device>, ids: set<U64>): seq<Device> {
    if ds == [] then []
    else
      var (s, d) := (WithoutDevices(ds[..|ds| - 1], ids), ds[|ds| - 1]);
      if d.id in ids then s else s + [d]
  }

  function Later(e: Release, source: nat, delay: nat): Release {
    if e.sourceId == source
    then e.(time := e.time + delay, earliest := e.earliest + delay, latest := e.latest + delay)
    else e
  }

  function Delayed(es: seq<Release>, source: nat, delay: nat): seq<Release> {
    seq(|es|, i requires 0 <= i < |es| => Later(es[i], source, delay))
  }

  // Whichever resource is named, every listed device that some resource owns fails,
  // together with the resources on it.
  function Degraded(v: View): View {
    v.(devices := seq(|v.devices|, i requires 0 <= i < |v.devices| =>
         var d := v.devices[i];
         if d.id != 0 && exists r :: r in v.resources && r.deviceId == d.id then d.(health := FAILED) else d),
       resources := seq(|v.resources|, i requires 0 <= i < |v.resources| =>
         var r := v.resources[i];
         if r.deviceId != 0 && exists d :: d in v.devices && d.id == r.deviceId then r.(health := FAILED) else r))
  }

  function Act(v: View, a: Action): View {
    match a
    case RemoveResource(id) =>
      v.(resources := WithoutResource(v.resources, id),
         devices := WithoutDevices(v.devices, Owned(v.resources, id)))
    case AddResource(r) => v.(resources := v.resources + [r])
    case CancelReservation(id) => v.(reservations := WithoutReservation(v.reservations, id))
    case AddReservation(r) => v.(reservations := v.reservations + [r])
    case DelayRelease(source, delay) => v.(releases := Delayed(v.releases, source, delay))
    case DegradeDevice(_) => Degraded(v)
    case SetHeadroom(_) => v
    case MoveMaintenance(w) => v.(maintenance := v.maintenance + [Maintenance(w, Delta(map[]), true)])
  }

  function ActAll(v: View, actions: seq<Action>): View {
    if actions == [] then v else Act(ActAll(v, actions[..|actions| - 1]), actions[|actions| - 1])
  }

  // --- The copy that is edited in place ---------------------------------------------------

  class Overlay {
    var view: View

    constructor (base: View)
      ensures view == base
    {
      view := base;
    }

    method Perform(a: Action)
      modifies this
      ensures view == Act(old(view), a)
    {
      match a
      case RemoveResource(id) => Remove(id);
      case AddResource(r) => view := view.(resources := view.resources + [r]);
      case CancelReservation(id) => Cancel(id);
      case AddReservation(r) => view := view.(reservations := view.reservations + [r]);
      case DelayRelease(source, delay) => Delay(source, delay);
      case DegradeDevice(_) => Degrade();
      case SetHeadroom(_) =>
      case MoveMaintenance(w) =>
        view := view.(maintenance := view.maintenance + [Maintenance(w, Delta(map[]), true)]);
    }

    method Remove(id: U64)
      modifies this
      ensures view == Act(old(view), RemoveResource(id))
    {
      var owned: set<U64> := {};
      var kept: seq<Resource> := [];
      for i := 0 to |view.resources|
        invariant view == old(view)
        invariant owned == Owned(view.resources[..i], id) && kept == WithoutResource(view.resources[..i], id)
      {
        var r := view.resources[i];
        OwnedStep(view.resources, i, id);
        if r.id == id { owned := owned + {r.deviceId}; } else { kept := kept + [r]; }
      }
      assert view.resources[..|view.resources|] == view.resources;
      var devices: seq<Device> := [];
      for i := 0 to |view.devices|
        invariant view == old(view)
        invariant devices == WithoutDevices(view.devices[..i], owned)
      {
        assert view.devices[..i + 1][..i] == view.devices[..i];
        if view.devices[i].id !in owned { devices := devices + [view.devices[i]]; }
      }
      assert view.devices[..|view.devices|] == view.devices;
      view := view.(resources := kept, devices := devices);
    }

    method Cancel(id: nat)
      modifies this
      ensures view == Act(old(view), CancelReservation(id))
    {
      var kept: seq<Reservation> := [];
      for i := 0 to |view.reservations|
        invariant view == old(view) && kept == WithoutReservation(view.reservations[..i], id)
      {
        assert view.reservations[..i + 1][..i] == view.reservations[..i];
        if view.reservations[i].id != id { kept := kept + [view.reservations[i]]; }
      }
      assert view.reservations[..|view.reservations|] == view.reservations;
      view := view.(reservations := kept);
    }

    method Delay(source: nat, delay: nat)
      modifies this
      ensures view == Act(old(view), DelayRelease(source, delay))
    {
      var es := view.releases;
      for i := 0 to |es|
        invariant view == old(view) && |es| == |view.releases|
        invariant forall k | 0 <= k < i :: es[k] == Later(view.releases[k], source, delay)
        invariant forall k | i <= k < |es| :: es[k] == view.releases[k]
      {
        var e := es[i];
        if e.sourceId == source {
          es := es[i := e.(time := e.time + delay, earliest := e.earliest + delay, latest := e.latest + delay)];
        }
      }
      assert es == Delayed(view.releases, source, delay);
      view := view.(releases := es);
    }

    method Degrade()
      modifies this
      ensures view == Degraded(old(view))
    {
      var ds, rs := view.devices, view.resources;
      for i := 0 to |ds|
        invariant view == old(view)
        invariant ds == FailedOwners(view, i) && rs == FailedResources(view, i)
      {
        FailStarts(view, i);
        var j := 0;
        while j < |rs|
          invariant view == old(view) && FailedTo(view, i, j, ds, rs)
        {
          FailNext(view, i, j, ds, rs);
          if ds[i].id != 0 && rs[j].deviceId == ds[i].id {
            ds := ds[i := ds[i].(health := FAILED)];
            rs := rs[j := rs[j].(health := FAILED)];
          }
          j := j + 1;
        }
        FailEnds(view, i, ds, rs);
      }
      AllDegraded(view);
      view := view.(devices := ds, resources := rs);
    }
  }

  lemma OwnedStep(rs: seq<Resource>, i: nat, id: U64)
    requires i < |rs|
    ensures Owned(rs[..i + 1], id) == Owned(rs[..i], id) + if rs[i].id == id then {rs[i].deviceId} else {}
    ensures rs[..i + 1][..i] == rs[..i]
  {
    assert rs[..i + 1] == rs[..i] + [rs[i]];
  }

  // Some of the first j resources is on device i.
  predicate OwnedBefore(v: View, i: nat, j: nat)
    requires i < |v.devices| && j <= |v.resources|
  {
    v.devices[i].id != 0 && exists k | 0 <= k < j :: v.resources[k].deviceId == v.devices[i].id
  }

  // The devices and the resources once the first n devices are failed.
  function FailedOwners(v: View, n: nat): seq<Device> {
    seq(|v.devices|, i requires 0 <= i < |v.devices| =>
      if i < n && OwnedBefore(v, i, |v.resources|) then v.devices[i].(health := FAILED) else v.devices[i])
  }

  function FailedResources(v: View, n: nat): seq<Resource>
    requires n <= |v.devices|
  {
    seq(|v.resources|, j requires 0 <= j < |v.resources| =>
      if v.resources[j].deviceId != 0 && exists i | 0 <= i < n :: v.devices[i].id == v.resources[j].deviceId
      then v.resources[j].(health := FAILED) else v.resources[j])
  }

  // For device i the first j resources have been looked at.
  ghost predicate FailedTo(v: View, i: nat, j: nat, ds: seq<Device>, rs: seq<Resource>) {
    && i < |v.devices| == |ds| && j <= |rs| == |v.resources|
    && (forall k | 0 <= k < |ds| && k != i :: ds[k] == FailedOwners(v, i)[k])
    && ds[i] == (if OwnedBefore(v, i, j) then v.devices[i].(health := FAILED) else v.devices[i])
    && (forall k | 0 <= k < j :: rs[k] == FailedResources(v, i + 1)[k])
    && (forall k | j <= k < |rs| :: rs[k] == FailedResources(v, i)[k])
  }

  lemma FailStarts(v: View, i: nat)
    requires i < |v.devices|
    ensures FailedTo(v, i, 0, FailedOwners(v, i), FailedResources(v, i))
  {
  }

  lemma FailNext(v: View, i: nat, j: nat, ds: seq<Device>, rs: seq<Resource>)
    requires FailedTo(v, i, j, ds, rs) && j < |rs|
    ensures if ds[i].id != 0 && rs[j].deviceId == ds[i].id
            then FailedTo(v, i, j + 1, ds[i := ds[i].(health := FAILED)], rs[j := rs[j].(health := FAILED)])
            else FailedTo(v, i, j + 1, ds, rs)
  {
  }

  lemma FailEnds(v: View, i: nat, ds: seq<Device>, rs: seq<Resource>)
    requires FailedTo(v, i, |rs|, ds, rs)
    ensures ds == FailedOwners(v, i + 1) && rs == FailedResources(v, i + 1)
  {
  }

  lemma AllDegraded(v: View)
    ensures Degraded(v) == v.(devices := FailedOwners(v, |v.devices|), resources := FailedResources(v, |v.devices|))
  {
    forall i | 0 <= i < |v.devices|
      ensures Degraded(v).devices[i] == FailedOwners(v, |v.devices|)[i]
    {
    }
    forall j | 0 <= j < |v.resources|
      ensures Degraded(v).resources[j] == FailedResources(v, |v.devices|)[j]
    {
    }
    assert Degraded(v).devices == FailedOwners(v, |v.devices|);
    assert Degraded(v).resources == FailedResources(v, |v.devices|);
  }

  // --- Re-aggregation -------------------------------------------------------------------

  predicate UsableResource(r: Resource) {
    r.health != FAILED && !r.drained && !r.maintenance && r.health != UNKNOWN_HEALTH
  }

  datatype Totals = Totals(devices: seq<Device>, available: Amounts, nominal: Amounts,
                           committed: Amounts, unavailable: Amounts)

  function TotalsOf(rs: seq<Resource>): Totals {
    if rs == [] then Totals([], NOTHING, NOTHING, NOTHING, NOTHING)
    else
      var (t, r) := (TotalsOf(rs[..|rs| - 1]), rs[|rs| - 1]);
      Totals(t.devices + [DeviceOf(r)],
             if UsableResource(r) then Sum(t.available, r.free) else t.available,
             Sum(t.nominal, r.nominal), Sum(t.committed, r.committed), Sum(t.unavailable, r.unavailable))
  }

  function Aggregated(v: View): View {
    var t := TotalsOf(v.resources);
    v.(devices := t.devices, available := t.available, nominal := t.nominal, committed := t.committed,
       unavailable := t.unavailable,
       currentUse := CurrentUse(t.nominal, t.available, t.committed, t.unavailable), synthetic := true)
  }

  function Applied(v: View, actions: seq<Action>): View {
    Aggregated(ActAll(v, actions))
  }

  method ApplyScenario(base: View, actions: seq<Action>) returns (v: View)
    ensures v == Applied(base, actions)
  {
    var overlay := new Overlay(base);
    for i := 0 to |actions|
      invariant overlay.view == ActAll(base, actions[..i])
    {
      assert actions[..i + 1][..i] == actions[..i];
      overlay.Perform(actions[i]);
    }
    assert actions[..|actions|] == actions;
    v := overlay.view;
    var t := Aggregate(v.resources);
    var use := SubtractUse(t.nominal, t.available, t.committed, t.unavailable);
    v := v.(devices := t.devices, available := t.available, nominal := t.nominal,
            committed := t.committed, unavailable := t.unavailable, currentUse := use, synthetic := true);
  }

  method Aggregate(rs: seq<Resource>) returns (t: Totals)
    ensures t == TotalsOf(rs)
  {
    var devices: seq<Device> := [];
    var available := new Capacity(NOTHING);
    var nominal := new Capacity(NOTHING);
    var committed := new Capacity(NOTHING);
    var unavailable := new Capacity(NOTHING);
    for i := 0 to |rs|
      invariant devices == TotalsOf(rs[..i]).devices
      invariant available.amounts == TotalsOf(rs[..i]).available
      invariant nominal.amounts == TotalsOf(rs[..i]).nominal
      invariant committed.amounts == TotalsOf(rs[..i]).committed
      invariant unavailable.amounts == TotalsOf(rs[..i]).unavailable
    {
      var r := rs[i];
      TotalsStep(rs, i);
      nominal.Add(r.nominal);
      committed.Add(r.committed);
      unavailable.Add(r.unavailable);
      devices := devices + [DeviceOf(r)];
      if r.health != FAILED && !r.drained && !r.maintenance && r.health != UNKNOWN_HEALTH {
        available.Add(r.free);
      }
    }
    assert rs[..|rs|] == rs;
    t := Totals(devices, available.amounts, nominal.amounts, committed.amounts, unavailable.amounts);
  }

  lemma TotalsStep(rs: seq<Resource>, i: nat)
    requires i < |rs|
    ensures var (t, u, r) := (TotalsOf(rs[..i]), TotalsOf(rs[..i + 1]), rs[i]);
            && u.devices == t.devices + [DeviceOf(r)]
            && u.available == (if UsableResource(r) then Sum(t.available, r.free) else t.available)
            && u.nominal == Sum(t.nominal, r.nominal) && u.committed == Sum(t.committed, r.committed)
            && u.unavailable == Sum(t.unavailable, r.unavailable)
  {
    assert rs[..i + 1][..i] == rs[..i];
  }

  // --- Composition ------------------------------------------------------------------------

  // The part of a view that aggregation keeps.
  function Core(v: View): View {
    v.(devices := [], available := NOTHING, nominal := NOTHING, committed := NOTHING,
       unavailable := NOTHING, currentUse := NOTHING, synthetic := true)
  }

  ghost predicate NoDegrade(actions: seq<Action>) {
    forall a | a in actions :: !a.DegradeDevice?
  }

  lemma {:induction false} ActAllCore(v: View, w: View, actions: seq<Action>)
    requires Core(v) == Core(w) && NoDegrade(actions)
    ensures Core(ActAll(v, actions)) == Core(ActAll(w, actions))
  {
    if actions != [] {
      var a := actions[|actions| - 1];
      assert a in actions;
      ActAllCore(v, w, actions[..|actions| - 1]);
      ActCore(ActAll(v, actions[..|actions| - 1]), ActAll(w, actions[..|actions| - 1]), a);
    }
  }

  lemma ActCore(v: View, w: View, a: Action)
    requires Core(v) == Core(w) && !a.DegradeDevice?
    ensures Core(Act(v, a)) == Core(Act(w, a))
  {
    assert v.resources == Core(v).resources && w.resources == Core(w).resources;
    assert v.reservations == Core(v).reservations && w.reservations == Core(w).reservations;
    assert v.releases == Core(v).releases && w.releases == Core(w).releases;
    assert v.maintenance == Core(v).maintenance && w.maintenance == Core(w).maintenance;
    assert v.now == Core(v).now && v.freshness == Core(v).freshness && v.staleDynamic == Core(v).staleDynamic;
    assert w.now == Core(w).now && w.freshness == Core(w).freshness && w.staleDynamic == Core(w).staleDynamic;
  }

  lemma AggregatedByCore(v: View, w: View)
    requires Core(v) == Core(w)
    ensures Aggregated(v) == Aggregated(w) && Core(Aggregated(v)) == Core(v)
  {
    assert v.resources == Core(v).resources && w.resources == Core(w).resources;
    assert v.reservations == Core(v).reservations && w.reservations == Core(w).reservations;
    assert v.releases == Core(v).releases && w.releases == Core(w).releases;
    assert v.maintenance == Core(v).maintenance && w.maintenance == Core(w).maintenance;
    assert v.now == Core(v).now && v.freshness == Core(v).freshness && v.staleDynamic == Core(v).staleDynamic;
    assert w.now == Core(w).now && w.freshness == Core(w).freshness && w.staleDynamic == Core(w).staleDynamic;
  }

  lemma {:induction false} ActAllConcat(v: View, a: seq<Action>, b: seq<Action>)
    ensures ActAll(v, a + b) == ActAll(ActAll(v, a), b)
  {
    if b == [] {
      assert a + b == a;
    } else {
      assert (a + b)[..|a + b| - 1] == a + b[..|b| - 1];
      ActAllConcat(v, a, b[..|b| - 1]);
    }
  }

  // Scenarios compose: the second on the result of the first is both at once, on
  // the whole view.
  lemma ScenariosCompose(v: View, a: seq<Action>, b: seq<Action>)
    requires NoDegrade(b)
    ensures Applied(Applied(v, a), b) == Applied(v, a + b)
  {
    var x := ActAll(v, a);
    AggregatedByCore(x, x);
    ActAllCore(Aggregated(x), x, b);
    ActAllConcat(v, a, b);
    AggregatedByCore(ActAll(Aggregated(x), b), ActAll(x, b));
  }

  // --- Degrading a device ---------------------------------------------------------------------

  // Every resource that has a device and has not failed is on a device that is listed.
  ghost predicate AllListed(v: View) {
    forall r | r in v.resources && r.deviceId != 0 && r.health != FAILED ::
      exists d :: d in v.devices && d.id == r.deviceId
  }

  // A scenario that degrades after another equals both in one if and only if, after the
  // first, every resource it would fail is on a device that the view still lists.
  lemma DegradeComposesIff(v: View, a: seq<Action>, id: U64)
    ensures Applied(Applied(v, a), [DegradeDevice(id)]) == Applied(v, a + [DegradeDevice(id)])
            <==> AllListed(ActAll(v, a))
  {
    AppliedDegrade(v, a, id);
    AppliedDegrade(Applied(v, a), [], id);
    assert [] + [DegradeDevice(id)] == [DegradeDevice(id)];
    DegradedEitherWay(ActAll(v, a));
  }

  lemma AppliedDegrade(v: View, a: seq<Action>, id: U64)
    ensures Applied(v, a + [DegradeDevice(id)]) == Aggregated(Degraded(ActAll(v, a)))
  {
    ActLast(v, a, DegradeDevice(id));
    ActDegrades(ActAll(v, a), id);
    AppliedOf(v, a + [DegradeDevice(id)], Degraded(ActAll(v, a)));
  }

  lemma ActDegrades(v: View, id: U64)
    ensures Act(v, DegradeDevice(id)) == Degraded(v)
  {
  }

  lemma AppliedOf(v: View, actions: seq<Action>, x: View)
    requires ActAll(v, actions) == x
    ensures Applied(v, actions) == Aggregated(x)
  {
  }

  lemma DegradedEitherWay(x: View)
    ensures Aggregated(Degraded(Aggregated(x))) == Aggregated(Degraded(x)) <==> AllListed(x)
  {
    DegradedKeeps(x);
    SameWhenResourcesAre(Degraded(Aggregated(x)), Degraded(x));
    DegradedSameIff(x);
  }

  lemma DegradedKeeps(x: View)
    ensures var (y, z) := (Degraded(Aggregated(x)), Degraded(x));
            && y.reservations == z.reservations && y.releases == z.releases && y.maintenance == z.maintenance
            && y.now == z.now && y.freshness == z.freshness && y.staleDynamic == z.staleDynamic
  {
  }

  lemma ActLast(v: View, a: seq<Action>, last: Action)
    ensures ActAll(v, a + [last]) == Act(ActAll(v, a), last)
  {
    assert (a + [last])[..|a|] == a && (a + [last])[|a|] == last;
  }

  lemma SameWhenResourcesAre(y: View, z: View)
    requires y.reservations == z.reservations && y.releases == z.releases && y.maintenance == z.maintenance
    requires y.now == z.now && y.freshness == z.freshness && y.staleDynamic == z.staleDynamic
    ensures Aggregated(y) == Aggregated(z) <==> y.resources == z.resources
  {
    assert Aggregated(y).resources == y.resources && Aggregated(z).resources == z.resources;
  }

  // Re-aggregation lists the device of every resource.
  lemma {:induction false} TotalsList(rs: seq<Resource>, r: Resource)
    requires r in rs
    ensures DeviceOf(r) in TotalsOf(rs).devices
  {
    if r in rs[..|rs| - 1] { TotalsList(rs[..|rs| - 1], r); }
  }

  lemma DegradedAfresh(v: View, i: nat)
    requires i < |v.resources|
    ensures var r := v.resources[i];
            Degraded(Aggregated(v)).resources[i] == if r.deviceId != 0 then r.(health := FAILED) else r
  {
    TotalsList(v.resources, v.resources[i]);
    assert DeviceOf(v.resources[i]) in Aggregated(v).devices;
  }

  lemma DegradedSameIff(v: View)
    ensures Degraded(Aggregated(v)).resources == Degraded(v).resources <==> AllListed(v)
  {
    var xs, ys := Degraded(Aggregated(v)).resources, Degraded(v).resources;
    forall i | 0 <= i < |v.resources|
      ensures xs[i] == ys[i] <==>
                (v.resources[i].deviceId != 0 && v.resources[i].health != FAILED ==>
                   exists d :: d in v.devices && d.id == v.resources[i].deviceId)
    {
      DegradedAfresh(v, i);
      assert v.resources[i].health != FAILED ==> v.resources[i].(health := FAILED) != v.resources[i] by {
        assert v.resources[i].(health := FAILED).health == FAILED;
      }
      assert v.resources[i].health == FAILED ==> v.resources[i].(health := FAILED) == v.resources[i];
    }
    assert xs == ys <==> forall i | 0 <= i < |v.resources| :: xs[i] == ys[i];
    if AllListed(v) {
      assert forall i | 0 <= i < |v.resources| :: v.resources[i] in v.resources;
    }
  }

  // --- Removal ----------------------------------------------------------------------------

  function UsableFreeFn(d: Dimension): Resource -> real {
    (r: Resource) => if UsableResource(r) then r.free.At(d) else 0.0
  }

  // The available total of a dimension is the sum over the usable resources.
  lemma {:induction false} AvailableIsSum(rs: seq<Resource>, d: Dimension)
    ensures TotalsOf(rs).available.At(d) == SumBy(rs, UsableFreeFn(d))
  {
    if rs != [] {
      AvailableIsSum(rs[..|rs| - 1], d);
      SumAt(TotalsOf(rs[..|rs| - 1]).available, rs[|rs| - 1].free, d);
    }
  }

  lemma SumAt(a: Amounts, b: Amounts, d: Dimension)
    ensures Sum(a, b).At(d) == a.At(d) + b.At(d)
  {
  }

  ghost predicate NonNegativeFree(rs: seq<Resource>) {
    forall r | r in rs :: r.free.NonNegative()
  }

  lemma {:induction false} RemovalLowersSum(rs: seq<Resource>, id: U64, d: Dimension)
    requires NonNegativeFree(rs)
    ensures NonNegativeFree(WithoutResource(rs, id))
    ensures SumBy(WithoutResource(rs, id), UsableFreeFn(d)) <= SumBy(rs, UsableFreeFn(d))
  {
    if rs != [] {
      var init, r := rs[..|rs| - 1], rs[|rs| - 1];
      assert r in rs;
      RemovalLowersSum(init, id, d);
      if r.id != id {
        SumByOne(WithoutResource(init, id), r, UsableFreeFn(d));
      }
    }
  }

  ghost predicate OnlyRemovals(actions: seq<Action>) {
    forall a | a in actions :: a.RemoveResource?
  }

  lemma {:induction false} RemovalsLowerSum(v: View, actions: seq<Action>, d: Dimension)
    requires NonNegativeFree(v.resources) && OnlyRemovals(actions)
    ensures NonNegativeFree(ActAll(v, actions).resources)
    ensures SumBy(ActAll(v, actions).resources, UsableFreeFn(d)) <= SumBy(v.resources, UsableFreeFn(d))
  {
    if actions != [] {
      var init := actions[..|actions| - 1];
      assert actions[|actions| - 1] in actions;
      RemovalsLowerSum(v, init, d);
      RemovalLowersSum(ActAll(v, init).resources, actions[|actions| - 1].resource, d);
    }
  }

  // Removing resources never makes more available than the empty scenario shows.
  lemma RemovalNeverIncreases(v: View, actions: seq<Action>, d: Dimension)
    requires NonNegativeFree(v.resources) && OnlyRemovals(actions)
    ensures Applied(v, actions).available.At(d) <= Applied(v, []).available.At(d)
  {
    RemovalsLowerSum(v, actions, d);
    AvailableIsSum(ActAll(v, actions).resources, d);
    AvailableIsSum(v.resources, d);
  }

  // No action makes stale evidence fresh.
  lemma ActKeepsFreshness(v: View, a: Action)
    ensures Act(v, a).freshness == v.freshness
  {
  }

  lemma {:induction false} FreshnessKept(v: View, actions: seq<Action>)
    ensures ActAll(v, actions).freshness == v.freshness
    ensures Applied(v, actions).freshness == v.freshness
  {
    if actions != [] {
      FreshnessKept(v, actions[..|actions| - 1]);
      ActKeepsFreshness(ActAll(v, actions[..|actions| - 1]), actions[|actions| - 1]);
    }
    AggregationKeepsFreshness(ActAll(v, actions));
  }

  lemma AggregationKeepsFreshness(v: View)
    ensures Aggregated(v).freshness == v.freshness
  {
  }
}
