/** Exactly what a feasibility decision says, told by the fields of the view and the demand
    (include/capacity_fabric/query/feasibility.hpp). */
module Decisions {
  import opened Wrappers
  import opened Capacities
  import opened Timelines
  import opened Sums
  import opened Fleet
  import opened Fragmentation
  import opened Feasibility

  // --- Devices that serve a demand ------------------------------------------------------

  ghost predicate Within(part: string, s: string) {
    exists a, b :: s == a + part + b
  }

  lemma ContainsIff(s: string, part: string)
    ensures Contains(s, part) <==> Within(part, s)
  {
    if Contains(s, part) {
      var i: nat :| i <= |s| && OccursAt(s, part, i);
      assert s == s[..i] + part + s[i + |part|..];
    }
    if Within(part, s) {
      var a, b :| s == a + part + b;
      assert s[|a|..|a| + |part|] == part;
      assert OccursAt(s, part, |a|);
    }
  }

  // Some text of the device holds the capability that is asked for, its class is among
  // those allowed, and it is neither failed (4), draining (2), under maintenance (3) nor of
  // unknown health (5), nor drained.
  ghost predicate Serves(dev: Device, demand: Demand) {
    && (demand.requiredCapability == []
        || Within(demand.requiredCapability, dev.capability.architecture)
        || Within(demand.requiredCapability, dev.capability.name)
        || Within(demand.requiredCapability, dev.capability.className))
    && (demand.allowedClasses == []
        || exists c :: c in demand.allowedClasses
                       && c.architecture == dev.capability.architecture && c.name == dev.capability.className)
    && dev.health != 2 && dev.health != 3 && dev.health != 4 && dev.health != 5
    && !dev.drained
  }

  lemma ServesIff(dev: Device, demand: Demand)
    ensures Usable(dev, demand) <==> Serves(dev, demand)
  {
    ContainsIff(dev.capability.architecture, demand.requiredCapability);
    ContainsIff(dev.capability.name, demand.requiredCapability);
    ContainsIff(dev.capability.className, demand.requiredCapability);
    AllowedIff(dev.capability, demand.allowedClasses);
  }

  lemma AllowedIff(c: DeviceCapability, classes: seq<AcceleratorClass>)
    ensures Allowed(c, classes)
            <==> exists a :: a in classes && a.architecture == c.architecture && a.name == c.className
  {
    if a :| a in classes && a.architecture == c.architecture && a.name == c.className {
      var i :| 0 <= i < |classes| && classes[i] == a;
    }
  }

  ghost function Servers(devices: seq<Device>, demand: Demand): set<nat> {
    set i: nat | i < |devices| && Serves(devices[i], demand)
  }

  lemma ServersNext(devices: seq<Device>, demand: Demand)
    requires devices != []
    ensures var n := |devices| - 1;
            Servers(devices, demand)
            == Servers(devices[..n], demand) + if Serves(devices[n], demand) then {n} else {}
  {
  }

  lemma {:induction false} ServersCount(devices: seq<Device>, demand: Demand)
    ensures |UsableDevices(devices, demand)| == |Servers(devices, demand)|
  {
    if devices == [] {
      assert Servers(devices, demand) == {};
    } else {
      ServersCount(devices[..|devices| - 1], demand);
      ServesIff(devices[|devices| - 1], demand);
      ServersNext(devices, demand);
    }
  }

  lemma {:induction false} ServersAre(devices: seq<Device>, demand: Demand)
    ensures forall dev :: dev in UsableDevices(devices, demand)
                          <==> exists i :: i in Servers(devices, demand) && devices[i] == dev
  {
    if devices != [] {
      var n := |devices| - 1;
      ServersAre(devices[..n], demand);
      ServesIff(devices[n], demand);
      ServersNext(devices, demand);
      forall dev ensures dev in UsableDevices(devices, demand)
                         <==> exists i :: i in Servers(devices, demand) && devices[i] == dev
      {
        if i :| i in Servers(devices[..n], demand) && devices[..n][i] == dev {
          assert i in Servers(devices, demand) && devices[i] == dev;
        }
        if i :| i in Servers(devices, demand) && devices[i] == dev {
          assert i == n || (i in Servers(devices[..n], demand) && devices[..n][i] == dev);
        }
        if dev == devices[n] && Serves(devices[n], demand) {
          assert n in Servers(devices, demand);
        }
      }
    }
  }

  // --- Groups ---------------------------------------------------------------------------

  predicate SameGroup(a: Device, b: Device) {
    a.capability.className == b.capability.className && a.nodeId == b.nodeId
  }

  function Value(digits: string): nat {
    if digits == [] then 0
    else 10 * Value(digits[..|digits| - 1]) + Digit(digits[|digits| - 1])
  }

  function Digit(c: char): nat {
    if '0' <= c <= '9' then (c - '0') as nat else 0
  }

  lemma {:induction false} DecimalValue(n: nat)
    ensures Value(Decimal(n)) == n && Decimal(n) != [] && '/' !in Decimal(n)
  {
    if n >= 10 {
      DecimalValue(n / 10);
      assert Decimal(n)[..|Decimal(n)| - 1] == Decimal(n / 10);
    } else {
      assert Decimal(n)[..0] == [];
    }
  }

  lemma LastSlash(s: string, x: string)
    requires '/' !in x
    ensures var w := s + "/" + x;
            w[|s|] == '/' && forall k | |s| < k < |w| :: w[k] != '/'
  {
    var w := s + "/" + x;
    forall k | |s| < k < |w| ensures w[k] != '/' {
      assert w[k] == x[k - |s| - 1];
    }
  }

  lemma SplitAtLastSlash(s: string, t: string, x: string, y: string)
    requires s + "/" + x == t + "/" + y && '/' !in x && '/' !in y
    ensures s == t && x == y
  {
    var w := s + "/" + x;
    LastSlash(s, x);
    LastSlash(t, y);
    assert |s| == |t|;
    assert s == w[..|s|] && t == w[..|t|] && x == w[|s| + 1..] && y == w[|t| + 1..];
  }

  // The label names class and node without confusion.
  lemma LabelIff(a: Device, b: Device)
    ensures Label(a) == Label(b) <==> SameGroup(a, b)
  {
    DecimalValue(a.nodeId);
    DecimalValue(b.nodeId);
    if Label(a) == Label(b) {
      SplitAtLastSlash(a.capability.className, b.capability.className, Decimal(a.nodeId), Decimal(b.nodeId));
    }
  }

  // The serving devices of one class on one node.
  ghost function GroupOf(devices: seq<Device>, demand: Demand, dev: Device): set<nat> {
    set i: nat | i < |devices| && Serves(devices[i], demand) && SameGroup(devices[i], dev)
  }

  lemma {:induction false} GroupCount(devices: seq<Device>, demand: Demand, dev: Device)
    ensures GroupSize(UsableDevices(devices, demand), Label(dev)) == |GroupOf(devices, demand, dev)|
  {
    if devices == [] {
      assert GroupOf(devices, demand, dev) == {};
    } else {
      var n := |devices| - 1;
      GroupCount(devices[..n], demand, dev);
      ServesIff(devices[n], demand);
      LabelIff(devices[n], dev);
      GroupNext(devices, demand, dev);
      if Serves(devices[n], demand) {
        var init := UsableDevices(devices[..n], demand);
        assert (init + [devices[n]])[..|init|] == init;
      }
    }
  }

  lemma GroupNext(devices: seq<Device>, demand: Demand, dev: Device)
    requires devices != []
    ensures var n := |devices| - 1;
            GroupOf(devices, demand, dev)
            == GroupOf(devices[..n], demand, dev)
               + if Serves(devices[n], demand) && SameGroup(devices[n], dev) then {n} else {}
  {
  }

  ghost predicate HasGroup(devices: seq<Device>, demand: Demand, size: nat) {
    exists i :: i in Servers(devices, demand) && |GroupOf(devices, demand, devices[i])| >= size
  }

  lemma HasGroupIff(devices: seq<Device>, demand: Demand, size: nat)
    ensures SomeGroup(UsableDevices(devices, demand), size) <==> HasGroup(devices, demand, size)
  {
    var usable := UsableDevices(devices, demand);
    ServersAre(devices, demand);
    if SomeGroup(usable, size) {
      var k :| 0 <= k < |usable| && GroupSize(usable, Label(usable[k])) >= size;
      assert usable[k] in usable;
      var i :| i in Servers(devices, demand) && devices[i] == usable[k];
      GroupCount(devices, demand, devices[i]);
    }
    if HasGroup(devices, demand, size) {
      var i :| i in Servers(devices, demand) && |GroupOf(devices, demand, devices[i])| >= size;
      GroupCount(devices, demand, devices[i]);
      assert devices[i] in usable;
      var k :| 0 <= k < |usable| && usable[k] == devices[i];
      assert GroupSize(usable, Label(usable[k])) >= size;
    }
  }

  ghost predicate HasBlock(devices: seq<Device>, demand: Demand, required: U64) {
    exists i :: i in Servers(devices, demand) && BlockFits(devices[i].freeBlocks, required)
  }

  lemma HasBlockIff(devices: seq<Device>, demand: Demand, required: U64)
    ensures SomeBlock(UsableDevices(devices, demand), required) <==> HasBlock(devices, demand, required)
  {
    var usable := UsableDevices(devices, demand);
    ServersAre(devices, demand);
    if SomeBlock(usable, required) {
      var k :| 0 <= k < |usable| && MemoryOf(usable[k].freeBlocks, required).shapeSatisfiable;
      assert usable[k] in usable;
      ShapeSatisfiableIff(usable[k].freeBlocks, required);
      var i :| i in Servers(devices, demand) && devices[i] == usable[k];
    }
    if HasBlock(devices, demand, required) {
      var i :| i in Servers(devices, demand) && BlockFits(devices[i].freeBlocks, required);
      ShapeSatisfiableIff(devices[i].freeBlocks, required);
      assert devices[i] in usable;
      var k :| 0 <= k < |usable| && usable[k] == devices[i];
    }
  }

  // --- Capacity and headroom ------------------------------------------------------------

  // The size of each hard hold (strength zero) that has begun and not ended.
  function HoldSizeFn(d: Dimension, now: int): Reservation -> real {
    (r: Reservation) =>
      if r.strength == 0 && r.interval.start <= now < r.interval.end
      then (if r.hold.At(d) < 0.0 then -r.hold.At(d) else r.hold.At(d)) else 0.0
  }

  // What the holds leave of d, below zero if they take more than there is.
  function Spare(view: View, d: Dimension): real {
    view.available.At(d) - SumBy(view.reservations, HoldSizeFn(d, view.now))
  }

  ghost predicate IsShort(view: View, demand: Demand, k: int) {
    0 <= k < 256 && demand.requirements.At(k) > 0.0 && demand.requirements.At(k) > Spare(view, k)
  }

  lemma EffectiveIsSpare(view: View, d: Dimension)
    requires view.available.NonNegative()
    ensures Effective(view.available, view.reservations, view.now).At(d) == Max0(Spare(view, d))
  {
    EffectiveAt(view.available, view.reservations, view.now, d);
    SumByEqual(view.reservations, TakenFn(d, view.now), HoldSizeFn(d, view.now));
  }

  lemma ShortIff(view: View, demand: Demand, k: int)
    requires view.available.NonNegative() && demand.requirements.NonNegative()
    ensures Short(Effective(view.available, view.reservations, view.now), demand.requirements, k)
            <==> IsShort(view, demand, k)
  {
    if 0 <= k < 256 { EffectiveIsSpare(view, k); }
  }

  // An entry is stored for d: in what is available, in an active hard hold, or in the demand.
  ghost predicate Stored(view: View, demand: Demand, d: Dimension) {
    || view.available.Has(d) || demand.requirements.Has(d)
    || exists r :: r in view.reservations && r.strength == 0 && r.interval.start <= view.now < r.interval.end
                   && d in r.hold.changes && r.hold.changes[d] != 0.0
  }

  // Something of every stored dimension is left after the placement.
  ghost predicate KeepsHeadroom(view: View, demand: Demand) {
    forall d: Dimension | Stored(view, demand, d) :: demand.requirements.At(d) < Spare(view, d)
  }

  lemma StoredIff(view: View, demand: Demand, d: Dimension)
    ensures Stored(view, demand, d)
            <==> Effective(view.available, view.reservations, view.now).Has(d) || demand.requirements.Has(d)
  {
    EffectiveHas(view.available, view.reservations, view.now, d);
  }

  lemma HeadroomIff(view: View, demand: Demand)
    requires view.available.NonNegative() && demand.requirements.NonNegative()
    ensures LeavesHeadroom(Effective(view.available, view.reservations, view.now), demand.requirements)
            <==> KeepsHeadroom(view, demand)
  {
    var e := Effective(view.available, view.reservations, view.now);
    var after := Monus(e, demand.requirements);
    EffectiveNonNegative(view.available, view.reservations, view.now);
    forall d: Dimension
      ensures d in after.entries <==> Stored(view, demand, d)
      ensures d in after.entries ==>
                (after.entries[d] > 0.0 <==> demand.requirements.At(d) < Spare(view, d))
    {
      StoredIff(view, demand, d);
      EffectiveIsSpare(view, d);
      LeftOver(e, demand.requirements, d);
    }
  }

  lemma LeftOver(e: Amounts, req: Amounts, d: Dimension)
    requires e.NonNegative() && req.NonNegative()
    ensures d in Monus(e, req).entries <==> e.Has(d) || req.Has(d)
    ensures d in Monus(e, req).entries ==> (Monus(e, req).entries[d] > 0.0 <==> req.At(d) < e.At(d))
  {
  }

  // --- The decision -----------------------------------------------------------------------

  predicate DemandIsValid(d: Demand) {
    && d.id > 0 && d.generation > 0 && d.minAccelerators > 0
    && (!d.requiresContiguousVram || d.minContiguousVram > 0)
    && (d.maxFragmentation.None? || 0.0 <= d.maxFragmentation.value <= 1.0)
  }

  ghost predicate LacksGroup(view: View, d: Demand) {
    d.topologyGroupSize.Some? && !HasGroup(view.devices, d, d.topologyGroupSize.value)
  }

  ghost predicate LacksDevices(view: View, d: Demand) {
    |Servers(view.devices, d)| < d.minAccelerators
  }

  ghost predicate LacksBlock(view: View, d: Demand) {
    d.requiresContiguousVram && !HasBlock(view.devices, d, d.minContiguousVram)
  }

  ghost predicate TooFragmented(view: View, d: Demand) {
    d.maxFragmentation.Some? && StrandedShare(view.devices, d.minContiguousVram) > d.maxFragmentation.value
  }

  ghost predicate LacksHeadroom(view: View, d: Demand) {
    d.sloHeadroom > 0.5 || (d.sloHeadroom > 0.0 && !KeepsHeadroom(view, d))
  }

  // How a dimension that falls short is reported: rates, bytes, the rest.
  function ShortOutcome(d: int): Outcome {
    if d in {8, 9, 10, 11} then NoFitBandwidth
    else if d in {2, 3, 4, 5, 7, 15, 16} then NoFitMemory
    else NoFitCapacity
  }

  // The first thing that stands in the way decides, in this order.
  ghost predicate IsOutcome(view: View, d: Demand, o: Outcome) {
    if !DemandIsValid(d) then o == Unknown
    else if view.freshness.RevalidationRequired? || view.freshness.Stale? then o == NeedsRevalidation
    else if view.freshness.InsufficientEvidence? then o == NotEnoughEvidence
    else if LacksGroup(view, d) then o == NoFitTopology
    else if LacksDevices(view, d) then o == NoFitCapacity
    else if LacksBlock(view, d) then o == NoFitFragmentation
    else if exists k :: IsShort(view, d, k)
    then exists m :: IsShort(view, d, m) && (forall k | k < m :: !IsShort(view, d, k)) && o == ShortOutcome(m)
    else if TooFragmented(view, d) then o == NoFitFragmentation
    else if LacksHeadroom(view, d) then o == NoFitSloHeadroom
    else o == FitNow
  }

  lemma DeviceGates(view: View, d: Demand)
    ensures var usable := UsableDevices(view.devices, d);
            && (d.topologyGroupSize.Some? ==>
                  (SomeGroup(usable, d.topologyGroupSize.value)
                   <==> HasGroup(view.devices, d, d.topologyGroupSize.value)))
            && |usable| == |Servers(view.devices, d)|
            && (SomeBlock(usable, d.minContiguousVram) <==> HasBlock(view.devices, d, d.minContiguousVram))
  {
    if d.topologyGroupSize.Some? { HasGroupIff(view.devices, d, d.topologyGroupSize.value); }
    ServersCount(view.devices, d);
    HasBlockIff(view.devices, d, d.minContiguousVram);
  }

  lemma CapacityGate(view: View, d: Demand)
    requires view.available.NonNegative() && d.requirements.NonNegative()
    ensures match FirstMissing(Effective(view.available, view.reservations, view.now), d.requirements, 0)
            case None => forall k :: !IsShort(view, d, k)
            case Some(m) => IsShort(view, d, m) && forall k | k < m :: !IsShort(view, d, k)
  {
    var e := Effective(view.available, view.reservations, view.now);
    MissingIsLeast(e, d.requirements, 0);
    forall k ensures Short(e, d.requirements, k) <==> IsShort(view, d, k) {
      ShortIff(view, d, k);
    }
  }

  // The gates before the capacity is looked at, and whether one of them answers.
  ghost predicate LetThrough(view: View, d: Demand) {
    && DemandIsValid(d) && view.freshness in {Fresh, UnknownFreshness}
    && !LacksGroup(view, d) && !LacksDevices(view, d) && !LacksBlock(view, d)
  }

  lemma EarlyGates(view: View, d: Demand)
    requires !LetThrough(view, d)
    ensures IsOutcome(view, d, Decide(view, d))
  {
    DeviceGates(view, d);
  }

  lemma LateGates(view: View, d: Demand)
    requires LetThrough(view, d)
    requires view.available.NonNegative() && d.requirements.NonNegative()
    ensures IsOutcome(view, d, Decide(view, d))
  {
    DeviceGates(view, d);
    CapacityGate(view, d);
    RatioIsShare(view.devices, d.minContiguousVram, d.minAccelerators, 0);
    HeadroomIff(view, d);
  }

  // Every decision is the outcome of the first thing that stands in the way.
  lemma DecideIs(view: View, d: Demand)
    requires view.available.NonNegative() && d.requirements.NonNegative()
    ensures IsOutcome(view, d, Decide(view, d))
  {
    if LetThrough(view, d) { LateGates(view, d); } else { EarlyGates(view, d); }
  }

  // And a demand fits now if and only if nothing does.
  lemma FitNowIff(view: View, d: Demand)
    requires view.available.NonNegative() && d.requirements.NonNegative()
    ensures Decide(view, d) == FitNow
            <==> && DemandIsValid(d) && view.freshness in {Fresh, UnknownFreshness}
                 && (d.topologyGroupSize.Some? ==> HasGroup(view.devices, d, d.topologyGroupSize.value))
                 && |Servers(view.devices, d)| >= d.minAccelerators
                 && (d.requiresContiguousVram ==> HasBlock(view.devices, d, d.minContiguousVram))
                 && (forall k: Dimension | d.requirements.At(k) > 0.0 :: d.requirements.At(k) <= Spare(view, k))
                 && (d.maxFragmentation.Some? ==>
                       StrandedShare(view.devices, d.minContiguousVram) <= d.maxFragmentation.value)
                 && (d.sloHeadroom > 0.0 ==> d.sloHeadroom <= 0.5 && KeepsHeadroom(view, d))
  {
    DecideIs(view, d);
    ShortMeans(view, d);
  }

  lemma ShortMeans(view: View, d: Demand)
    ensures (forall k :: !IsShort(view, d, k))
            <==> forall k: Dimension | d.requirements.At(k) > 0.0 :: d.requirements.At(k) <= Spare(view, k)
  {
    if forall k :: !IsShort(view, d, k) {
      forall k: Dimension | d.requirements.At(k) > 0.0 ensures d.requirements.At(k) <= Spare(view, k) {
        assert !IsShort(view, d, k);
      }
    }
  }
}
