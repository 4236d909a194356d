/** The feasibility decision (include/capacity_fabric/query/feasibility.hpp). */
module Feasibility {
  import opened Wrappers
  import opened Capacities
  import opened Timelines
  import opened Fleet
  import opened Fragmentation
  import opened Sums
  import opened Forecasts

  datatype Outcome =
    | FitNow | FitFuture | NoFitCapacity | NoFitFragmentation | NoFitTopology | NoFitMemory
    | NoFitBandwidth | NoFitSloHeadroom | NeedsRevalidation | NotEnoughEvidence | Unknown

  // --- Usable devices -------------------------------------------------------------

  predicate OccursAt(s: string, part: string, i: nat) {
    i + |part| <= |s| && s[i..i + |part|] == part
  }

  predicate Contains(s: string, part: string) {
    exists i: nat | i <= |s| :: OccursAt(s, part, i)
  }

  predicate Allowed(c: DeviceCapability, classes: seq<AcceleratorClass>) {
    exists i | 0 <= i < |classes| :: c.architecture == classes[i].architecture && c.className == classes[i].name
  }

  predicate Compatible(d: Device, demand: Demand) {
    && (demand.requiredCapability != [] ==>
          || Contains(d.capability.architecture, demand.requiredCapability)
          || Contains(d.capability.name, demand.requiredCapability)
          || Contains(d.capability.className, demand.requiredCapability))
    && (demand.allowedClasses != [] ==> Allowed(d.capability, demand.allowedClasses))
  }

  method DeviceCompatible(d: Device, demand: Demand) returns (ok: bool)
    ensures ok == Compatible(d, demand)
  {
    if demand.requiredCapability != [] {
      if !Contains(d.capability.architecture, demand.requiredCapability)
         && !Contains(d.capability.name, demand.requiredCapability)
         && !Contains(d.capability.className, demand.requiredCapability) {
        return false;
      }
    }
    if demand.allowedClasses != [] {
      var any := false;
      for i := 0 to |demand.allowedClasses|
        invariant !any && forall j | 0 <= j < i ::
          !(d.capability.architecture == demand.allowedClasses[j].architecture
            && d.capability.className == demand.allowedClasses[j].name)
      {
        var ac := demand.allowedClasses[i];
        if d.capability.architecture == ac.architecture && d.capability.className == ac.name {
          any := true;
          break;
        }
      }
      if !any { return false; }
    }
    return true;
  }

  predicate Usable(d: Device, demand: Demand) {
    && Compatible(d, demand)
    && d.health != FAILED && d.health != DRAINING && d.health != UNDER_MAINTENANCE && d.health != UNKNOWN_HEALTH
    && !d.drained
  }

  function UsableDevices(devices: seq<Device>, demand: Demand): seq<Device> {
    if devices == [] then []
    else
      var (s, d) := (UsableDevices(devices[..|devices| - 1], demand), devices[|devices| - 1]);
      if Usable(d, demand) then s + [d] else s
  }

  function Decimal(n: nat): string {
    if n < 10 then ["0123456789"[n]] else Decimal(n / 10) + ["0123456789"[n % 10]]
  }

  // The label devices are grouped under: class and node.
  function Label(d: Device): string {
    d.capability.className + "/" + Decimal(d.nodeId)
  }

  function GroupSize(usable: seq<Device>, group: string): nat {
    if usable == [] then 0
    else GroupSize(usable[..|usable| - 1], group) + if Label(usable[|usable| - 1]) == group then 1 else 0
  }

  predicate SomeGroup(usable: seq<Device>, size: nat) {
    exists i | 0 <= i < |usable| :: GroupSize(usable, Label(usable[i])) >= size
  }

  predicate SomeBlock(usable: seq<Device>, required: U64) {
    exists i | 0 <= i < |usable| :: MemoryOf(usable[i].freeBlocks, required).shapeSatisfiable
  }

  // --- Effective capacity --------------------------------------------------------------

  function Abs(x: real): real {
    if x < 0.0 then -x else x
  }

  // A hold as amounts: absolute values, zeros dropped.
  function HoldOf(hold: Delta): Amounts {
    Amounts(map d | d in hold.changes && hold.changes[d] != 0.0 :: Abs(hold.changes[d]))
  }

  predicate Active(r: Reservation, now: int) {
    r.strength == HARD && r.interval.ContainsPoint(now)
  }

  function Effective(available: Amounts, rs: seq<Reservation>, now: int): Amounts {
    if rs == [] then available
    else
      var (before, r) := (Effective(available, rs[..|rs| - 1], now), rs[|rs| - 1]);
      if Active(r, now) then Monus(before, HoldOf(r.hold)) else before
  }

  // The least demanded dimension from d on that falls short.
  function FirstMissing(c: Amounts, req: Amounts, d: nat): Option<Dimension>
    requires d <= 256
    decreases 256 - d
  {
    if d == 256 then None
    else if d in req.entries && c.At(d) < req.entries[d] then Some(d)
    else FirstMissing(c, req, d + 1)
  }

  // No dimension is used up by the placement.
  predicate LeavesHeadroom(effective: Amounts, req: Amounts) {
    var after := Monus(effective, req);
    forall d | d in after.entries :: after.entries[d] > 0.0
  }

  // --- The gates -------------------------------------------------------------------------

  function Decide(view: View, demand: Demand): Outcome {
    if !demand.Valid() then Unknown
    else if view.freshness == RevalidationRequired || view.freshness == Stale then NeedsRevalidation
    else if view.freshness == InsufficientEvidence then NotEnoughEvidence
    else
      var usable := UsableDevices(view.devices, demand);
      if demand.topologyGroupSize.Some? && !SomeGroup(usable, demand.topologyGroupSize.value) then NoFitTopology
      else if |usable| < demand.minAccelerators then NoFitCapacity
      else if demand.requiresContiguousVram && !SomeBlock(usable, demand.minContiguousVram) then NoFitFragmentation
      else
        var effective := Effective(view.available, view.reservations, view.now);
        match FirstMissing(effective, demand.requirements, 0)
        case Some(d) => if IsRate(d) then NoFitBandwidth else if IsBytes(d) then NoFitMemory else NoFitCapacity
        case None =>
          if demand.maxFragmentation.Some?
             && ReportOf(view.devices, demand.minContiguousVram, demand.minAccelerators, 0).ratio
                > demand.maxFragmentation.value
          then NoFitFragmentation
          else if demand.sloHeadroom > 0.0
                  && (!LeavesHeadroom(effective, demand.requirements) || demand.sloHeadroom > 0.5)
          then NoFitSloHeadroom
          else FitNow
  }

  method EvaluateNow(view: View, demand: Demand) returns (outcome: Outcome)
    ensures outcome == Decide(view, demand)
  {
    if !demand.Valid() { return Unknown; }
    if view.freshness == RevalidationRequired || view.freshness == Stale { return NeedsRevalidation; }
    if view.freshness == InsufficientEvidence { return NotEnoughEvidence; }
    var usable := CollectUsable(view.devices, demand);
    if demand.topologyGroupSize.Some? {
      var ok := FindGroup(usable, demand.topologyGroupSize.value);
      if !ok { return NoFitTopology; }
    }
    if |usable| < demand.minAccelerators { return NoFitCapacity; }
    if demand.requiresContiguousVram {
      var anyBlock := FindBlock(usable, demand.minContiguousVram);
      if !anyBlock { return NoFitFragmentation; }
    }
    var effective := EffectiveNow(view.available, view.reservations, view.now);
    var missing := FindMissing(effective, demand.requirements);
    if missing.Some? {
      var kind := 0;
      if IsBytes(missing.value) { kind := 1; }
      if IsRate(missing.value) { kind := 2; }
      return if kind == 1 then NoFitMemory else if kind == 2 then NoFitBandwidth else NoFitCapacity;
    }
    if demand.maxFragmentation.Some? {
      var fr := AnalyzeFragmentation(view.devices, demand.minContiguousVram, demand.minAccelerators, 0);
      if fr.ratio > demand.maxFragmentation.value { return NoFitFragmentation; }
    }
    if demand.sloHeadroom > 0.0 {
      var sloOk := CheckHeadroom(effective, demand.requirements);
      if !sloOk || demand.sloHeadroom > 0.5 { return NoFitSloHeadroom; }
    }
    return FitNow;
  }

  method CheckHeadroom(effective: Amounts, req: Amounts) returns (ok: bool)
    ensures ok == LeavesHeadroom(effective, req)
  {
    var after := new Capacity(effective);
    after.SubtractClamp(req);
    ok := true;
    for d := 0 to 256
      invariant ok == forall k | k in after.amounts.entries && k < d :: after.amounts.entries[k] > 0.0
    {
      if d in after.amounts.entries && after.amounts.entries[d] <= 0.0 { ok := false; }
    }
  }

  method CollectUsable(devices: seq<Device>, demand: Demand) returns (usable: seq<Device>)
    ensures usable == UsableDevices(devices, demand)
  {
    usable := [];
    for i := 0 to |devices|
      invariant usable == UsableDevices(devices[..i], demand)
    {
      assert devices[..i + 1][..i] == devices[..i];
      var d := devices[i];
      var compatible := DeviceCompatible(d, demand);
      if compatible && d.health != FAILED && d.health != DRAINING && d.health != UNDER_MAINTENANCE
         && d.health != UNKNOWN_HEALTH && !d.drained {
        usable := usable + [d];
      }
    }
    assert devices[..|devices|] == devices;
  }

  // The counts per label, and which labels occur.
  ghost predicate IsTally(byGroup: map<string, nat>, usable: seq<Device>) {
    && (forall d | d in usable :: Label(d) in byGroup)
    && (forall l | l in byGroup :: byGroup[l] == GroupSize(usable, l))
    && (forall l | l in byGroup :: exists i :: 0 <= i < |usable| && Label(usable[i]) == l)
  }

  lemma {:induction false} NoGroup(usable: seq<Device>, group: string)
    requires forall d | d in usable :: Label(d) != group
    ensures GroupSize(usable, group) == 0
  {
    if usable != [] {
      assert usable[|usable| - 1] in usable;
      NoGroup(usable[..|usable| - 1], group);
    }
  }

  lemma TallyStep(byGroup: map<string, nat>, usable: seq<Device>, d: Device)
    requires IsTally(byGroup, usable)
    ensures var l := Label(d);
            IsTally(byGroup[l := (if l in byGroup then byGroup[l] else 0) + 1], usable + [d])
  {
    var l, next := Label(d), usable + [d];
    assert next[..|usable|] == usable && next[|usable|] == d;
    if l !in byGroup { NoGroup(usable, l); }
    var m := byGroup[l := (if l in byGroup then byGroup[l] else 0) + 1];
    forall k | k in m ensures exists i :: 0 <= i < |next| && Label(next[i]) == k {
      if k == l {
        assert Label(next[|usable|]) == k;
      } else {
        var i :| 0 <= i < |usable| && Label(usable[i]) == k;
        assert Label(next[i]) == k;
      }
    }
  }

  method FindGroup(usable: seq<Device>, size: nat) returns (ok: bool)
    ensures ok == SomeGroup(usable, size)
  {
    var byGroup: map<string, nat> := map[];
    for i := 0 to |usable|
      invariant IsTally(byGroup, usable[..i])
    {
      TallyStep(byGroup, usable[..i], usable[i]);
      assert usable[..i + 1] == usable[..i] + [usable[i]];
      var l := Label(usable[i]);
      byGroup := byGroup[l := (if l in byGroup then byGroup[l] else 0) + 1];
    }
    assert usable[..|usable|] == usable;
    TallyDecides(byGroup, usable, size);
    ok := exists l | l in byGroup :: byGroup[l] >= size;
  }

  lemma TallyDecides(byGroup: map<string, nat>, usable: seq<Device>, size: nat)
    requires IsTally(byGroup, usable)
    ensures (exists l | l in byGroup :: byGroup[l] >= size) <==> SomeGroup(usable, size)
  {
    if l :| l in byGroup && byGroup[l] >= size {
      var i :| 0 <= i < |usable| && Label(usable[i]) == l;
      assert GroupSize(usable, Label(usable[i])) >= size;
    }
    if SomeGroup(usable, size) {
      var i :| 0 <= i < |usable| && GroupSize(usable, Label(usable[i])) >= size;
      assert usable[i] in usable;
      assert byGroup[Label(usable[i])] >= size;
    }
  }

  method FindBlock(usable: seq<Device>, required: U64) returns (any: bool)
    ensures any == SomeBlock(usable, required)
  {
    for i := 0 to |usable|
      invariant forall j | 0 <= j < i :: !MemoryOf(usable[j].freeBlocks, required).shapeSatisfiable
    {
      var per := AnalyzeDeviceMemory(usable[i].freeBlocks, required);
      if per.shapeSatisfiable { return true; }
    }
    return false;
  }

  method FindMissing(c: Amounts, req: Amounts) returns (missing: Option<Dimension>)
    ensures missing == FirstMissing(c, req, 0)
  {
    for d := 0 to 256
      invariant FirstMissing(c, req, 0) == FirstMissing(c, req, d)
    {
      if d in req.entries && c.At(d) < req.entries[d] { return Some(d); }
    }
    return None;
  }

  // The hold, entry by entry in key order.
  method CollectHold(hold: Delta) returns (c: Amounts)
    ensures c == HoldOf(hold)
  {
    var out := new Capacity(NOTHING);
    HoldStart(hold.changes);
    for d := 0 to 256
      invariant out.amounts == HoldOf(Delta(Below(hold.changes, d)))
    {
      BelowStep(hold.changes, d);
      if d in hold.changes {
        HoldStep(Below(hold.changes, d), d, hold.changes[d]);
        var _ := out.SetAmount(d, Abs(hold.changes[d]));
      }
    }
    c := out.amounts;
  }

  lemma HoldStart(changes: map<Dimension, real>)
    ensures HoldOf(Delta(Below(changes, 0))) == NOTHING && Delta(Below(changes, 256)) == Delta(changes)
  {
    BelowEnds(changes);
    assert HoldOf(Delta(Below(changes, 0))).entries == map[];
  }

  lemma HoldStep(done: map<Dimension, real>, d: Dimension, v: real)
    requires d !in done
    ensures HoldOf(Delta(done[d := v])) == Set(HoldOf(Delta(done)), d, Abs(v))
  {
    assert HoldOf(Delta(done[d := v])).entries == Set(HoldOf(Delta(done)), d, Abs(v)).entries;
  }

  method EffectiveNow(available: Amounts, rs: seq<Reservation>, now: int) returns (c: Amounts)
    ensures c == Effective(available, rs, now)
  {
    var effective := new Capacity(available);
    for i := 0 to |rs|
      invariant effective.amounts == Effective(available, rs[..i], now)
    {
      assert rs[..i + 1][..i] == rs[..i];
      if rs[i].strength == HARD && rs[i].interval.ContainsPoint(now) {
        var hold := CollectHold(rs[i].hold);
        effective.SubtractClamp(hold);
      }
    }
    assert rs[..|rs|] == rs;
    c := effective.amounts;
  }

  // --- The effective capacity ----------------------------------------------------------------

  // xs keeps some of the elements of ys, in order.
  ghost predicate Subsequence<T(!new)>(xs: seq<T>, ys: seq<T>)
    decreases |ys|
  {
    xs == [] ||
    (ys != [] &&
     (|| (xs[|xs| - 1] == ys[|ys| - 1] && Subsequence(xs[..|xs| - 1], ys[..|ys| - 1]))
      || Subsequence(xs, ys[..|ys| - 1])))
  }

  lemma {:induction false} EffectiveNonNegative(available: Amounts, rs: seq<Reservation>, now: int)
    requires available.NonNegative()
    ensures Effective(available, rs, now).NonNegative()
  {
    if rs != [] { EffectiveNonNegative(available, rs[..|rs| - 1], now); }
  }

  // a offers at least what b does, and stores no entry that b does not.
  ghost predicate Dominates(a: Amounts, b: Amounts) {
    forall d: Dimension :: a.At(d) >= b.At(d) && (a.Has(d) ==> b.Has(d))
  }

  // What an active hard hold takes of a dimension.
  function TakenFn(d: Dimension, now: int): Reservation -> real {
    (r: Reservation) => if Active(r, now) then Abs(r.hold.At(d)) else 0.0
  }

  // Whatever the holds and their order, the clamp acts once on the sum of what they take.
  lemma {:induction false} EffectiveAt(available: Amounts, rs: seq<Reservation>, now: int, d: Dimension)
    requires available.NonNegative()
    ensures SumBy(rs, TakenFn(d, now)) >= 0.0
    ensures Effective(available, rs, now).At(d) == Max0(available.At(d) - SumBy(rs, TakenFn(d, now)))
  {
    if rs != [] {
      EffectiveAt(available, rs[..|rs| - 1], now, d);
      HoldAt(rs[|rs| - 1].hold, d);
    }
  }

  // An entry is stored exactly where there was one or an active hold has one.
  lemma {:induction false} EffectiveHas(available: Amounts, rs: seq<Reservation>, now: int, d: Dimension)
    ensures Effective(available, rs, now).Has(d)
            <==> available.Has(d) || exists r | r in rs :: Active(r, now) && HoldOf(r.hold).Has(d)
  {
    if rs != [] {
      var init, last := rs[..|rs| - 1], rs[|rs| - 1];
      EffectiveHas(available, init, now, d);
      assert last in rs && forall r | r in init :: r in rs;
      assert forall r | r in rs :: r == last || r in init;
    }
  }

  // Any subset of the reservations, in any order, leaves at least as much.
  lemma FewerHoldsLeaveMore(available: Amounts, fewer: seq<Reservation>, rs: seq<Reservation>, now: int)
    requires available.NonNegative() && multiset(fewer) <= multiset(rs)
    ensures Dominates(Effective(available, fewer, now), Effective(available, rs, now))
  {
    forall d: Dimension
      ensures Effective(available, fewer, now).At(d) >= Effective(available, rs, now).At(d)
      ensures Effective(available, fewer, now).Has(d) ==> Effective(available, rs, now).Has(d)
    {
      EffectiveAt(available, fewer, now, d);
      EffectiveAt(available, rs, now, d);
      SumBySubset(fewer, rs, TakenFn(d, now));
      EffectiveHas(available, fewer, now, d);
      EffectiveHas(available, rs, now, d);
      SubsetMembers(fewer, rs);
    }
  }

  lemma SubsetMembers<T>(xs: seq<T>, ys: seq<T>)
    requires multiset(xs) <= multiset(ys)
    ensures forall x | x in xs :: x in ys
  {
    forall x | x in xs ensures x in ys {
      assert x in multiset(xs);
      assert x in multiset(ys);
    }
  }

  // In each dimension the order of the reservations does not matter: the clamp acts
  // once on the sum of the active hard holds.
  lemma {:induction false} EffectiveIsSum(available: Amounts, rs: seq<Reservation>, now: int, d: Dimension)
    requires available.NonNegative() && WellFormed(rs, [], d)
    ensures Effective(available, rs, now).At(d)
            == Max0(available.At(d) - SumBy(rs, HeldFn(GUARANTEED, d, now)))
    ensures SumBy(rs, HeldFn(GUARANTEED, d, now)) >= 0.0
  {
    if rs != [] {
      var init, r := rs[..|rs| - 1], rs[|rs| - 1];
      assert r in rs;
      EffectiveIsSum(available, init, now, d);
      HoldAt(r.hold, d);
      assert Counts(r, GUARANTEED) == (r.strength == HARD);
    }
  }

  lemma HoldAt(hold: Delta, d: Dimension)
    ensures HoldOf(hold).NonNegative() && HoldOf(hold).At(d) == Abs(hold.At(d))
  {
  }

  // The two paths to the guaranteed capacity at time zero agree in every dimension:
  // subtracting the active holds one by one, and reading the event timeline.
  lemma PathsAgreeAtZero(available: Amounts, rs: seq<Reservation>, rels: seq<Release>, events: seq<Event>,
                         d: Dimension)
    requires NothingReleasedYet(available, events, rs, rels, GUARANTEED, d)
    ensures Effective(available, rs, 0).At(d) == CurveAt(available, events, 0).At(d)
  {
    CurveAtZero(available, events, rs, rels, GUARANTEED, d);
    LeftAtZero(available, rs, rels, events, d);
  }

  lemma LeftAtZero(available: Amounts, rs: seq<Reservation>, rels: seq<Release>, events: seq<Event>, d: Dimension)
    requires NothingReleasedYet(available, events, rs, rels, GUARANTEED, d)
    ensures Effective(available, rs, 0).At(d) == Max0(available.At(d) - SumBy(rs, HeldFn(GUARANTEED, d, 0)))
  {
    QuietHolds(available, events, rs, rels, GUARANTEED, d);
    LeftOfHolds(available, rs, d);
  }

  lemma LeftOfHolds(available: Amounts, rs: seq<Reservation>, d: Dimension)
    requires available.NonNegative() && WellFormed(rs, [], d)
    ensures Effective(available, rs, 0).At(d) == Max0(available.At(d) - SumBy(rs, HeldFn(GUARANTEED, d, 0)))
  {
    EffectiveIsSum(available, rs, 0, d);
  }

  // --- Monotonicity ---------------------------------------------------------------------------

  // w asks for no more than d in any respect.
  ghost predicate Weaker(w: Demand, d: Demand) {
    && w.Valid()
    && w.requirements.Normal()
    && (forall k: Dimension :: w.requirements.At(k) <= d.requirements.At(k))
    && w.minAccelerators <= d.minAccelerators
    && (w.topologyGroupSize.Some? ==>
          d.topologyGroupSize.Some? && w.topologyGroupSize.value <= d.topologyGroupSize.value)
    && (w.requiresContiguousVram ==> d.requiresContiguousVram)
    && w.minContiguousVram <= d.minContiguousVram
    && (w.maxFragmentation.Some? ==>
          d.maxFragmentation.Some? && w.maxFragmentation.value >= d.maxFragmentation.value)
    && w.sloHeadroom <= d.sloHeadroom
    && (w.requiredCapability == [] || w.requiredCapability == d.requiredCapability)
    && (w.allowedClasses == []
        || (d.allowedClasses != [] && forall c | c in d.allowedClasses :: c in w.allowedClasses))
  }

  lemma WeakerUsable(dev: Device, w: Demand, d: Demand)
    requires Weaker(w, d) && Usable(dev, d)
    ensures Usable(dev, w)
  {
    if w.allowedClasses != [] {
      var i :| 0 <= i < |d.allowedClasses|
               && dev.capability.architecture == d.allowedClasses[i].architecture
               && dev.capability.className == d.allowedClasses[i].name;
      assert d.allowedClasses[i] in w.allowedClasses;
    }
  }

  lemma {:induction false} MoreUsable(devices: seq<Device>, w: Demand, d: Demand)
    requires Weaker(w, d)
    ensures Subsequence(UsableDevices(devices, d), UsableDevices(devices, w))
  {
    if devices != [] {
      var init, x := devices[..|devices| - 1], devices[|devices| - 1];
      MoreUsable(init, w, d);
      var a, b := UsableDevices(init, d), UsableDevices(init, w);
      if Usable(x, d) {
        WeakerUsable(x, w, d);
        assert (a + [x])[..|a|] == a && (b + [x])[..|b|] == b;
      } else if Usable(x, w) {
        assert (b + [x])[..|b|] == b;
      }
    }
  }

  lemma {:induction false} SubsequenceMembers<T(!new)>(xs: seq<T>, ys: seq<T>, x: T)
    requires Subsequence(xs, ys) && x in xs
    ensures x in ys && |xs| <= |ys|
    decreases |ys|
  {
    var n, m := |xs| - 1, |ys| - 1;
    if xs[n] == ys[m] && Subsequence(xs[..n], ys[..m]) {
      if x in xs[..n] { SubsequenceMembers(xs[..n], ys[..m], x); }
      else if n > 0 { SubsequenceMembers(xs[..n], ys[..m], xs[0]); }
    } else {
      SubsequenceMembers(xs, ys[..m], x);
    }
  }

  lemma {:induction false} LargerGroups(xs: seq<Device>, ys: seq<Device>, group: string)
    requires Subsequence(xs, ys)
    ensures GroupSize(xs, group) <= GroupSize(ys, group)
    decreases |ys|
  {
    if xs != [] {
      var n, m := |xs| - 1, |ys| - 1;
      if xs[n] == ys[m] && Subsequence(xs[..n], ys[..m]) {
        LargerGroups(xs[..n], ys[..m], group);
      } else {
        LargerGroups(xs, ys[..m], group);
      }
    }
  }

  // The demand falls short in dimension k.
  predicate Short(c: Amounts, req: Amounts, k: int) {
    0 <= k < 256 && k in req.entries && c.At(k) < req.entries[k]
  }

  // The dimension that is reported is the least one that falls short.
  lemma {:induction false} MissingIsLeast(c: Amounts, req: Amounts, d: nat)
    requires d <= 256
    ensures match FirstMissing(c, req, d)
            case None => forall k | d <= k :: !Short(c, req, k)
            case Some(m) => d <= m && Short(c, req, m) && forall k | d <= k < m :: !Short(c, req, k)
    decreases 256 - d
  {
    if d < 256 { MissingIsLeast(c, req, d + 1); }
  }

  lemma NothingMissingIff(c: Amounts, req: Amounts)
    ensures FirstMissing(c, req, 0).None? <==> c.Satisfies(req)
  {
    MissingIsLeast(c, req, 0);
    forall k | k in req.entries && c.At(k) < req.entries[k] ensures Short(c, req, k) {
    }
  }

  // No capacity is reported missing exactly when, in every dimension that is demanded,
  // the demand and all that the active hard holds take are together within what is available.
  lemma CapacityGateIff(available: Amounts, rs: seq<Reservation>, now: int, req: Amounts)
    requires available.NonNegative() && req.NonNegative()
    ensures FirstMissing(Effective(available, rs, now), req, 0).None?
            <==> forall d: Dimension | req.At(d) > 0.0 ::
                   req.At(d) + SumBy(rs, TakenFn(d, now)) <= available.At(d)
  {
    var left := Effective(available, rs, now);
    NothingMissingIff(left, req);
    forall d: Dimension
      ensures left.At(d) == Max0(available.At(d) - SumBy(rs, TakenFn(d, now)))
      ensures SumBy(rs, TakenFn(d, now)) >= 0.0
    {
      EffectiveAt(available, rs, now, d);
    }
    if forall d: Dimension | req.At(d) > 0.0 :: req.At(d) + SumBy(rs, TakenFn(d, now)) <= available.At(d) {
      forall d | d in req.entries ensures left.At(d) >= req.entries[d] {
        assert req.At(d) == req.entries[d];
      }
    } else {
      var d: Dimension :| req.At(d) > 0.0 && req.At(d) + SumBy(rs, TakenFn(d, now)) > available.At(d);
      assert d in req.entries && left.At(d) < req.entries[d];
    }
  }

  lemma WeakerRequirements(a: Amounts, b: Amounts, w: Amounts, r: Amounts)
    requires Dominates(a, b) && b.NonNegative()
    requires w.Normal() && forall k: Dimension :: w.At(k) <= r.At(k)
    ensures b.Satisfies(r) ==> a.Satisfies(w)
    ensures b.Satisfies(r) && LeavesHeadroom(b, r) ==> LeavesHeadroom(a, w)
  {
    if b.Satisfies(r) {
      forall k | k in w.entries ensures a.At(k) >= w.entries[k] {
        assert w.At(k) <= r.At(k) && a.At(k) >= b.At(k);
        assert r.Has(k) && b.At(k) >= r.At(k);
      }
      if LeavesHeadroom(b, r) {
        var x, y := Monus(a, w), Monus(b, r);
        forall k | k in x.entries ensures x.entries[k] > 0.0 {
          assert w.At(k) <= r.At(k) && a.At(k) >= b.At(k);
          assert y.Has(k) && y.entries[k] > 0.0;
          assert r.Has(k) ==> b.At(k) >= r.At(k);
        }
      }
    }
  }

  // A demand that fits still fits with fewer reservations, and so does every weaker
  // demand: every gate of the decision is monotone.
  lemma FitIsMonotone(view: View, fewer: seq<Reservation>, w: Demand, d: Demand)
    requires view.available.NonNegative() && multiset(fewer) <= multiset(view.reservations)
    requires Weaker(w, d) && Decide(view, d) == FitNow
    ensures Decide(view.(reservations := fewer), w) == FitNow
  {
    MoreUsable(view.devices, w, d);
    var a := Effective(view.available, fewer, view.now);
    var b := Effective(view.available, view.reservations, view.now);
    FewerHoldsLeaveMore(view.available, fewer, view.reservations, view.now);
    EffectiveNonNegative(view.available, view.reservations, view.now);
    NothingMissingIff(b, d.requirements);
    NothingMissingIff(a, w.requirements);
    WeakerRequirements(a, b, w.requirements, d.requirements);
    RatioMonotone(view.devices, w.minContiguousVram, d.minContiguousVram);
    GroupsAndBlocks(UsableDevices(view.devices, w), UsableDevices(view.devices, d), w, d);
  }

  lemma GroupsAndBlocks(more: seq<Device>, fewer: seq<Device>, w: Demand, d: Demand)
    requires Weaker(w, d) && Subsequence(fewer, more)
    ensures |fewer| <= |more|
    ensures w.topologyGroupSize.Some? && SomeGroup(fewer, d.topologyGroupSize.value) ==>
              SomeGroup(more, w.topologyGroupSize.value)
    ensures SomeBlock(fewer, d.minContiguousVram) ==> SomeBlock(more, w.minContiguousVram)
  {
    if fewer != [] {
      SubsequenceMembers(fewer, more, fewer[0]);
    }
    if w.topologyGroupSize.Some? && SomeGroup(fewer, d.topologyGroupSize.value) {
      var i :| 0 <= i < |fewer| && GroupSize(fewer, Label(fewer[i])) >= d.topologyGroupSize.value;
      SubsequenceMembers(fewer, more, fewer[i]);
      LargerGroups(fewer, more, Label(fewer[i]));
      var j :| 0 <= j < |more| && more[j] == fewer[i];
      assert GroupSize(more, Label(more[j])) >= w.topologyGroupSize.value;
    }
    if SomeBlock(fewer, d.minContiguousVram) {
      var i :| 0 <= i < |fewer| && MemoryOf(fewer[i].freeBlocks, d.minContiguousVram).shapeSatisfiable;
      SubsequenceMembers(fewer, more, fewer[i]);
      var j :| 0 <= j < |more| && more[j] == fewer[i];
      assert MemoryOf(more[j].freeBlocks, w.minContiguousVram).shapeSatisfiable;
    }
  }
}
