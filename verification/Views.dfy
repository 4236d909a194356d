/** The aggregated view and the queries on it (src/model/model.cpp, buildView and query*). */
module Views {
  import opened Capacities
  import opened Timelines
  import opened Sums
  import opened Fleet
  import opened Forecasts
  import opened Feasibility
  import opened EarliestFits
  import opened Authority
  import opened Payload
  import Scenarios
  import ScenarioLaws

  // --- Keys in increasing order, as a sorted map visits them ------------------------

  lemma {:induction false} GreatestExists(s: set<nat>)
    requires s != {}
    ensures exists m :: m in s && forall x | x in s :: x <= m
  {
    var x :| x in s;
    if s - {x} == {} {
      assert s == {x};
    } else {
      GreatestExists(s - {x});
      var m :| m in s - {x} && forall y | y in s - {x} :: y <= m;
      var top := if m < x then x else m;
      forall y | y in s ensures y <= top {
        assert y == x || y in s - {x};
      }
      assert top in s;
    }
  }

  function Greatest(s: set<nat>): (m: nat)
    requires s != {}
    ensures m in s && forall x | x in s :: x <= m
  {
    GreatestExists(s);
    var m :| m in s && forall x | x in s :: x <= m;
    m
  }

  function Ascending(s: set<nat>): (r: seq<nat>)
    ensures forall x :: x in r <==> x in s
  {
    if s == {} then [] else Ascending(s - {Greatest(s)}) + [Greatest(s)]
  }

  lemma {:induction false} AscendingIncreases(s: set<nat>)
    ensures forall i, j | 0 <= i < j < |Ascending(s)| :: Ascending(s)[i] < Ascending(s)[j]
  {
    if s != {} {
      var rest := s - {Greatest(s)};
      AscendingIncreases(rest);
      forall i | 0 <= i < |Ascending(rest)| ensures Ascending(rest)[i] < Greatest(s) {
        assert Ascending(rest)[i] in Ascending(rest);
      }
    }
  }

  // --- The view ------------------------------------------------------------------------

  function ResourcesOf(m: map<nat, Resource>, ids: seq<nat>): seq<Resource>
    requires forall id | id in ids :: id in m
  {
    if ids == [] then [] else ResourcesOf(m, ids[..|ids| - 1]) + [m[ids[|ids| - 1]]]
  }

  // A device starts from what is registered; a resource tells all but the two flags.
  function Shown(s: State, r: Resource): Device {
    var known := r.deviceId in s.devices;
    DeviceOf(r).(drained := known && s.devices[r.deviceId].drained,
                 maintenance := known && s.devices[r.deviceId].maintenance)
  }

  // The later resource wins a shared device.
  function DeviceIndex(s: State, rs: seq<Resource>): map<nat, Device> {
    if rs == [] then map[]
    else DeviceIndex(s, rs[..|rs| - 1])[rs[|rs| - 1].deviceId := Shown(s, rs[|rs| - 1])]
  }

  datatype Tally = Tally(available: Amounts, nominal: Amounts, committed: Amounts, unavailable: Amounts,
                         anyStale: bool, anyCurrent: bool)

  function TallyOf(s: State, rs: seq<Resource>): Tally {
    if rs == [] then Tally(NOTHING, NOTHING, NOTHING, NOTHING, false, false)
    else
      var (t, r) := (TallyOf(s, rs[..|rs| - 1]), rs[|rs| - 1]);
      Tally(if s.IsCurrent(r) then Sum(t.available, r.free) else t.available,
            Sum(t.nominal, r.nominal), Sum(t.committed, r.committed), Sum(t.unavailable, r.unavailable),
            t.anyStale || !s.IsCurrent(r), t.anyCurrent || s.IsCurrent(r))
  }

  function Ordered(s: State): seq<Resource> {
    ResourcesOf(s.resources, Ascending(s.resources.Keys))
  }

  function FreshnessOf(empty: bool, anyCurrent: bool): Freshness {
    if empty then InsufficientEvidence else if !anyCurrent then RevalidationRequired else Fresh
  }

  function ViewOf(s: State, now: int): View {
    var rs := Ordered(s);
    var t := TallyOf(s, rs);
    View(DevicesOf(DeviceIndex(s, rs), Ascending(DeviceIndex(s, rs).Keys)), rs, t.available, t.nominal, t.committed,
         t.unavailable, CurrentUse(t.nominal, t.available, t.committed, t.unavailable),
         s.reservations, s.releases, [], now, FreshnessOf(s.resources == map[], t.anyCurrent), t.anyStale, false)
  }

  function DevicesOf(m: map<nat, Device>, ids: seq<nat>): seq<Device>
    requires forall id | id in ids :: id in m
  {
    if ids == [] then [] else DevicesOf(m, ids[..|ids| - 1]) + [m[ids[|ids| - 1]]]
  }

  method BuildView(s: State, now: int) returns (v: View)
    ensures v == ViewOf(s, now)
  {
    var rs := Ordered(s);
    var t, index := TallyAndIndex(s, rs);
    var freshness := Fresh;
    if s.resources == map[] || !t.anyCurrent {
      freshness := if s.resources == map[] then InsufficientEvidence else RevalidationRequired;
      if t.anyStale && !t.anyCurrent { freshness := RevalidationRequired; }
    }
    if s.resources == map[] {
      assert Ascending(s.resources.Keys) == [];
    }
    var use := SubtractUse(t.nominal, t.available, t.committed, t.unavailable);
    v := View(DevicesOf(index, Ascending(index.Keys)), rs, t.available, t.nominal, t.committed, t.unavailable,
              use, s.reservations, s.releases, [], now, freshness, t.anyStale, false);
  }

  method TallyAndIndex(s: State, rs: seq<Resource>) returns (t: Tally, index: map<nat, Device>)
    ensures t == TallyOf(s, rs) && index == DeviceIndex(s, rs)
  {
    index := map[];
    var anyStale, anyCurrent := false, false;
    var available := new Capacity(NOTHING);
    var nominal := new Capacity(NOTHING);
    var committed := new Capacity(NOTHING);
    var unavailable := new Capacity(NOTHING);
    for i := 0 to |rs|
      invariant index == DeviceIndex(s, rs[..i])
      invariant anyStale == TallyOf(s, rs[..i]).anyStale && anyCurrent == TallyOf(s, rs[..i]).anyCurrent
      invariant available.amounts == TallyOf(s, rs[..i]).available
      invariant nominal.amounts == TallyOf(s, rs[..i]).nominal
      invariant committed.amounts == TallyOf(s, rs[..i]).committed
      invariant unavailable.amounts == TallyOf(s, rs[..i]).unavailable
    {
      var r := rs[i];
      TallyStep(s, rs, i);
      var current := s.IsCurrent(r);
      if !current { anyStale := true; }
      index := index[r.deviceId := Shown(s, r)];
      nominal.Add(r.nominal);
      committed.Add(r.committed);
      unavailable.Add(r.unavailable);
      if current {
        available.Add(r.free);
        anyCurrent := true;
      }
    }
    assert rs[..|rs|] == rs;
    t := Tally(available.amounts, nominal.amounts, committed.amounts, unavailable.amounts, anyStale, anyCurrent);
  }

  lemma TallyStep(s: State, rs: seq<Resource>, i: nat)
    requires i < |rs|
    ensures var (t, u, r) := (TallyOf(s, rs[..i]), TallyOf(s, rs[..i + 1]), rs[i]);
            && u.available == (if s.IsCurrent(r) then Sum(t.available, r.free) else t.available)
            && u.nominal == Sum(t.nominal, r.nominal) && u.committed == Sum(t.committed, r.committed)
            && u.unavailable == Sum(t.unavailable, r.unavailable)
            && u.anyStale == (t.anyStale || !s.IsCurrent(r)) && u.anyCurrent == (t.anyCurrent || s.IsCurrent(r))
    ensures DeviceIndex(s, rs[..i + 1])
            == DeviceIndex(s, rs[..i])[rs[i].deviceId := Shown(s, rs[i])]
  {
    assert rs[..i + 1][..i] == rs[..i];
  }

  // --- Available is the sum over exactly the current resources ----------------------------

  function CurrentIds(s: State): set<nat> {
    set id | id in s.resources && s.IsCurrent(s.resources[id])
  }

  // The free amount of a resource, by id.
  function FreeFn(s: State, d: Dimension): nat -> real {
    (id: nat) => if id in s.resources then s.resources[id].free.At(d) else 0.0
  }

  // The same, counting only current evidence.
  function CurrentFreeFn(s: State, d: Dimension): nat -> real {
    (id: nat) => if id in s.resources && s.IsCurrent(s.resources[id]) then s.resources[id].free.At(d) else 0.0
  }

  lemma {:induction false} TallyIsSum(s: State, ids: seq<nat>, d: Dimension)
    requires forall id | id in ids :: id in s.resources
    ensures TallyOf(s, ResourcesOf(s.resources, ids)).available.At(d) == SumBy(ids, CurrentFreeFn(s, d))
  {
    if ids != [] {
      var init, id := ids[..|ids| - 1], ids[|ids| - 1];
      assert id in ids;
      TallyIsSum(s, init, d);
      var before, r := ResourcesOf(s.resources, init), s.resources[id];
      assert (before + [r])[..|before|] == before;
      Scenarios.SumAt(TallyOf(s, before).available, r.free, d);
    }
  }

  // Ids that weigh nothing can be left out of an ordered sum.
  lemma {:induction false} SumOverSubset(all: set<nat>, kept: set<nat>, f: nat -> real)
    requires kept <= all && forall x | x in all - kept :: f(x) == 0.0
    ensures SumBy(Ascending(all), f) == SumBy(Ascending(kept), f)
  {
    if all != {} {
      var m := Greatest(all);
      SumOverSubset(all - {m}, kept - {m}, f);
      SumByOne(Ascending(all - {m}), m, f);
      if m in kept {
        assert Greatest(kept) == m;
        SumByOne(Ascending(kept - {m}), m, f);
      } else {
        assert kept - {m} == kept;
      }
    }
  }

  // In every state, what is available in a dimension is the sum of the free amounts of
  // exactly the resources published under the live boot of their worker.
  lemma AvailableIsCurrentSum(s: State, now: int, d: Dimension)
    ensures ViewOf(s, now).available.At(d) == SumBy(Ascending(CurrentIds(s)), FreeFn(s, d))
  {
    TallyIsSum(s, Ascending(s.resources.Keys), d);
    SumOverSubset(s.resources.Keys, CurrentIds(s), CurrentFreeFn(s, d));
    SumByEqual(Ascending(CurrentIds(s)), CurrentFreeFn(s, d), FreeFn(s, d));
  }

  // The list visits every id once, so that sum is the one over any list of the current
  // resources that does: no resource is counted twice, and the order does not matter.
  lemma AvailableCountsEachOnce(s: State, now: int, d: Dimension, ids: seq<nat>)
    requires Distinct(ids) && forall id :: id in ids <==> id in CurrentIds(s)
    ensures ViewOf(s, now).available.At(d) == SumBy(ids, FreeFn(s, d))
  {
    AvailableIsCurrentSum(s, now, d);
    AscendingIncreases(CurrentIds(s));
    DistinctSame(Ascending(CurrentIds(s)), ids);
    SumByPermutes(Ascending(CurrentIds(s)), ids, FreeFn(s, d));
  }

  ghost predicate Distinct(xs: seq<nat>) {
    forall i, j | 0 <= i < j < |xs| :: xs[i] != xs[j]
  }

  lemma {:induction false} DistinctCount(xs: seq<nat>, x: nat)
    requires Distinct(xs)
    ensures multiset(xs)[x] == if x in xs then 1 else 0
  {
    if xs != [] {
      var n := |xs| - 1;
      assert xs == xs[..n] + [xs[n]];
      DistinctCount(xs[..n], x);
    }
  }

  lemma DistinctSame(xs: seq<nat>, ys: seq<nat>)
    requires Distinct(xs) && Distinct(ys) && forall x :: x in xs <==> x in ys
    ensures multiset(xs) == multiset(ys)
  {
    forall x: nat ensures multiset(xs)[x] == multiset(ys)[x] {
      DistinctCount(xs, x);
      DistinctCount(ys, x);
    }
  }

  // Evidence that is not current does not matter: forgetting a stale resource changes
  // no available amount.
  lemma StaleEvidenceIsInert(s: State, id: nat, now: int, d: Dimension)
    requires id in s.resources && !s.IsCurrent(s.resources[id])
    ensures ViewOf(s.(resources := s.resources - {id}), now).available.At(d) == ViewOf(s, now).available.At(d)
  {
    var t := s.(resources := s.resources - {id});
    assert SumBy(Ascending(CurrentIds(s)), FreeFn(s, d)) == SumBy(Ascending(CurrentIds(t)), FreeFn(t, d)) by {
      assert CurrentIds(t) == CurrentIds(s);
      SumByEqual(Ascending(CurrentIds(s)), FreeFn(s, d), FreeFn(t, d));
    }
    AvailableIsCurrentSum(s, now, d);
    AvailableIsCurrentSum(t, now, d);
  }

  // Whatever was published under an earlier boot of a worker counts for nothing while
  // a later boot is live, in every run up to the worker's death.
  lemma EarlierBootNeverCounts(s: State, steps: seq<Step>, w: nat, id: nat)
    requires s.Alive(w) && forall x | x in steps :: !IsDeathOf(x, w)
    requires id in Run(s, steps).resources
    requires Run(s, steps).resources[id].worker == w
    requires Run(s, steps).resources[id].bootId != s.sources[w].bootId
    ensures id !in CurrentIds(Run(s, steps))
  {
    LiveBootHeld(s, steps, w);
  }

  // Nothing published under a boot that has died counts again until a Register of that very
  // boot is accepted.
  lemma DeadEvidenceNeverCounts(s: State, steps: seq<Step>, w: nat, boot: nat, id: nat)
    requires !s.Live(w, boot) && NoAcceptedRegister(s, steps, w, boot)
    requires id in Run(s, steps).resources
    requires Run(s, steps).resources[id].worker == w && Run(s, steps).resources[id].bootId == boot
    ensures id !in CurrentIds(Run(s, steps))
  {
    DeadBootStaysDead(s, steps, w, boot);
  }

  // --- After a restart ------------------------------------------------------------------------

  lemma {:induction false} NothingCurrent(s: State, rs: seq<Resource>)
    requires forall r | r in rs :: r.bootId == 0
    ensures TallyOf(s, rs).available == NOTHING && !TallyOf(s, rs).anyCurrent
  {
    if rs != [] {
      assert rs[|rs| - 1] in rs;
      NothingCurrent(s, rs[..|rs| - 1]);
    }
  }

  lemma {:induction false} ResourcesOfMembers(m: map<nat, Resource>, ids: seq<nat>)
    requires forall id | id in ids :: id in m
    ensures forall r | r in ResourcesOf(m, ids) :: exists id :: id in ids && m[id] == r
  {
    if ids != [] {
      assert ids[|ids| - 1] in ids;
      ResourcesOfMembers(m, ids[..|ids| - 1]);
    }
  }

  lemma NoEvidenceNoCapacity(s: State, now: int)
    requires NoDynamicEvidence(s)
    ensures ViewOf(s, now).available == NOTHING && ViewOf(s, now).freshness != Fresh
    ensures ViewOf(s, now).freshness in {InsufficientEvidence, RevalidationRequired}
  {
    var ids := Ascending(s.resources.Keys);
    ResourcesOfMembers(s.resources, ids);
    forall r | r in Ordered(s) ensures r.bootId == 0 {
      var id :| id in ids && s.resources[id] == r;
    }
    NothingCurrent(s, Ordered(s));
  }

  // --- Queries -----------------------------------------------------------------------------------

  // The answer to a feasibility query: the present is decided from the view, the future
  // from a timeline, and only on fresh evidence.
  ghost predicate IsFeasibility(s: State, demand: Demand, mode: QueryMode, time: TimePoint, o: Outcome) {
    if time <= 0 then o == Decide(ViewOf(s, time), demand)
    else if ViewOf(s, time).freshness != Fresh then o == NeedsRevalidation
    else exists events | IsTimelineOf(events, s.reservations, s.releases, mode) ::
           o == if CurveAt(ViewOf(s, time).available, events, time).Satisfies(demand.requirements)
                then FitFuture else NoFitCapacity
  }

  // From a successful load on, in every run without an accepted resource publication:
  // nothing is available and no feasibility query, of any mode and for any time, says
  // that the demand fits now or later.
  lemma RestartIsConservative(s: State, bytes: Bytes, steps: seq<Step>, demand: Demand,
                              mode: QueryMode, time: TimePoint, o: Outcome)
    ensures var (u, ok) := Apply(s, Load(bytes));
            var t := Run(u, steps);
            ok && NoAcceptedPublish(u, steps) ==>
              && ViewOf(t, time).available == NOTHING
              && (IsFeasibility(t, demand, mode, time, o) ==> o in {Unknown, NeedsRevalidation, NotEnoughEvidence})
  {
    var (u, ok) := Apply(s, Load(bytes));
    if ok && NoAcceptedPublish(u, steps) {
      LoadDropsEvidence(s, bytes);
      EvidenceStaysDropped(u, steps);
      NoEvidenceNoCapacity(Run(u, steps), time);
    }
  }

  method QueryFeasibility(s: State, demand: Demand, mode: QueryMode, time: TimePoint) returns (o: Outcome)
    ensures IsFeasibility(s, demand, mode, time, o)
  {
    var view := BuildView(s, time);
    if time <= 0 {
      o := EvaluateNow(view, demand);
      return;
    }
    if view.freshness != Fresh { return NeedsRevalidation; }
    var tl := BuildTimeline(view.available, view.reservations, view.releases, mode);
    var cap := tl.CapacityAt(time);
    o := if cap.Satisfies(demand.requirements) then FitFuture else NoFitCapacity;
    assert IsTimelineOf(tl.events, s.reservations, s.releases, mode);
  }

  // The answer to a capacity query: some timeline of the mode, at the time asked.
  ghost predicate IsCapacity(s: State, mode: QueryMode, time: TimePoint, c: Amounts) {
    exists events | IsTimelineOf(events, s.reservations, s.releases, mode) ::
      c == CurveAt(ViewOf(s, 0).available, events, time)
  }

  method QueryCapacity(s: State, mode: QueryMode, time: TimePoint) returns (c: Amounts)
    ensures IsCapacity(s, mode, time, c)
  {
    var view := BuildView(s, 0);
    var tl := BuildTimeline(view.available, view.reservations, view.releases, mode);
    c := tl.CapacityAt(time);
    assert IsTimelineOf(tl.events, s.reservations, s.releases, mode);
  }

  // What an earliest-fit query asks.
  datatype Ask = Ask(req: Amounts, mode: QueryMode, earliest: TimePoint, duration: int, horizon: int)

  // The search for it over one timeline of the mode.
  function Over(s: State, ask: Ask, events: seq<Event>): Query {
    Query(ViewOf(s, 0).available, events, ask.req, ask.earliest, ask.duration, ask.horizon)
  }

  ghost predicate IsEarliestFit(s: State, ask: Ask, r: Answer) {
    exists events | IsTimelineOf(events, s.reservations, s.releases, ask.mode) ::
      IsSearchAnswer(Over(s, ask, events), r)
  }

  method QueryEarliestFit(s: State, demand: Demand, mode: QueryMode, earliest: TimePoint, duration: int, horizon: int)
    returns (r: Answer)
    ensures IsEarliestFit(s, Ask(demand.requirements, mode, earliest, duration, horizon), r)
  {
    var view := BuildView(s, 0);
    var tl := BuildTimeline(view.available, view.reservations, view.releases, mode);
    r := EarliestFit(tl, demand.requirements, earliest, duration, horizon);
    assert IsTimelineOf(tl.events, s.reservations, s.releases, mode);
  }

  method EvaluateScenario(s: State, actions: seq<Scenarios.Action>, demand: Demand) returns (o: Outcome)
    ensures o == Decide(Scenarios.Applied(ViewOf(s, 0), actions), demand)
  {
    var base := BuildView(s, 0);
    var modified := Scenarios.ApplyScenario(base, actions);
    o := EvaluateNow(modified, demand);
  }

  // After a restart, and until something is published again, no scenario fits either,
  // whatever it adds.
  lemma NoScenarioFitsAfterRestart(s: State, bytes: Bytes, steps: seq<Step>, actions: seq<Scenarios.Action>,
                                   demand: Demand)
    ensures var (u, ok) := Apply(s, Load(bytes));
            ok && NoAcceptedPublish(u, steps) ==>
              Decide(Scenarios.Applied(ViewOf(Run(u, steps), 0), actions), demand)
              in {Unknown, NeedsRevalidation, NotEnoughEvidence}
  {
    var (u, ok) := Apply(s, Load(bytes));
    if ok && NoAcceptedPublish(u, steps) {
      LoadDropsEvidence(s, bytes);
      EvidenceStaysDropped(u, steps);
      NoEvidenceNoCapacity(Run(u, steps), 0);
      Scenarios.FreshnessKept(ViewOf(Run(u, steps), 0), actions);
    }
  }

  // --- The other totals and the devices ----------------------------------------------------

  function NominalFn(s: State, d: Dimension): nat -> real {
    (id: nat) => if id in s.resources then s.resources[id].nominal.At(d) else 0.0
  }

  function CommittedFn(s: State, d: Dimension): nat -> real {
    (id: nat) => if id in s.resources then s.resources[id].committed.At(d) else 0.0
  }

  function UnavailableFn(s: State, d: Dimension): nat -> real {
    (id: nat) => if id in s.resources then s.resources[id].unavailable.At(d) else 0.0
  }

  lemma {:induction false} NominalIsSum(s: State, ids: seq<nat>, d: Dimension)
    requires forall id | id in ids :: id in s.resources
    ensures TallyOf(s, ResourcesOf(s.resources, ids)).nominal.At(d) == SumBy(ids, NominalFn(s, d))
  {
    if ids != [] {
      var init, id := ids[..|ids| - 1], ids[|ids| - 1];
      assert id in ids;
      NominalIsSum(s, init, d);
      var before, r := ResourcesOf(s.resources, init), s.resources[id];
      assert (before + [r])[..|before|] == before;
      Scenarios.SumAt(TallyOf(s, before).nominal, r.nominal, d);
    }
  }

  lemma {:induction false} CommittedIsSum(s: State, ids: seq<nat>, d: Dimension)
    requires forall id | id in ids :: id in s.resources
    ensures TallyOf(s, ResourcesOf(s.resources, ids)).committed.At(d) == SumBy(ids, CommittedFn(s, d))
  {
    if ids != [] {
      var init, id := ids[..|ids| - 1], ids[|ids| - 1];
      assert id in ids;
      CommittedIsSum(s, init, d);
      var before, r := ResourcesOf(s.resources, init), s.resources[id];
      assert (before + [r])[..|before|] == before;
      Scenarios.SumAt(TallyOf(s, before).committed, r.committed, d);
    }
  }

  lemma {:induction false} UnavailableIsSum(s: State, ids: seq<nat>, d: Dimension)
    requires forall id | id in ids :: id in s.resources
    ensures TallyOf(s, ResourcesOf(s.resources, ids)).unavailable.At(d) == SumBy(ids, UnavailableFn(s, d))
  {
    if ids != [] {
      var init, id := ids[..|ids| - 1], ids[|ids| - 1];
      assert id in ids;
      UnavailableIsSum(s, init, d);
      var before, r := ResourcesOf(s.resources, init), s.resources[id];
      assert (before + [r])[..|before|] == before;
      Scenarios.SumAt(TallyOf(s, before).unavailable, r.unavailable, d);
    }
  }

  lemma {:induction false} AnyStale(s: State, ids: seq<nat>)
    requires forall id | id in ids :: id in s.resources
    ensures TallyOf(s, ResourcesOf(s.resources, ids)).anyStale <==> exists id | id in ids :: id !in CurrentIds(s)
  {
    if ids != [] {
      var init, last := ids[..|ids| - 1], ids[|ids| - 1];
      assert last in ids && forall id | id in init :: id in ids;
      assert forall id | id in ids :: id in init || id == last;
      AnyStale(s, init);
      var before, r := ResourcesOf(s.resources, init), s.resources[last];
      assert (before + [r])[..|before|] == before;
    }
  }

  // The other totals are over all resources, current or not.
  lemma ViewTotals(s: State, now: int, d: Dimension)
    ensures var (v, ids) := (ViewOf(s, now), Ascending(s.resources.Keys));
            && v.nominal.At(d) == SumBy(ids, NominalFn(s, d)) && v.committed.At(d) == SumBy(ids, CommittedFn(s, d))
            && v.unavailable.At(d) == SumBy(ids, UnavailableFn(s, d))
  {
    NominalIsSum(s, Ascending(s.resources.Keys), d);
    CommittedIsSum(s, Ascending(s.resources.Keys), d);
    UnavailableIsSum(s, Ascending(s.resources.Keys), d);
  }

  // What is in use is what they and the available leave of the nominal; the view is marked
  // stale when some evidence is, and carries the records as they are.
  lemma ViewCarries(s: State, now: int, d: Dimension)
    ensures var v := ViewOf(s, now);
            && (v.staleDynamic <==> CurrentIds(s) != s.resources.Keys)
            && v.reservations == s.reservations && v.releases == s.releases && v.now == now && !v.synthetic
            && (v.nominal.NonNegative() ==>
                  v.currentUse.At(d) == Max0(Max0(Max0(v.nominal.At(d) - v.available.At(d)) - v.committed.At(d))
                                             - v.unavailable.At(d)))
  {
    AnyStale(s, Ascending(s.resources.Keys));
    var t := TallyOf(s, Ordered(s));
    if t.nominal.NonNegative() {
      ScenarioLaws.UseIsRest(t.nominal, t.available, t.committed, t.unavailable, d);
    }
  }

  lemma {:induction false} IndexIsLast(s: State, rs: seq<Resource>, i: nat)
    requires i < |rs| && forall j | i < j < |rs| :: rs[j].deviceId != rs[i].deviceId
    ensures rs[i].deviceId in DeviceIndex(s, rs) && DeviceIndex(s, rs)[rs[i].deviceId] == Shown(s, rs[i])
  {
    if i < |rs| - 1 { IndexIsLast(s, rs[..|rs| - 1], i); }
  }

  lemma {:induction false} IndexHasLast(s: State, rs: seq<Resource>, id: nat)
    requires id in DeviceIndex(s, rs)
    ensures exists i: nat :: IsLastOn(rs, i, id)
  {
    var n := |rs| - 1;
    if rs[n].deviceId == id {
      assert IsLastOn(rs, n, id);
    } else {
      IndexHasLast(s, rs[..n], id);
      var i: nat :| IsLastOn(rs[..n], i, id);
      assert IsLastOn(rs, i, id);
    }
  }

  // The i-th resource is the last one on the device.
  ghost predicate IsLastOn(rs: seq<Resource>, i: nat, id: nat) {
    i < |rs| && rs[i].deviceId == id && forall j | i < j < |rs| :: rs[j].deviceId != id
  }

  lemma {:induction false} DevicesInOrder(m: map<nat, Device>, ids: seq<nat>)
    requires forall id | id in ids :: id in m
    ensures |DevicesOf(m, ids)| == |ids|
    ensures forall i | 0 <= i < |ids| :: DevicesOf(m, ids)[i] == m[ids[i]]
  {
    if ids != [] { DevicesInOrder(m, ids[..|ids| - 1]); }
  }

  // The device is what this resource reports, but for the flags.
  ghost predicate Reports(r: Resource, dev: Device) {
    && dev.id == r.deviceId && dev.nodeId == r.nodeId && dev.capability == r.capability
    && dev.vramTotal == Vram(r.nominal) && dev.vramFree == Vram(r.free) && dev.freeBlocks == r.freeBlocks
    && dev.health == r.health
  }

  // Device dev is as the last of its resources reports it.
  ghost predicate FromLast(rs: seq<Resource>, dev: Device) {
    exists k: nat :: IsLastOn(rs, k, dev.id) && Reports(rs[k], dev)
  }

  lemma IndexFromLast(s: State, rs: seq<Resource>, id: nat)
    requires id in DeviceIndex(s, rs)
    ensures DeviceIndex(s, rs)[id].id == id && FromLast(rs, DeviceIndex(s, rs)[id])
  {
    IndexedByOwnId(s, rs);
    IndexHasLast(s, rs, id);
    var k: nat :| IsLastOn(rs, k, id);
    IndexIsLast(s, rs, k);
    assert IsLastOn(rs, k, id) && Reports(rs[k], DeviceIndex(s, rs)[id]);
  }

  // The view lists each device that a resource is on once, in the order of the ids, as the
  // last of its resources reports it.
  lemma ViewDevices(s: State, now: int)
    ensures var (rs, devices) := (Ordered(s), ViewOf(s, now).devices);
            && (forall i, j | 0 <= i < j < |devices| :: devices[i].id < devices[j].id)
            && (forall dev | dev in devices :: FromLast(rs, dev))
            && (forall r | r in rs :: exists dev :: dev in devices && dev.id == r.deviceId)
  {
    ListedDevices(s, Ordered(s));
  }

  lemma ListedDevices(s: State, rs: seq<Resource>)
    ensures var (m, devices) := (DeviceIndex(s, rs), DevicesOf(DeviceIndex(s, rs), Ascending(DeviceIndex(s, rs).Keys)));
            && (forall i, j | 0 <= i < j < |devices| :: devices[i].id < devices[j].id)
            && (forall dev | dev in devices :: FromLast(rs, dev))
            && (forall r | r in rs :: exists dev :: dev in devices && dev.id == r.deviceId)
  {
    var m := DeviceIndex(s, rs);
    var ids := Ascending(m.Keys);
    var devices := DevicesOf(m, ids);
    DevicesInOrder(m, ids);
    AscendingIncreases(m.Keys);
    forall i | 0 <= i < |devices| ensures devices[i].id == ids[i] && FromLast(rs, devices[i]) {
      assert ids[i] in ids;
      IndexFromLast(s, rs, ids[i]);
    }
    forall r | r in rs ensures exists dev :: dev in devices && dev.id == r.deviceId {
      var k :| 0 <= k < |rs| && rs[k] == r;
      IndexHasAll(s, rs, k);
      assert r.deviceId in ids;
      var i :| 0 <= i < |ids| && ids[i] == r.deviceId;
      assert devices[i] in devices;
    }
  }

  lemma {:induction false} IndexedByOwnId(s: State, rs: seq<Resource>)
    ensures forall id | id in DeviceIndex(s, rs) :: DeviceIndex(s, rs)[id].id == id
  {
    if rs != [] { IndexedByOwnId(s, rs[..|rs| - 1]); }
  }

  lemma {:induction false} IndexHasAll(s: State, rs: seq<Resource>, k: nat)
    requires k < |rs|
    ensures rs[k].deviceId in DeviceIndex(s, rs)
  {
    if k < |rs| - 1 { IndexHasAll(s, rs[..|rs| - 1], k); }
  }

  // --- Flags and registered health ------------------------------------------------------------

  // No registered device carries a drain or maintenance flag.
  ghost predicate Unflagged(s: State) {
    forall id | id in s.devices :: !s.devices[id].drained && !s.devices[id].maintenance
  }

  lemma StepKeepsUnflagged(s: State, step: Step)
    requires Unflagged(s)
    ensures Unflagged(Apply(s, step).0)
  {
  }

  lemma {:induction false} RunKeepsUnflagged(s: State, steps: seq<Step>)
    requires Unflagged(s)
    ensures Unflagged(Run(s, steps))
  {
    if steps != [] {
      RunKeepsUnflagged(s, steps[..|steps| - 1]);
      StepKeepsUnflagged(Run(s, steps[..|steps| - 1]), steps[|steps| - 1]);
    }
  }

  lemma {:induction false} IndexFlags(s: State, rs: seq<Resource>)
    requires Unflagged(s)
    ensures forall id | id in DeviceIndex(s, rs) ::
              !DeviceIndex(s, rs)[id].drained && !DeviceIndex(s, rs)[id].maintenance
  {
    if rs != [] { IndexFlags(s, rs[..|rs| - 1]); }
  }

  lemma {:induction false} DevicesFrom(m: map<nat, Device>, ids: seq<nat>)
    requires forall id | id in ids :: id in m && !m[id].drained && !m[id].maintenance
    ensures forall d | d in DevicesOf(m, ids) :: !d.drained && !d.maintenance
  {
    if ids != [] {
      assert ids[|ids| - 1] in ids;
      DevicesFrom(m, ids[..|ids| - 1]);
    }
  }

  // In every run of the model the devices of the live view never carry a drain or
  // maintenance flag, whatever their resources carry: only the health tells.
  lemma LiveDevicesNeverFlagged(steps: seq<Step>, now: int)
    ensures forall d | d in ViewOf(Run(INITIAL, steps), now).devices :: !d.drained && !d.maintenance
  {
    var s := Run(INITIAL, steps);
    RunKeepsUnflagged(INITIAL, steps);
    IndexFlags(s, Ordered(s));
    DevicesFrom(DeviceIndex(s, Ordered(s)), Ascending(DeviceIndex(s, Ordered(s)).Keys));
  }

  // The flags of the resources.
  function Cleared(r: Resource): Resource {
    r.(drained := false, maintenance := false)
  }

  function AllCleared(s: State): State {
    s.(resources := map id | id in s.resources :: Cleared(s.resources[id]))
  }

  // Two lists of resources that differ in their flags at most.
  ghost predicate SameButFlags(xs: seq<Resource>, ys: seq<Resource>) {
    |xs| == |ys| && forall i | 0 <= i < |xs| :: Cleared(xs[i]) == Cleared(ys[i])
  }

  lemma {:induction false} ListsSameButFlags(s: State, ids: seq<nat>)
    requires forall id | id in ids :: id in s.resources
    ensures SameButFlags(ResourcesOf(s.resources, ids), ResourcesOf(AllCleared(s).resources, ids))
  {
    if ids != [] {
      assert ids[|ids| - 1] in ids;
      ListsSameButFlags(s, ids[..|ids| - 1]);
    }
  }

  lemma {:induction false} TalliesSame(s: State, t: State, xs: seq<Resource>, ys: seq<Resource>)
    requires SameButFlags(xs, ys) && s.sources == t.sources && s.devices == t.devices
    ensures TallyOf(s, xs) == TallyOf(t, ys) && DeviceIndex(s, xs) == DeviceIndex(t, ys)
  {
    if xs != [] {
      var n := |xs| - 1;
      assert Cleared(xs[n]) == Cleared(ys[n]);
      OneSameButFlags(s, t, xs[n], ys[n]);
      TalliesSame(s, t, xs[..n], ys[..n]);
    }
  }

  lemma OneSameButFlags(s: State, t: State, x: Resource, y: Resource)
    requires Cleared(x) == Cleared(y) && s.sources == t.sources && s.devices == t.devices
    ensures s.IsCurrent(x) == t.IsCurrent(y) && Shown(s, x) == Shown(t, y)
    ensures x.free == y.free && x.nominal == y.nominal && x.committed == y.committed && x.unavailable == y.unavailable
    ensures x.deviceId == y.deviceId
  {
    var cx, cy := Cleared(x), Cleared(y);
    assert x.worker == cx.worker == cy.worker == y.worker && x.bootId == cx.bootId == cy.bootId == y.bootId;
    assert DeviceOf(cx) == DeviceOf(x).(drained := false, maintenance := false);
    assert DeviceOf(cy) == DeviceOf(y).(drained := false, maintenance := false);
    assert x.free == cx.free && y.free == cy.free && x.nominal == cx.nominal && y.nominal == cy.nominal;
    assert x.committed == cx.committed && y.committed == cy.committed;
    assert x.unavailable == cx.unavailable && y.unavailable == cy.unavailable;
    assert x.deviceId == cx.deviceId && y.deviceId == cy.deviceId;
  }

  // Draining a resource or putting it under maintenance changes no live decision: in every
  // state every demand is decided as if no resource carried either flag.
  lemma FlagsNeverMatter(s: State, now: int, demand: Demand)
    ensures Decide(ViewOf(AllCleared(s), now), demand) == Decide(ViewOf(s, now), demand)
  {
    ClearedView(s, now);
    DecideReads(ViewOf(AllCleared(s), now), ViewOf(s, now), demand);
  }

  lemma ClearedView(s: State, now: int)
    ensures var (v, w) := (ViewOf(AllCleared(s), now), ViewOf(s, now));
            && v.devices == w.devices && v.available == w.available && v.freshness == w.freshness
            && v.reservations == w.reservations && v.now == w.now
  {
    var t := AllCleared(s);
    assert t.resources.Keys == s.resources.Keys;
    assert t.resources == map[] <==> s.resources == map[] by {
      assert t.resources == map[] <==> t.resources.Keys == {};
      assert s.resources == map[] <==> s.resources.Keys == {};
    }
    ListsSameButFlags(s, Ascending(s.resources.Keys));
    TalliesSame(s, t, Ordered(s), Ordered(t));
  }

  lemma DecideReads(v: View, w: View, demand: Demand)
    requires v.devices == w.devices && v.available == w.available && v.freshness == w.freshness
    requires v.reservations == w.reservations && v.now == w.now
    ensures Decide(v, demand) == Decide(w, demand)
  {
  }

  // Setting the health of a device shows in no view: a view takes it from the resources.
  lemma SetHealthNeverShows(s: State, id: nat, health: Health, gen: U64, now: int)
    ensures ViewOf(Apply(s, SetHealth(id, health, gen)).0, now) == ViewOf(s, now)
  {
    var t := Apply(s, SetHealth(id, health, gen)).0;
    assert t.devices == s.devices || (id in s.devices && t.devices == s.devices[id := t.devices[id]]);
    SameFlagsSameView(s, t, now);
  }

  lemma SameFlagsSameView(s: State, t: State, now: int)
    requires s.sources == t.sources && s.devices.Keys == t.devices.Keys
    requires s.resources == t.resources && s.reservations == t.reservations && s.releases == t.releases
    requires forall id | id in s.devices ::
               s.devices[id].drained == t.devices[id].drained && s.devices[id].maintenance == t.devices[id].maintenance
    ensures ViewOf(t, now) == ViewOf(s, now)
  {
    SameFlagsSameIndex(s, t, Ordered(s));
  }

  lemma {:induction false} SameFlagsSameIndex(s: State, t: State, rs: seq<Resource>)
    requires s.sources == t.sources && s.devices.Keys == t.devices.Keys
    requires forall id | id in s.devices ::
               s.devices[id].drained == t.devices[id].drained && s.devices[id].maintenance == t.devices[id].maintenance
    ensures TallyOf(s, rs) == TallyOf(t, rs) && DeviceIndex(s, rs) == DeviceIndex(t, rs)
  {
    if rs != [] {
      SameFlagsSameIndex(s, t, rs[..|rs| - 1]);
      assert Shown(s, rs[|rs| - 1]) == Shown(t, rs[|rs| - 1]);
      assert s.IsCurrent(rs[|rs| - 1]) == t.IsCurrent(rs[|rs| - 1]);
    }
  }

  // --- A scenario against the live view ------------------------------------------------------

  // A scenario counts usable resources where the live view counts current ones.
  function StaleUsableFn(s: State, d: Dimension): Resource -> real {
    (r: Resource) => if Scenarios.UsableResource(r) && !s.IsCurrent(r) then r.free.At(d) else 0.0
  }

  function CurrentUnusableFn(s: State, d: Dimension): Resource -> real {
    (r: Resource) => if !Scenarios.UsableResource(r) && s.IsCurrent(r) then r.free.At(d) else 0.0
  }

  lemma {:induction false} TotalsDiffer(s: State, rs: seq<Resource>, d: Dimension)
    ensures Scenarios.TotalsOf(rs).available.At(d) + SumBy(rs, CurrentUnusableFn(s, d))
            == TallyOf(s, rs).available.At(d) + SumBy(rs, StaleUsableFn(s, d))
  {
    if rs != [] {
      var init, r := rs[..|rs| - 1], rs[|rs| - 1];
      TotalsDiffer(s, init, d);
      Scenarios.SumAt(Scenarios.TotalsOf(init).available, r.free, d);
      Scenarios.SumAt(TallyOf(s, init).available, r.free, d);
    }
  }

  // The empty scenario is above the live view by the stale but usable resources and
  // below it by the current but unusable ones, and by nothing else.
  lemma EmptyScenarioDiffers(s: State, now: int, d: Dimension)
    ensures Scenarios.Applied(ViewOf(s, now), []).available.At(d) + SumBy(Ordered(s), CurrentUnusableFn(s, d))
            == ViewOf(s, now).available.At(d) + SumBy(Ordered(s), StaleUsableFn(s, d))
  {
    TotalsDiffer(s, Ordered(s), d);
  }

  // No stale resource looks usable, and no amount is negative.
  ghost predicate StaleLooksUnusable(s: State, rs: seq<Resource>) {
    && Scenarios.NonNegativeFree(rs)
    && forall r | r in rs :: Scenarios.UsableResource(r) ==> s.IsCurrent(r)
  }

  lemma StaleAddsNothing(s: State, rs: seq<Resource>, d: Dimension)
    requires StaleLooksUnusable(s, rs)
    ensures SumBy(rs, StaleUsableFn(s, d)) == 0.0 <= SumBy(rs, CurrentUnusableFn(s, d))
  {
    SumByZero(rs, StaleUsableFn(s, d));
    SumByNonNegative(rs, CurrentUnusableFn(s, d));
  }

  // Then removals never show more than the live view.
  lemma RemovalWithinLiveView(s: State, now: int, actions: seq<Scenarios.Action>, d: Dimension)
    requires StaleLooksUnusable(s, Ordered(s)) && Scenarios.OnlyRemovals(actions)
    ensures Scenarios.Applied(ViewOf(s, now), actions).available.At(d) <= ViewOf(s, now).available.At(d)
  {
    assert Scenarios.Applied(ViewOf(s, now), []).available.At(d) <= ViewOf(s, now).available.At(d) by {
      EmptyScenarioDiffers(s, now, d);
      StaleAddsNothing(s, Ordered(s), d);
    }
    RemovalShrinks(s, ViewOf(s, now), actions, d);
  }

  lemma RemovalShrinks(s: State, v: View, actions: seq<Scenarios.Action>, d: Dimension)
    requires StaleLooksUnusable(s, v.resources) && Scenarios.OnlyRemovals(actions)
    ensures Scenarios.Applied(v, actions).available.At(d) <= Scenarios.Applied(v, []).available.At(d)
  {
    Scenarios.RemovalNeverIncreases(v, actions, d);
  }

  // In general a scenario shows more than the live view exactly when the stale resources
  // that look usable outweigh the current ones that do not ...
  lemma ScenarioExceedsIff(s: State, now: int, d: Dimension)
    ensures Scenarios.Applied(ViewOf(s, now), []).available.At(d) > ViewOf(s, now).available.At(d)
            <==> SumBy(Ordered(s), StaleUsableFn(s, d)) > SumBy(Ordered(s), CurrentUnusableFn(s, d))
  {
    EmptyScenarioDiffers(s, now, d);
  }

  // No current resource looks unusable, and no amount is negative.
  ghost predicate CurrentLooksUsable(s: State, rs: seq<Resource>) {
    && Scenarios.NonNegativeFree(rs)
    && forall r | r in rs :: s.IsCurrent(r) ==> Scenarios.UsableResource(r)
  }

  // ... and so, when every current resource looks usable, as soon as one stale resource
  // that looks usable reported something free.
  lemma StaleResourceReappearsIff(s: State, now: int, d: Dimension)
    requires CurrentLooksUsable(s, Ordered(s))
    ensures Scenarios.Applied(ViewOf(s, now), []).available.At(d) > ViewOf(s, now).available.At(d)
            <==> exists r | r in Ordered(s) ::
                   Scenarios.UsableResource(r) && !s.IsCurrent(r) && r.free.At(d) > 0.0
  {
    ScenarioExceedsIff(s, now, d);
    StaleWeighs(s, Ordered(s), d);
  }

  lemma StaleWeighs(s: State, rs: seq<Resource>, d: Dimension)
    requires CurrentLooksUsable(s, rs)
    ensures SumBy(rs, CurrentUnusableFn(s, d)) == 0.0
    ensures SumBy(rs, StaleUsableFn(s, d)) > 0.0
            <==> exists r | r in rs :: Scenarios.UsableResource(r) && !s.IsCurrent(r) && r.free.At(d) > 0.0
  {
    SumByZero(rs, CurrentUnusableFn(s, d));
    SumByPositiveIff(rs, StaleUsableFn(s, d));
    assert forall r | r in rs ::
        StaleUsableFn(s, d)(r) > 0.0
        <==> Scenarios.UsableResource(r) && !s.IsCurrent(r) && r.free.At(d) > 0.0;
  }
}
