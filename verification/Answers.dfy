/** What the answers of the model mean, told from its state alone: the view, the timeline
    and the search put together (src/model/model.cpp, queries). */
module Answers {
  import opened Capacities
  import opened Timelines
  import opened Fleet
  import opened Sums
  import opened Forecasts
  import opened ModeLaws
  import opened Feasibility
  import opened EarliestFits
  import opened WindowLaws
  import opened Authority
  import opened Views

  // --- Sound evidence ---------------------------------------------------------------

  // No resource reports a negative amount.
  ghost predicate FreeNonNegative(s: State) {
    forall id | id in s.resources :: s.resources[id].free.NonNegative()
  }

  lemma {:induction false} TallyNonNegative(s: State, rs: seq<Resource>)
    requires forall r | r in rs :: r.free.NonNegative()
    ensures TallyOf(s, rs).available.NonNegative()
  {
    if rs != [] {
      assert rs[|rs| - 1] in rs;
      TallyNonNegative(s, rs[..|rs| - 1]);
    }
  }

  lemma AvailableNonNegative(s: State, now: int)
    requires FreeNonNegative(s)
    ensures ViewOf(s, now).available.NonNegative()
  {
    var ids := Ascending(s.resources.Keys);
    ResourcesOfMembers(s.resources, ids);
    forall r | r in Ordered(s) ensures r.free.NonNegative() {
      var id :| id in ids && s.resources[id] == r;
    }
    TallyNonNegative(s, Ordered(s));
  }

  // What the interval view of the state leaves of d at t.
  ghost function Left(s: State, mode: QueryMode, d: Dimension, t: int): real {
    IntervalView(ViewOf(s, 0).available, s.reservations, s.releases, mode, d, t)
  }

  // The evidence on every demanded dimension is well formed and not overcommitted.
  ghost predicate Sound(s: State, ask: Ask) {
    && FreeNonNegative(s)
    && forall d | d in ask.req.entries ::
         && WellFormed(s.reservations, s.releases, d)
         && NoOvercommit(ViewOf(s, 0).available, s.reservations, s.releases, ask.mode, d)
  }

  lemma CurveIsLeft(s: State, ask: Ask, events: seq<Event>, d: Dimension, t: int)
    requires Sound(s, ask) && IsTimelineOf(events, s.reservations, s.releases, ask.mode)
    requires d in ask.req.entries
    ensures CurveAt(ViewOf(s, 0).available, events, t).At(d) == Left(s, ask.mode, d, t)
  {
    AvailableNonNegative(s, 0);
    CurveIsIntervalView(ViewOf(s, 0).available, events, s.reservations, s.releases, ask.mode, d, t);
  }

  // --- Earliest fit -------------------------------------------------------------------

  // At time u the interval view leaves as much as is demanded of every dimension.
  ghost predicate CoveredAt(s: State, ask: Ask, u: int) {
    forall d | d in ask.req.entries :: Left(s, ask.mode, d, u) >= ask.req.entries[d]
  }

  // It does so at every time of the window that starts at t.
  ghost predicate Covers(s: State, ask: Ask, t: int) {
    forall u | InWindow(t, t + ask.duration, u) :: CoveredAt(s, ask, u)
  }

  ghost predicate InAskRange(ask: Ask, t: int) {
    t == ask.earliest || ask.earliest <= t <= ask.horizon - ask.duration
  }

  // The least start among all times whose whole window is covered, or truly none.
  ghost predicate IsLeastStart(s: State, ask: Ask, r: Answer) {
    match r
    case NotFound => forall t | InAskRange(ask, t) :: !Covers(s, ask, t)
    case Found(t, end, _) =>
      && InAskRange(ask, t) && Covers(s, ask, t) && end == t + ask.duration
      && forall u | ask.earliest <= u < t :: !Covers(s, ask, u)
  }

  function Evidence(s: State, ask: Ask): seq<Event> {
    ReservationPart(s.reservations, ask.mode) + ReleasePart(s.releases, ask.mode)
  }

  // Some of every demanded dimension is left at the earliest start and at every instant at
  // which a counted hold or release changes something.
  ghost predicate LeftAtBoundaries(s: State, ask: Ask) {
    && (forall d | ask.req.At(d) > 0.0 :: Left(s, ask.mode, d, ask.earliest) > 0.0)
    && (forall e, d | e in Evidence(s, ask) && ask.earliest <= e.time <= ask.horizon - ask.duration
                      && ask.req.At(d) > 0.0 :: Left(s, ask.mode, d, e.time) > 0.0)
  }

  // No two of them change a demanded dimension in opposite directions at one instant.
  ghost predicate OneWayEvidence(s: State, ask: Ask) {
    forall e, f, d | e in Evidence(s, ask) && f in Evidence(s, ask) && ask.req.At(d) > 0.0 && e.time == f.time ::
      !(e.delta.At(d) < 0.0 < f.delta.At(d))
  }

  lemma MeetsIsCovered(s: State, ask: Ask, events: seq<Event>, u: int)
    requires Sound(s, ask) && IsTimelineOf(events, s.reservations, s.releases, ask.mode)
    ensures CurveAt(ViewOf(s, 0).available, events, u).Satisfies(ask.req) <==> CoveredAt(s, ask, u)
  {
    forall d | d in ask.req.entries
      ensures CurveAt(ViewOf(s, 0).available, events, u).At(d) == Left(s, ask.mode, d, u)
    {
      CurveIsLeft(s, ask, events, d, u);
    }
  }

  lemma FitsIsCovers(s: State, ask: Ask, events: seq<Event>, t: int)
    requires Sound(s, ask) && IsTimelineOf(events, s.reservations, s.releases, ask.mode)
    ensures Over(s, ask, events).Fits(t) <==> Covers(s, ask, t)
  {
    forall u
      ensures CurveAt(ViewOf(s, 0).available, events, u).Satisfies(ask.req) <==> CoveredAt(s, ask, u)
    {
      MeetsIsCovered(s, ask, events, u);
    }
  }

  lemma SameEvents(s: State, ask: Ask, events: seq<Event>)
    requires IsTimelineOf(events, s.reservations, s.releases, ask.mode)
    ensures forall e :: e in events <==> e in Evidence(s, ask)
  {
    forall e ensures e in events <==> e in Evidence(s, ask) {
      assert e in events <==> e in multiset(events);
      assert e in Evidence(s, ask) <==> e in multiset(Evidence(s, ask));
    }
  }

  lemma PresentAtCandidates(s: State, ask: Ask, events: seq<Event>, c: int)
    requires Sound(s, ask) && IsTimelineOf(events, s.reservations, s.releases, ask.mode)
    requires LeftAtBoundaries(s, ask) && Over(s, ask, events).IsCandidate(c)
    ensures Over(s, ask, events).AllPresent(c)
  {
    SameEvents(s, ask, events);
    forall d | ask.req.At(d) > 0.0 ensures CurveAt(ViewOf(s, 0).available, events, c).Has(d) {
      CurveIsLeft(s, ask, events, d, c);
      if c != ask.earliest {
        var i :| 0 <= i < |events| && events[i].time == c;
        assert events[i] in events;
      }
    }
  }

  lemma TiesOneWay(s: State, ask: Ask, events: seq<Event>)
    requires IsTimelineOf(events, s.reservations, s.releases, ask.mode) && OneWayEvidence(s, ask)
    ensures Over(s, ask, events).OneWayTies()
  {
    SameEvents(s, ask, events);
    assert forall i | 0 <= i < |events| :: events[i] in Evidence(s, ask);
  }

  // For every state with sound evidence: if something of each demanded dimension is left
  // at the boundaries and no tie pulls both ways, the query answers the least start among
  // all times whose whole window the interval view covers, or truly that there is none.
  lemma EarliestFitIsLeast(s: State, ask: Ask, r: Answer)
    requires Sound(s, ask) && LeftAtBoundaries(s, ask) && OneWayEvidence(s, ask)
    requires ask.duration >= 0 && ask.earliest < ask.horizon
    requires IsEarliestFit(s, ask, r)
    ensures IsLeastStart(s, ask, r)
  {
    var events :| IsTimelineOf(events, s.reservations, s.releases, ask.mode)
                  && IsSearchAnswer(Over(s, ask, events), r);
    SearchIsExact(s, ask, events, r);
    forall t ensures Over(s, ask, events).Fits(t) <==> Covers(s, ask, t) {
      FitsIsCovers(s, ask, events, t);
    }
  }

  lemma SearchIsExact(s: State, ask: Ask, events: seq<Event>, r: Answer)
    requires Sound(s, ask) && LeftAtBoundaries(s, ask) && OneWayEvidence(s, ask)
    requires ask.duration >= 0 && ask.earliest < ask.horizon
    requires IsTimelineOf(events, s.reservations, s.releases, ask.mode) && IsSearchAnswer(Over(s, ask, events), r)
    ensures Exact(Over(s, ask, events), r)
  {
    var q := Over(s, ask, events);
    AvailableNonNegative(s, 0);
    forall c | q.IsCandidate(c) ensures q.AllPresent(c) {
      PresentAtCandidates(s, ask, events, c);
    }
    TiesOneWay(s, ask, events);
    SearchExact(q, r);
  }

  // --- The present ----------------------------------------------------------------------

  // Nothing is credited at or before time zero.
  ghost predicate NothingCreditedYet(s: State) {
    && FreeNonNegative(s)
    && (forall d: Dimension :: WellFormed(s.reservations, s.releases, d))
    && forall e | e in s.releases :: ReleaseTime(e, GUARANTEED) > 0
  }

  // The effective capacity of the decision is what the guaranteed capacity query answers
  // for time zero, in every dimension ...
  lemma DecisionUsesGuaranteed(s: State, c: Amounts, d: Dimension)
    requires NothingCreditedYet(s) && IsCapacity(s, GUARANTEED, 0, c)
    ensures Effective(ViewOf(s, 0).available, s.reservations, 0).At(d) == c.At(d)
  {
    var available := ViewOf(s, 0).available;
    var events :| IsTimelineOf(events, s.reservations, s.releases, GUARANTEED) && c == CurveAt(available, events, 0);
    AvailableNonNegative(s, 0);
    PathsAgreeAtZero(available, s.reservations, s.releases, events, d);
  }

  // ... so the decision misses no capacity exactly when that answer meets the demand.
  lemma GateIsGuaranteedQuery(s: State, c: Amounts, req: Amounts)
    requires NothingCreditedYet(s) && IsCapacity(s, GUARANTEED, 0, c)
    ensures FirstMissing(Effective(ViewOf(s, 0).available, s.reservations, 0), req, 0).None? <==> c.Satisfies(req)
  {
    forall d: Dimension ensures Effective(ViewOf(s, 0).available, s.reservations, 0).At(d) == c.At(d) {
      DecisionUsesGuaranteed(s, c, d);
    }
    NothingMissingIff(Effective(ViewOf(s, 0).available, s.reservations, 0), req);
  }

  // --- Any mode at any time ---------------------------------------------------------------

  // What is left of d at t, told by the records alone: the free amounts of the current
  // resources, what the mode credits by t, less what it counts as held at t.
  ghost function LeftOf(s: State, mode: QueryMode, d: Dimension, t: int): real {
    SumBy(Ascending(CurrentIds(s)), FreeFn(s, d)) + CreditedBy(s.releases, mode, d, t)
    - HeldBy(s.reservations, mode, d, t)
  }

  lemma LeftIsLeftOf(s: State, mode: QueryMode, d: Dimension, t: int)
    ensures Left(s, mode, d, t) == LeftOf(s, mode, d, t)
  {
    AvailableIsCurrentSum(s, 0, d);
    CreditsAre(s.releases, mode, d, t);
    HoldsAre(s.reservations, mode, d, t);
  }

  // The evidence on d is well formed and not overcommitted in the mode.
  ghost predicate SoundIn(s: State, mode: QueryMode, d: Dimension) {
    && FreeNonNegative(s) && WellFormed(s.reservations, s.releases, d)
    && NoOvercommit(ViewOf(s, 0).available, s.reservations, s.releases, mode, d)
  }

  lemma CurveIsLeftOf(s: State, mode: QueryMode, events: seq<Event>, d: Dimension, t: int)
    requires SoundIn(s, mode, d) && IsTimelineOf(events, s.reservations, s.releases, mode)
    ensures CurveAt(ViewOf(s, 0).available, events, t).At(d) == LeftOf(s, mode, d, t)
  {
    AvailableNonNegative(s, 0);
    CurveIsIntervalView(ViewOf(s, 0).available, events, s.reservations, s.releases, mode, d, t);
    LeftIsLeftOf(s, mode, d, t);
  }

  // A capacity query answers, for every mode and every time, what is left then.
  lemma CapacityIsLeft(s: State, mode: QueryMode, time: TimePoint, c: Amounts, d: Dimension)
    requires SoundIn(s, mode, d) && IsCapacity(s, mode, time, c)
    ensures c.At(d) == LeftOf(s, mode, d, time)
  {
    var events :| IsTimelineOf(events, s.reservations, s.releases, mode)
                  && c == CurveAt(ViewOf(s, 0).available, events, time);
    CurveIsLeftOf(s, mode, events, d, time);
  }

  ghost predicate LeftCovers(s: State, mode: QueryMode, req: Amounts, t: int) {
    forall d | d in req.entries :: LeftOf(s, mode, d, t) >= req.entries[d]
  }

  lemma AvailableAnyTime(s: State, now: int)
    ensures ViewOf(s, now).available == ViewOf(s, 0).available && ViewOf(s, now).freshness == ViewOf(s, 0).freshness
  {
  }

  lemma CurveMeetsIff(s: State, mode: QueryMode, events: seq<Event>, req: Amounts, t: int)
    requires forall d | d in req.entries :: SoundIn(s, mode, d)
    requires IsTimelineOf(events, s.reservations, s.releases, mode)
    ensures CurveAt(ViewOf(s, 0).available, events, t).Satisfies(req) <==> LeftCovers(s, mode, req, t)
  {
    forall d | d in req.entries
      ensures CurveAt(ViewOf(s, 0).available, events, t).At(d) == LeftOf(s, mode, d, t)
    {
      CurveIsLeftOf(s, mode, events, d, t);
    }
  }

  // Evidence is fresh exactly when some resource's boot is its worker's live boot.
  lemma FreshIff(s: State, now: int)
    ensures ViewOf(s, now).freshness == Fresh <==> CurrentIds(s) != {}
    ensures ViewOf(s, now).freshness == InsufficientEvidence <==> s.resources == map[]
    ensures ViewOf(s, now).freshness == RevalidationRequired <==> s.resources != map[] && CurrentIds(s) == {}
  {
    AnyCurrent(s, Ascending(s.resources.Keys));
  }

  lemma {:induction false} AnyCurrent(s: State, ids: seq<nat>)
    requires forall id | id in ids :: id in s.resources
    ensures TallyOf(s, ResourcesOf(s.resources, ids)).anyCurrent <==> exists id | id in ids :: id in CurrentIds(s)
  {
    if ids != [] {
      var init, last := ids[..|ids| - 1], ids[|ids| - 1];
      assert last in ids && forall id | id in init :: id in ids;
      assert forall id | id in ids :: id in init || id == last;
      AnyCurrent(s, init);
      var before, r := ResourcesOf(s.resources, init), s.resources[last];
      assert (before + [r])[..|before|] == before;
    }
  }

  // For a time to come a feasibility query asks for revalidation while no evidence is
  // current; otherwise it says the demand fits then exactly when what is left then covers it.
  lemma FutureIsLeft(s: State, demand: Demand, mode: QueryMode, time: TimePoint, o: Outcome)
    requires time > 0 && IsFeasibility(s, demand, mode, time, o)
    requires forall d | d in demand.requirements.entries :: SoundIn(s, mode, d)
    ensures o == if CurrentIds(s) == {} then NeedsRevalidation
                 else if LeftCovers(s, mode, demand.requirements, time) then FitFuture else NoFitCapacity
  {
    FreshIff(s, time);
    AvailableAnyTime(s, time);
    if ViewOf(s, time).freshness == Fresh {
      var events :| IsTimelineOf(events, s.reservations, s.releases, mode) &&
        o == if CurveAt(ViewOf(s, time).available, events, time).Satisfies(demand.requirements)
             then FitFuture else NoFitCapacity;
      CurveMeetsIff(s, mode, events, demand.requirements, time);
    }
  }

  // The least start of an earliest-fit answer, told by the records alone.
  lemma CoversIsLeft(s: State, ask: Ask, t: int)
    ensures Covers(s, ask, t)
            <==> forall u | InWindow(t, t + ask.duration, u) :: LeftCovers(s, ask.mode, ask.req, u)
  {
    forall u ensures CoveredAt(s, ask, u) <==> LeftCovers(s, ask.mode, ask.req, u) {
      forall d | d in ask.req.entries ensures Left(s, ask.mode, d, u) == LeftOf(s, ask.mode, d, u) {
        LeftIsLeftOf(s, ask.mode, d, u);
      }
    }
  }

  // --- The capacity at the fit --------------------------------------------------------------

  // v is no higher than the curve at any time of the window.
  ghost predicate Bounds(q: Query, t: int, d: Dimension, v: real) {
    forall u | InWindow(t, t + q.duration, u) :: v <= CurveAt(q.base, q.events, u).At(d)
  }

  // c is the greatest such amount.
  ghost predicate IsFloor(q: Query, t: int, d: Dimension, c: real) {
    Bounds(q, t, d, c) && forall v: real | Bounds(q, t, d, v) :: v <= c
  }

  // Where simultaneous events pull d one way only, the walk is no lower than any bound.
  lemma WalkReachesBound(q: Query, t: int, d: Dimension, v: real)
    requires q.Valid() && q.OneWayTies() && q.req.At(d) > 0.0 && Bounds(q, t, d, v)
    ensures v <= FoldMin(WindowSteps(q.base, q.events, t, t + q.duration)).At(d)
  {
    var bound := q.(req := Amounts(map[d := v]));
    assert bound.Fits(t) && bound.OneWayTies();
    OneWayTiesNeverDip(bound, t);
    FittingAcceptedIff(bound, t);
    assert bound.Accepts(t) && v == bound.req.entries[d];
  }

  lemma WalkIsFloor(q: Query, t: int, d: Dimension)
    requires q.Valid() && q.OneWayTies() && q.req.At(d) > 0.0 && CurveAt(q.base, q.events, t).Has(d)
    ensures IsFloor(q, t, d, FoldMin(WindowSteps(q.base, q.events, t, t + q.duration)).At(d))
  {
    var w := Window(q.base, q.events, t, t + q.duration, d);
    forall u | InWindow(t, t + q.duration, u) ensures w.Lowest() <= CurveAt(q.base, q.events, u).At(d) {
      WalkBoundsTimes(w, u);
    }
    forall v: real | Bounds(q, t, d, v) ensures v <= w.Lowest() {
      WalkReachesBound(q, t, d, v);
    }
  }

  // The capacity reported with a fit is, in every demanded dimension that is present at the
  // start, the greatest amount that the curve keeps throughout the window.
  lemma CapacityAtFitIsFloor(q: Query, r: Answer, d: Dimension)
    requires q.Valid() && q.OneWayTies() && q.req.At(d) > 0.0 && IsSearchAnswer(q, r) && r.Found?
    requires CurveAt(q.base, q.events, r.start).Has(d)
    ensures IsFloor(q, r.start, d, r.capacityAtFit.At(d))
  {
    WalkIsFloor(q, r.start, d);
  }

  // c is the greatest amount of d that is left throughout the window.
  ghost predicate IsLeftThroughout(s: State, ask: Ask, t: int, d: Dimension, c: real) {
    BoundsLeft(s, ask, t, d, c) && forall v: real | BoundsLeft(s, ask, t, d, v) :: v <= c
  }

  ghost predicate BoundsLeft(s: State, ask: Ask, t: int, d: Dimension, v: real) {
    forall u | InWindow(t, t + ask.duration, u) :: v <= LeftOf(s, ask.mode, d, u)
  }

  // Along d the curve that is searched is what is left.
  ghost predicate ShowsLeft(s: State, ask: Ask, q: Query, d: Dimension) {
    q.duration == ask.duration && forall u :: CurveAt(q.base, q.events, u).At(d) == LeftOf(s, ask.mode, d, u)
  }

  lemma SearchShowsLeft(s: State, ask: Ask, events: seq<Event>, d: Dimension)
    requires Sound(s, ask) && d in ask.req.entries
    requires IsTimelineOf(events, s.reservations, s.releases, ask.mode)
    ensures ShowsLeft(s, ask, Over(s, ask, events), d)
  {
    forall u ensures CurveAt(ViewOf(s, 0).available, events, u).At(d) == LeftOf(s, ask.mode, d, u) {
      CurveIsLeftOf(s, ask.mode, events, d, u);
    }
  }

  lemma FloorIsLeft(s: State, ask: Ask, q: Query, t: int, d: Dimension, c: real)
    requires ShowsLeft(s, ask, q, d) && IsFloor(q, t, d, c)
    ensures IsLeftThroughout(s, ask, t, d, c)
  {
    forall v: real ensures Bounds(q, t, d, v) <==> BoundsLeft(s, ask, t, d, v) {
    }
  }

  // Told by the state alone: the greatest amount that is left throughout the window.
  lemma CapacityAtFitIsLeft(s: State, ask: Ask, r: Answer, d: Dimension)
    requires Sound(s, ask) && OneWayEvidence(s, ask) && IsEarliestFit(s, ask, r) && r.Found?
    requires ask.req.At(d) > 0.0 && LeftOf(s, ask.mode, d, r.start) > 0.0
    ensures IsLeftThroughout(s, ask, r.start, d, r.capacityAtFit.At(d))
  {
    var events :| IsTimelineOf(events, s.reservations, s.releases, ask.mode)
                  && IsSearchAnswer(Over(s, ask, events), r);
    AvailableNonNegative(s, 0);
    TiesOneWay(s, ask, events);
    SearchShowsLeft(s, ask, events, d);
    CapacityAtFitIsFloor(Over(s, ask, events), r, d);
    FloorIsLeft(s, ask, Over(s, ask, events), r.start, d, r.capacityAtFit.At(d));
  }
}
