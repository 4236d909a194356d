/** Inputs on which the code departs from what one would expect of it: each shows that a
    hypothesis of a main result is needed. */
module Counterexamples {
  import opened Capacities
  import opened Timelines
  import opened WindowLaws
  import opened EarliestFits
  import opened Forecasts
  import opened Fleet
  import Scenarios

  const FIVE := Amounts(map[ACCELERATOR_COUNT := 5.0])
  const TEN := Amounts(map[ACCELERATOR_COUNT := 10.0])

  function Change(time: TimePoint, v: real): Event {
    Event(time, Delta(map[ACCELERATOR_COUNT := v]))
  }

  // A hard hold of five.
  function HoldFive(id: U64, start: TimePoint, end: TimePoint): Reservation {
    Reservation(id, 1, Interval(start, end), Delta(map[ACCELERATOR_COUNT := 5.0]), HARD)
  }

  lemma HoldEvents(r: Reservation)
    requires r.hold == Delta(map[ACCELERATOR_COUNT := 5.0])
    ensures ReservationEvents(r) == [Change(r.interval.start, -5.0)] + [Change(r.interval.end, 5.0)]
    ensures r.hold.changes != map[]
  {
    assert r.hold.Negate().changes == map[ACCELERATOR_COUNT := -5.0];
    assert ACCELERATOR_COUNT in r.hold.changes;
  }

  lemma OneHoldPart(r: Reservation, mode: QueryMode)
    requires r.hold == Delta(map[ACCELERATOR_COUNT := 5.0]) && r.strength == HARD
    ensures ReservationPart([r], mode) == [Change(r.interval.start, -5.0)] + [Change(r.interval.end, 5.0)]
  {
    HoldEvents(r);
    assert [r][..0] == [];
  }

  lemma TwoHoldsPart(r: Reservation, t: Reservation, mode: QueryMode)
    requires r.hold == t.hold == Delta(map[ACCELERATOR_COUNT := 5.0]) && r.strength == t.strength == HARD
    ensures ReservationPart([r, t], mode)
            == [Change(r.interval.start, -5.0)] + [Change(r.interval.end, 5.0)]
               + [Change(t.interval.start, -5.0)] + [Change(t.interval.end, 5.0)]
  {
    OneHoldPart(r, mode);
    HoldEvents(t);
    assert [r, t][..1] == [r];
  }

  // One dimension of the indexed values, one event later.
  lemma NextStep(base: Amounts, es: seq<Event>, i: nat)
    requires base.NonNegative() && i < |es|
    ensures var d := ACCELERATOR_COUNT;
            Steps(base, es)[i + 1].At(d) == Max0(Steps(base, es)[i].At(d) + es[i].delta.At(d))
  {
    StepsAreReplays(base, es, i);
    ReplayNonNegative(base, es[..i]);
    ApplyDeltaAt(Steps(base, es)[i], es[i].delta, ACCELERATOR_COUNT);
  }

  // --- A handover: one hold of five ends as another starts ----------------------------------

  const EARLY := HoldFive(1, 0, 5)
  const LATE := HoldFive(2, 5, 10)

  // The two orders of the events of one handover.
  const DOWN_UP := [Change(0, -5.0)] + [Change(5, -5.0)] + [Change(5, 5.0)] + [Change(10, 5.0)]
  const UP_DOWN := [Change(0, -5.0)] + [Change(5, 5.0)] + [Change(5, -5.0)] + [Change(10, 5.0)]

  lemma Handed(a: seq<Event>, b: seq<Event>, c: seq<Event>, d: seq<Event>, mode: QueryMode)
    requires ReservationPart([LATE, EARLY], mode) == b + d + a + c
    ensures Sorted(a + b + c + d) ==> IsTimelineOf(a + b + c + d, [LATE, EARLY], [], mode)
    ensures Sorted(a + c + b + d) ==> IsTimelineOf(a + c + b + d, [LATE, EARLY], [], mode)
  {
    var part := ReservationPart([LATE, EARLY], mode);
    assert part + [] == part && ReleasePart([], mode) == [];
  }

  lemma SortedFour(a: Event, b: Event, c: Event, d: Event)
    requires a.time <= b.time <= c.time <= d.time
    ensures Sorted([a] + [b] + [c] + [d])
  {
  }

  lemma HandoverTimelines(mode: QueryMode)
    ensures IsTimelineOf(DOWN_UP, [LATE, EARLY], [], mode)
    ensures IsTimelineOf(UP_DOWN, [LATE, EARLY], [], mode)
  {
    TwoHoldsPart(LATE, EARLY, mode);
    var (a, b, c, d) := (Change(0, -5.0), Change(5, -5.0), Change(5, 5.0), Change(10, 5.0));
    SortedFour(a, b, c, d);
    SortedFour(a, c, b, d);
    Handed([a], [b], [c], [d], mode);
  }

  // Whichever order the sort picks, five are left at every time of the ten.
  lemma HandoverCurve(es: seq<Event>, u: int)
    requires es == DOWN_UP || es == UP_DOWN
    requires 0 <= u < 10
    ensures CurveAt(TEN, es, u).At(ACCELERATOR_COUNT) == 5.0
  {
    HandoverSteps(es);
    CountUnique(es, u, if u < 5 then 1 else 3);
    CurveIsStep(TEN, es, u);
  }

  lemma HandoverSteps(es: seq<Event>)
    requires es == DOWN_UP || es == UP_DOWN
    ensures Steps(TEN, es)[1].At(ACCELERATOR_COUNT) == 5.0
    ensures Steps(TEN, es)[2].At(ACCELERATOR_COUNT) == if es == DOWN_UP then 0.0 else 10.0
    ensures Steps(TEN, es)[3].At(ACCELERATOR_COUNT) == 5.0
  {
    StepsAreReplays(TEN, es, 0);
    assert es[..0] == [];
    assert es[1].delta.At(ACCELERATOR_COUNT) == if es == DOWN_UP then -5.0 else 5.0;
    NextStep(TEN, es, 0);
    NextStep(TEN, es, 1);
    NextStep(TEN, es, 2);
  }

  lemma HandoverWalk(es: seq<Event>)
    requires es == DOWN_UP || es == UP_DOWN
    ensures Sorted(es) && Count(es, 0) == 1 && LastStep(es, 0, 10) == 3 && Hidden(es, 2)
  {
    CountUnique(es, 0, 1);
    CountUnique(es, 9, 3);
  }

  const HANDOVER := Query(TEN, DOWN_UP, FIVE, 0, 10, 10)

  // The demand for five is met at every time from the earliest start on, and the search
  // finds nothing.
  lemma HandoverIsNotFound(r: Answer)
    requires IsSearchAnswer(HANDOVER, r)
    ensures HANDOVER.IsTrueStart(0) && r == NotFound
  {
    forall u | InWindow(0, 10, u) ensures CurveAt(TEN, DOWN_UP, u).Satisfies(FIVE) {
      HandoverCurve(DOWN_UP, u);
    }
    assert HANDOVER.Fits(0);
    HandoverDips();
    FittingAcceptedIff(HANDOVER, 0);
  }

  lemma HandoverDips()
    ensures HANDOVER.Valid() && HANDOVER.Dips(0)
  {
    HandoverWalk(DOWN_UP);
    HandoverSteps(DOWN_UP);
    assert !Steps(TEN, DOWN_UP)[2].Satisfies(FIVE) by { assert FIVE.entries[ACCELERATOR_COUNT] == 5.0; }
  }

  // In the one order rangeMin answers less, and in the other rangeMax answers more, than
  // there is at any time of the window.
  lemma HandoverNotPointwise()
    ensures !LowestShown(Window(TEN, DOWN_UP, 0, 10, ACCELERATOR_COUNT))
    ensures !HighestShown(Window(TEN, UP_DOWN, 0, 10, ACCELERATOR_COUNT))
  {
    HandoverLow();
    HandoverHigh();
  }

  lemma HandoverLow()
    ensures !LowestShown(Window(TEN, DOWN_UP, 0, 10, ACCELERATOR_COUNT))
  {
    var w := Window(TEN, DOWN_UP, 0, 10, ACCELERATOR_COUNT);
    HandoverWalk(DOWN_UP);
    HandoverSteps(DOWN_UP);
    HandoverCurve(DOWN_UP, 0);
    PresentAtStart(w);
    var i := LowestIsStep(w, 1);
    assert Passes(w, 2) && w.Step(2) == 0.0;
    forall u | InWindow(0, 10, u) ensures w.Level(u) == 5.0 {
      HandoverCurve(DOWN_UP, u);
    }
  }

  lemma HandoverHigh()
    ensures !HighestShown(Window(TEN, UP_DOWN, 0, 10, ACCELERATOR_COUNT))
  {
    var w := Window(TEN, UP_DOWN, 0, 10, ACCELERATOR_COUNT);
    HandoverWalk(UP_DOWN);
    HandoverSteps(UP_DOWN);
    var i := HighestIsStep(w);
    assert UP_DOWN[1] != DOWN_UP[1] by {
      assert UP_DOWN[1].delta.changes[ACCELERATOR_COUNT] != DOWN_UP[1].delta.changes[ACCELERATOR_COUNT];
    }
    assert Passes(w, 2) && w.Step(2) == 10.0;
    forall u | InWindow(0, 10, u) ensures w.Level(u) == 5.0 {
      HandoverCurve(UP_DOWN, u);
    }
  }

  // --- An absent dimension makes the search early -------------------------------------------

  // Nothing is there until a release at time 5.
  const ARRIVAL := Query(NOTHING, [Change(5, 5.0)], FIVE, 0, 10, 20)
  const ARRIVING := Release(1, 5, 5, 5, Delta(map[ACCELERATOR_COUNT := 5.0]), 1.0)

  lemma ArrivalTimeline(mode: QueryMode)
    ensures IsTimelineOf(ARRIVAL.events, [], [ARRIVING], mode)
  {
    assert [ARRIVING][..0] == [];
    assert ReleasePart([ARRIVING], mode) == [Change(5, 5.0)];
    assert [] + ReleasePart([ARRIVING], mode) == ReleasePart([ARRIVING], mode);
  }

  lemma ArrivalSteps()
    ensures UpTo(ARRIVAL.events, 0) == [] && CurveAt(NOTHING, ARRIVAL.events, 0) == NOTHING
    ensures Steps(NOTHING, ARRIVAL.events) == [NOTHING, FIVE]
    ensures Count(ARRIVAL.events, 0) == 0 && LastStep(ARRIVAL.events, 0, 10) == 1
  {
    var es := ARRIVAL.events;
    assert es[..0] == [];
    CountUnique(es, 0, 0);
    CountUnique(es, 9, 1);
    assert ApplyDelta(NOTHING, es[0].delta).entries == FIVE.entries;
    assert Steps(NOTHING, es[..0]) == [NOTHING];
  }

  // The search answers with a start at which there is nothing of what is demanded.
  lemma ArrivalIsTooEarly(r: Answer)
    requires IsSearchAnswer(ARRIVAL, r)
    ensures r.Found? && r.start == 0 && !ARRIVAL.Fits(0)
  {
    ArrivalAccepted();
    assert !ARRIVAL.AllPresent(0) by {
      ArrivalSteps();
      assert FIVE.At(ACCELERATOR_COUNT) > 0.0;
    }
    AcceptedFitsIff(ARRIVAL, 0);
  }

  lemma ArrivalAccepted()
    ensures ARRIVAL.Accepts(0)
  {
    ArrivalSteps();
    var w := WindowSteps(NOTHING, ARRIVAL.events, 0, 10);
    assert w == [NOTHING, FIVE];
    assert w[..1] == [NOTHING] && FoldMin(w) == Min(NOTHING, FIVE);
    assert Min(NOTHING, FIVE).entries == FIVE.entries;
  }

  // --- The reference is earlier than the search ------------------------------------------------

  // All five are held from 2 to 10.
  const OUTAGE := HoldFive(1, 2, 10)
  const OUTAGE_EVENTS := [Change(2, -5.0)] + [Change(10, 5.0)]
  const AROUND := Query(FIVE, OUTAGE_EVENTS, FIVE, 0, 3, 20)

  lemma OutageTimeline(mode: QueryMode)
    ensures IsTimelineOf(OUTAGE_EVENTS, [OUTAGE], [], mode)
  {
    OneHoldPart(OUTAGE, mode);
    assert ReservationPart([OUTAGE], mode) + [] == OUTAGE_EVENTS && ReleasePart([], mode) == [];
  }

  lemma OutageSteps()
    ensures !Steps(FIVE, OUTAGE_EVENTS)[1].Has(ACCELERATOR_COUNT)
    ensures Steps(FIVE, OUTAGE_EVENTS)[2].At(ACCELERATOR_COUNT) == 5.0
  {
    var es := OUTAGE_EVENTS;
    assert es[..0] == [];
    StepsAreReplays(FIVE, es, 0);
    StepsAreReplays(FIVE, es, 1);
    assert Steps(FIVE, es)[1] == ApplyDelta(FIVE, es[0].delta);
    NextStep(FIVE, es, 1);
  }

  lemma OutageCount(u: int)
    ensures Count(OUTAGE_EVENTS, u) == if u < 2 then 0 else if u < 10 then 1 else 2
  {
    CountUnique(OUTAGE_EVENTS, u, if u < 2 then 0 else if u < 10 then 1 else 2);
  }

  lemma OutageCurve(u: int)
    ensures u >= 10 ==> CurveAt(FIVE, OUTAGE_EVENTS, u).At(ACCELERATOR_COUNT) == 5.0
    ensures 2 <= u < 10 ==> !CurveAt(FIVE, OUTAGE_EVENTS, u).Has(ACCELERATOR_COUNT)
    ensures 2 <= u < 10 ==> !CurveAt(FIVE, OUTAGE_EVENTS, u).Satisfies(FIVE)
  {
    OutageSteps();
    OutageCount(u);
    CurveIsStep(FIVE, OUTAGE_EVENTS, u);
    assert FIVE.entries[ACCELERATOR_COUNT] == 5.0;
  }

  lemma NoFitBeforeTen(t: int)
    requires 0 <= t < 10
    ensures !AROUND.Fits(t)
  {
    var u := if t < 2 then 2 else t;
    OutageCurve(u);
    assert InWindow(t, t + 3, u);
  }

  lemma FitsFromTen()
    ensures AROUND.Fits(10) && AROUND.Accepts(10)
  {
    forall u | InWindow(10, 13, u) ensures CurveAt(FIVE, OUTAGE_EVENTS, u).Satisfies(FIVE) {
      OutageCurve(u);
    }
    DistinctTimesNeverDip(AROUND, 10);
    FittingAcceptedIff(AROUND, 10);
  }

  // At 8 there is nothing, but the window sees the five come back.
  lemma PhantomAtEight()
    ensures AROUND.Phantom(8)
  {
    OutageSteps();
    OutageCount(8);
    OutageCount(10);
    OutageCurve(8);
    assert FIVE.At(ACCELERATOR_COUNT) > 0.0;
    var w := WindowSteps(FIVE, OUTAGE_EVENTS, 8, 11);
    assert w == Steps(FIVE, OUTAGE_EVENTS)[1..3];
    assert FirstHolding(w, ACCELERATOR_COUNT, 1);
    assert AROUND.EnoughOnceThere(8, ACCELERATOR_COUNT);
    AcceptsIff(AROUND, 8);
  }

  // No window is accepted that loses the five ...
  lemma LosingNotAccepted(t: int)
    requires 0 <= t < 2
    ensures !AROUND.Accepts(t)
  {
    NoFitBeforeTen(t);
    OutageCount(t);
    CurveIsStep(FIVE, OUTAGE_EVENTS, t);
    StepsAreReplays(FIVE, OUTAGE_EVENTS, 0);
    assert OUTAGE_EVENTS[..0] == [];
    if AROUND.Accepts(t) { AcceptedFitsIff(AROUND, t); }
  }

  // ... or does not see them come back.
  lemma EmptyNotAccepted(t: int)
    requires 2 <= t < 8
    ensures !AROUND.Accepts(t)
  {
    OutageSteps();
    OutageCount(t);
    OutageCount(t + 2);
    var w := WindowSteps(FIVE, OUTAGE_EVENTS, t, t + 3);
    assert |w| == 1 && !w[0].Has(ACCELERATOR_COUNT);
    assert FIVE.At(ACCELERATOR_COUNT) > 0.0 && !AROUND.EnoughOnceThere(t, ACCELERATOR_COUNT);
    AcceptsIff(AROUND, t);
  }

  // 10 is the first time at which the five are back, and the search answers it.
  lemma SearchAnswersTen(fast: Answer)
    requires IsSearchAnswer(AROUND, fast)
    ensures AROUND.IsTrueStart(10) && fast.Found? && fast.start == 10
  {
    FitsFromTen();
    forall t | 0 <= t < 10 ensures !AROUND.Fits(t) {
      NoFitBeforeTen(t);
    }
    LosingNotAccepted(0);
    EmptyNotAccepted(2);
    assert forall c | AROUND.IsCandidate(c) && c < 10 :: c == 0 || c == 2;
    assert AROUND.IsCandidate(10) by { assert OUTAGE_EVENTS[1].time == 10; }
  }

  // Sampling every tick answers 8, a start at which there is nothing.
  lemma ReferenceIsTooEarly(fast: Answer, slow: Answer)
    requires IsSearchAnswer(AROUND, fast) && IsGridAnswer(AROUND, 1, slow)
    ensures slow.Found? && slow.start == 8 && fast != slow
    ensures AROUND.IsTrueStart(10) && fast.Found? && fast.start == 10
  {
    SearchAnswersTen(fast);
    PhantomAtEight();
    GridReaches(AROUND, slow, 8);
    GridInRange(AROUND, slow);
    if slow.start < 2 {
      LosingNotAccepted(slow.start);
    } else if slow.start < 8 {
      EmptyNotAccepted(slow.start);
    }
  }

  // --- Overcommitment inverts the modes -------------------------------------------------------

  const HOLD := HoldFive(1, 1, 10)
  const CREDIT := Release(1, 2, 0, 3, Delta(map[ACCELERATOR_COUNT := 5.0]), 1.0)
  const EXPECTED_EVENTS := [Change(1, -5.0)] + [Change(2, 5.0)] + [Change(10, 5.0)]
  const OPTIMISTIC_EVENTS := [Change(0, 5.0)] + [Change(1, -5.0)] + [Change(10, 5.0)]

  lemma PartsOf(mode: QueryMode)
    ensures ReservationPart([HOLD], mode) == [Change(1, -5.0)] + [Change(10, 5.0)]
    ensures ReleasePart([CREDIT], mode) == [Change(ReleaseTime(CREDIT, mode), 5.0)]
  {
    OneHoldPart(HOLD, mode);
    assert [CREDIT][..0] == [];
  }

  lemma {:induction false} AllHappened(events: seq<Event>, t: int)
    requires forall i | 0 <= i < |events| :: events[i].time <= t
    ensures UpTo(events, t) == events
  {
    if events != [] {
      var n := |events| - 1;
      AllHappened(events[..n], t);
      assert events[..n] + [events[n]] == events;
    }
  }

  lemma LevelOfThree(x: real, y: real, z: real, es: seq<Event>)
    requires |es| == 3 && es[0].delta.At(ACCELERATOR_COUNT) == x
    requires es[1].delta.At(ACCELERATOR_COUNT) == y && es[2].delta.At(ACCELERATOR_COUNT) == z
    ensures Replay(NOTHING, es).At(ACCELERATOR_COUNT) == Max0(Max0(Max0(x) + y) + z)
  {
    assert es[..3] == es && es[..0] == [];
    StepLevel(es, 0);
    StepLevel(es, 1);
    StepLevel(es, 2);
  }

  lemma StepLevel(es: seq<Event>, i: nat)
    requires i < |es|
    ensures Replay(NOTHING, es[..i + 1]).At(ACCELERATOR_COUNT)
            == Max0(Replay(NOTHING, es[..i]).At(ACCELERATOR_COUNT) + es[i].delta.At(ACCELERATOR_COUNT))
  {
    assert es[..i + 1][..i] == es[..i];
    ReplayNonNegative(NOTHING, es[..i]);
    ApplyDeltaAt(Replay(NOTHING, es[..i]), es[i].delta, ACCELERATOR_COUNT);
  }

  // The events of a hold around or after those of a release.
  lemma Merged(x: seq<Event>, y: seq<Event>, z: seq<Event>, mode: QueryMode)
    requires ReservationPart([HOLD], mode) == x + z && ReleasePart([CREDIT], mode) == y
    ensures Sorted(x + y + z) ==> IsTimelineOf(x + y + z, [HOLD], [CREDIT], mode)
    ensures Sorted(y + x + z) ==> IsTimelineOf(y + x + z, [HOLD], [CREDIT], mode)
  {
  }

  lemma ExpectedTimeline()
    ensures IsTimelineOf(EXPECTED_EVENTS, [HOLD], [CREDIT], EXPECTED)
  {
    PartsOf(EXPECTED);
    Merged([Change(1, -5.0)], [Change(2, 5.0)], [Change(10, 5.0)], EXPECTED);
  }

  lemma OptimisticTimeline()
    ensures IsTimelineOf(OPTIMISTIC_EVENTS, [HOLD], [CREDIT], OPTIMISTIC)
  {
    PartsOf(OPTIMISTIC);
    Merged([Change(1, -5.0)], [Change(0, 5.0)], [Change(10, 5.0)], OPTIMISTIC);
  }

  lemma FinalLevel(x: Event, y: Event, z: Event)
    requires x.time <= 10 && y.time <= 10 && z.time <= 10
    ensures CurveAt(NOTHING, [x] + [y] + [z], 10).At(ACCELERATOR_COUNT)
            == Max0(Max0(Max0(x.delta.At(ACCELERATOR_COUNT)) + y.delta.At(ACCELERATOR_COUNT))
                    + z.delta.At(ACCELERATOR_COUNT))
  {
    AllHappened([x] + [y] + [z], 10);
    LevelOfThree(x.delta.At(ACCELERATOR_COUNT), y.delta.At(ACCELERATOR_COUNT), z.delta.At(ACCELERATOR_COUNT),
                 [x] + [y] + [z]);
  }

  // The release bounds are in order and the holds well formed, and still the optimistic
  // curve ends below the expected one: the clamp swallows a hold not covered yet.
  lemma OvercommitInvertsModes()
    ensures WellFormed([HOLD], [CREDIT], ACCELERATOR_COUNT) && BoundsOrdered([CREDIT])
    ensures IsTimelineOf(EXPECTED_EVENTS, [HOLD], [CREDIT], EXPECTED)
    ensures IsTimelineOf(OPTIMISTIC_EVENTS, [HOLD], [CREDIT], OPTIMISTIC)
    ensures CurveAt(NOTHING, OPTIMISTIC_EVENTS, 10).At(ACCELERATOR_COUNT)
            < CurveAt(NOTHING, EXPECTED_EVENTS, 10).At(ACCELERATOR_COUNT)
  {
    ExpectedTimeline();
    OptimisticTimeline();
    LevelsInverted();
    EvidenceInOrder();
  }

  lemma EvidenceInOrder()
    ensures WellFormed([HOLD], [CREDIT], ACCELERATOR_COUNT) && BoundsOrdered([CREDIT])
  {
  }

  lemma LevelsInverted()
    ensures CurveAt(NOTHING, OPTIMISTIC_EVENTS, 10).At(ACCELERATOR_COUNT) == 5.0
    ensures CurveAt(NOTHING, EXPECTED_EVENTS, 10).At(ACCELERATOR_COUNT) == 10.0
  {
    FinalLevel(Change(1, -5.0), Change(2, 5.0), Change(10, 5.0));
    FinalLevel(Change(0, 5.0), Change(1, -5.0), Change(10, 5.0));
  }

  // --- Degrading a device breaks composition ----------------------------------------------------

  // A resource that one scenario adds is failed by a later scenario, but not by a later
  // action of the same one: degrading looks at the listed devices only.
  lemma DegradeBreaksComposition(v: View, r: Resource, id: U64)
    requires v.devices == [] && v.resources == [] && r.deviceId != 0 && r.health != FAILED
    ensures var (a, b) := ([Scenarios.AddResource(r)], [Scenarios.DegradeDevice(id)]);
            Scenarios.Applied(Scenarios.Applied(v, a), b) != Scenarios.Applied(v, a + b)
  {
    var a, b := [Scenarios.AddResource(r)], [Scenarios.DegradeDevice(id)];
    AddedAlone(v, r);
    var w := Scenarios.Applied(v, a);
    assert b[..0] == [] && Scenarios.ActAll(w, b) == Scenarios.Degraded(w);
    assert r in w.resources && DeviceOf(r) in w.devices;
    assert Scenarios.Degraded(w).resources[0] == r.(health := FAILED);
    var x := Scenarios.ActAll(v, a);
    assert (a + b)[..1] == a && Scenarios.ActAll(v, a + b) == Scenarios.Degraded(x);
    assert Scenarios.Degraded(x).resources[0] == r;
  }

  lemma AddedAlone(v: View, r: Resource)
    requires v.devices == [] && v.resources == []
    ensures var (x, w) := (Scenarios.ActAll(v, [Scenarios.AddResource(r)]),
                           Scenarios.Applied(v, [Scenarios.AddResource(r)]));
            && x.resources == [r] && x.devices == []
            && w.resources == [r] && w.devices == [DeviceOf(r)]
  {
    assert [Scenarios.AddResource(r)][..0] == [];
    assert Scenarios.ActAll(v, [Scenarios.AddResource(r)]) == Scenarios.Act(v, Scenarios.AddResource(r));
    assert [r][..0] == [];
    assert Scenarios.TotalsOf([r]).devices == [] + [DeviceOf(r)];
  }
}
