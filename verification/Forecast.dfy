/** Timelines per query mode (include/capacity_fabric/forecast/forecast.hpp). */
module Forecasts {
  import opened Capacities
  import opened Timelines
  import opened Sums
  import opened CurveLaws

  // The mode is an 8-bit enumeration; values without a name count as expected.
  type QueryMode = nat

  const GUARANTEED: QueryMode := 0
  const CONSERVATIVE: QueryMode := 1
  const EXPECTED: QueryMode := 2
  const OPTIMISTIC: QueryMode := 3

  // The boundary at which a mode credits a release.
  function ReleaseTime(e: Release, mode: QueryMode): TimePoint {
    if mode == OPTIMISTIC then e.earliest
    else if mode == GUARANTEED || mode == CONSERVATIVE then e.latest
    else e.time
  }

  predicate Counts(r: Reservation, mode: QueryMode) {
    r.strength == HARD || mode != GUARANTEED
  }

  function ReservationPart(rs: seq<Reservation>, mode: QueryMode): seq<Event> {
    if rs == [] then []
    else
      var last := rs[|rs| - 1];
      ReservationPart(rs[..|rs| - 1], mode)
      + if Counts(last, mode) && last.hold.changes != map[] then ReservationEvents(last) else []
  }

  function ReleasePart(rels: seq<Release>, mode: QueryMode): seq<Event> {
    if rels == [] then []
    else
      var last := rels[|rels| - 1];
      ReleasePart(rels[..|rels| - 1], mode) + [Event(ReleaseTime(last, mode), last.release)]
  }

  // events is some time order of what the mode puts on the timeline.
  ghost predicate IsTimelineOf(events: seq<Event>, rs: seq<Reservation>, rels: seq<Release>, mode: QueryMode) {
    Sorted(events) && multiset(events) == multiset(ReservationPart(rs, mode) + ReleasePart(rels, mode))
  }

  method BuildTimeline(base: Amounts, rs: seq<Reservation>, rels: seq<Release>, mode: QueryMode)
    returns (tl: Timeline)
    ensures fresh(tl) && tl.Frozen() && tl.base == base
    ensures IsTimelineOf(tl.events, rs, rels, mode)
  {
    tl := new Timeline(base);
    for n := 0 to |rs|
      invariant tl.base == base && tl.events == ReservationPart(rs[..n], mode)
    {
      assert rs[..n + 1][..n] == rs[..n];
      if Counts(rs[n], mode) && rs[n].hold.changes != map[] {
        tl.AddReservation(rs[n]);
      }
    }
    assert rs[..|rs|] == rs;
    for n := 0 to |rels|
      invariant tl.base == base
      invariant tl.events == ReservationPart(rs, mode) + ReleasePart(rels[..n], mode)
    {
      assert rels[..n + 1][..n] == rels[..n];
      tl.AddRelease(rels[n].(time := ReleaseTime(rels[n], mode)));
    }
    assert rels[..|rels|] == rels;
    tl.Freeze();
  }

  // --- The interval view ------------------------------------------------------------

  // What a reservation holds at t, seen as the half-open interval [start, end).
  function HeldFn(mode: QueryMode, d: Dimension, t: int): Reservation -> real {
    (r: Reservation) =>
      if Counts(r, mode) && r.interval.ContainsPoint(t) then r.hold.At(d) else 0.0
  }

  // The same with the end point included.
  function HeldClosedFn(mode: QueryMode, d: Dimension, t: int): Reservation -> real {
    (r: Reservation) =>
      if Counts(r, mode) && r.interval.start <= t <= r.interval.end then r.hold.At(d) else 0.0
  }

  function CreditFn(mode: QueryMode, d: Dimension, t: int): Release -> real {
    (e: Release) => if ReleaseTime(e, mode) <= t then e.release.At(d) else 0.0
  }

  function CreditBeforeFn(mode: QueryMode, d: Dimension, t: int): Release -> real {
    (e: Release) => if ReleaseTime(e, mode) < t then e.release.At(d) else 0.0
  }

  ghost predicate WellFormed(rs: seq<Reservation>, rels: seq<Release>, d: Dimension) {
    && (forall r | r in rs :: r.interval.Valid() && r.hold.At(d) >= 0.0)
    && (forall e | e in rels :: e.release.At(d) >= 0.0)
  }

  // Even counting each hold at its end point and no release at its own instant,
  // the base and the releases cover the holds.
  ghost predicate NoOvercommit(base: Amounts, rs: seq<Reservation>, rels: seq<Release>,
                               mode: QueryMode, d: Dimension) {
    forall t: int ::
      base.At(d) + SumBy(rels, CreditBeforeFn(mode, d, t)) >= SumBy(rs, HeldClosedFn(mode, d, t))
  }

  // What the interval view says is left at t.
  ghost function IntervalView(base: Amounts, rs: seq<Reservation>, rels: seq<Release>,
                              mode: QueryMode, d: Dimension, t: int): real {
    base.At(d) + SumBy(rels, CreditFn(mode, d, t)) - SumBy(rs, HeldFn(mode, d, t))
  }

  // Over the events of the counted holds an event weight sums to minus a reservation
  // weight, if it does so for each hold alone.
  lemma {:induction false} PartSum(rs: seq<Reservation>, mode: QueryMode, f: Event -> real, g: Reservation -> real)
    requires forall r | r in rs :: HoldSums(r, mode, f, g)
    ensures SumBy(ReservationPart(rs, mode), f) == -SumBy(rs, g)
  {
    if rs != [] {
      var init, r := rs[..|rs| - 1], rs[|rs| - 1];
      assert r in rs;
      PartSum(init, mode, f, g);
      var part, ev := ReservationPart(init, mode), ReservationEvents(r);
      if Counts(r, mode) && r.hold.changes != map[] {
        assert part + ev == part + [ev[0]] + [ev[1]];
        SumByTwo(part, ev[0], ev[1], f);
      } else {
        assert part + [] == part;
      }
    }
  }

  ghost predicate HoldSums(r: Reservation, mode: QueryMode, f: Event -> real, g: Reservation -> real) {
    g(r) == if Counts(r, mode) && r.hold.changes != map[]
            then -(f(ReservationEvents(r)[0]) + f(ReservationEvents(r)[1])) else 0.0
  }

  lemma OneHoldSums(r: Reservation, mode: QueryMode, d: Dimension, t: int)
    requires r.interval.Valid() && r.hold.At(d) >= 0.0
    ensures HoldSums(r, mode, CutFn(d, t), HeldFn(mode, d, t))
    ensures HoldSums(r, mode, WorstFn(d, t), HeldClosedFn(mode, d, t))
  {
    assert r.hold.changes == map[] ==> r.hold.At(d) == 0.0;
    assert r.hold.Negate().At(d) == -r.hold.At(d);
  }

  lemma ReservationSums(rs: seq<Reservation>, mode: QueryMode, d: Dimension, t: int)
    requires WellFormed(rs, [], d)
    ensures SumBy(ReservationPart(rs, mode), CutFn(d, t)) == -SumBy(rs, HeldFn(mode, d, t))
    ensures SumBy(ReservationPart(rs, mode), WorstFn(d, t)) == -SumBy(rs, HeldClosedFn(mode, d, t))
  {
    forall r | r in rs
      ensures HoldSums(r, mode, CutFn(d, t), HeldFn(mode, d, t))
      ensures HoldSums(r, mode, WorstFn(d, t), HeldClosedFn(mode, d, t))
    {
      OneHoldSums(r, mode, d, t);
    }
    PartSum(rs, mode, CutFn(d, t), HeldFn(mode, d, t));
    PartSum(rs, mode, WorstFn(d, t), HeldClosedFn(mode, d, t));
  }

  lemma SumByTwo(xs: seq<Event>, a: Event, b: Event, f: Event -> real)
    ensures SumBy(xs + [a] + [b], f) == SumBy(xs, f) + f(a) + f(b)
  {
    SumByOne(xs, a, f);
    SumByOne(xs + [a], b, f);
  }

  lemma {:induction false} ReleaseSums(rels: seq<Release>, mode: QueryMode, d: Dimension, t: int)
    requires WellFormed([], rels, d)
    ensures SumBy(ReleasePart(rels, mode), CutFn(d, t)) == SumBy(rels, CreditFn(mode, d, t))
    ensures SumBy(ReleasePart(rels, mode), WorstFn(d, t)) == SumBy(rels, CreditBeforeFn(mode, d, t))
  {
    if rels != [] {
      var init, e := rels[..|rels| - 1], rels[|rels| - 1];
      assert e in rels;
      ReleaseSums(init, mode, d, t);
      SumByOne(ReleasePart(init, mode), Event(ReleaseTime(e, mode), e.release), CutFn(d, t));
      SumByOne(ReleasePart(init, mode), Event(ReleaseTime(e, mode), e.release), WorstFn(d, t));
    }
  }

  lemma TimelineSums(events: seq<Event>, rs: seq<Reservation>, rels: seq<Release>,
                     mode: QueryMode, d: Dimension, t: int)
    requires IsTimelineOf(events, rs, rels, mode) && WellFormed(rs, rels, d)
    ensures SumBy(events, CutFn(d, t))
            == SumBy(rels, CreditFn(mode, d, t)) - SumBy(rs, HeldFn(mode, d, t))
    ensures SumBy(events, WorstFn(d, t))
            == SumBy(rels, CreditBeforeFn(mode, d, t)) - SumBy(rs, HeldClosedFn(mode, d, t))
  {
    var a, b := ReservationPart(rs, mode), ReleasePart(rels, mode);
    ReservationSums(rs, mode, d, t);
    ReleaseSums(rels, mode, d, t);
    SumByPermutes(events, a + b, CutFn(d, t));
    SumByPermutes(events, a + b, WorstFn(d, t));
    SumByConcat(a, b, CutFn(d, t));
    SumByConcat(a, b, WorstFn(d, t));
  }

  // Without overcommitment the event curve is the interval view, for any order of
  // simultaneous events; in particular a hold is back exactly when it ends.
  lemma CurveIsIntervalView(base: Amounts, events: seq<Event>, rs: seq<Reservation>, rels: seq<Release>,
                            mode: QueryMode, d: Dimension, t: int)
    requires base.NonNegative() && IsTimelineOf(events, rs, rels, mode) && WellFormed(rs, rels, d)
    requires NoOvercommit(base, rs, rels, mode, d)
    ensures CurveAt(base, events, t).At(d) == IntervalView(base, rs, rels, mode, d, t)
  {
    forall u: int ensures base.At(d) + SumBy(events, WorstFn(d, u)) >= 0.0 {
      TimelineSums(events, rs, rels, mode, d, u);
      assert base.At(d) + SumBy(rels, CreditBeforeFn(mode, d, u)) >= SumBy(rs, HeldClosedFn(mode, d, u));
    }
    WorstCaseSafe(base, events, d, t);
    TimelineSums(events, rs, rels, mode, d, t);
  }

  // Exactly: the curve shows the interval view at t if and only if the replay up to
  // t never goes below zero on the way.
  lemma CurveIsIntervalViewIff(base: Amounts, events: seq<Event>, rs: seq<Reservation>, rels: seq<Release>,
                               mode: QueryMode, d: Dimension, t: int)
    requires base.NonNegative() && IsTimelineOf(events, rs, rels, mode) && WellFormed(rs, rels, d)
    ensures CurveAt(base, events, t).At(d) == IntervalView(base, rs, rels, mode, d, t)
            <==> NeverBelowZero(base, events, d, t)
    ensures CurveAt(base, events, t).At(d) >= IntervalView(base, rs, rels, mode, d, t)
  {
    CurveUnclampedIff(base, events, d, t);
    TimelineSums(events, rs, rels, mode, d, t);
    CurveClosedForm(base, events, t, d);
    TotalUpTo(events, d, t);
  }

  // --- Time zero ----------------------------------------------------------------------

  // Where only starts of holds have happened, the order does not matter and the
  // clamp acts once on the sum.
  lemma {:induction false} LevelOfDrops(x: real, ds: seq<real>)
    requires x >= 0.0 && forall i | 0 <= i < |ds| :: ds[i] <= 0.0
    ensures Level(x, ds) == Max0(x + Total(ds)) && Total(ds) <= 0.0
  {
    if ds != [] {
      LevelOfDrops(x, ds[..|ds| - 1]);
    }
  }

  lemma {:induction false} EarlyReservationEventsDrop(rs: seq<Reservation>, mode: QueryMode, d: Dimension, e: Event)
    requires WellFormed(rs, [], d) && e in ReservationPart(rs, mode) && e.time <= 0
    ensures e.delta.At(d) <= 0.0
  {
    var init, r := rs[..|rs| - 1], rs[|rs| - 1];
    assert r in rs;
    if e in ReservationPart(init, mode) {
      EarlyReservationEventsDrop(init, mode, d, e);
    }
  }

  lemma {:induction false} ReleaseEventsLate(rels: seq<Release>, mode: QueryMode, e: Event)
    requires forall r | r in rels :: ReleaseTime(r, mode) > 0
    requires e in ReleasePart(rels, mode)
    ensures e.time > 0
  {
    assert rels[|rels| - 1] in rels;
    if e in ReleasePart(rels[..|rels| - 1], mode) {
      ReleaseEventsLate(rels[..|rels| - 1], mode, e);
    }
  }

  lemma {:induction false} DeltaOf(events: seq<Event>, d: Dimension, i: nat)
    requires i < |events|
    ensures Deltas(events, d)[i] == events[i].delta.At(d)
  {
    if i < |events| - 1 { DeltaOf(events[..|events| - 1], d, i); }
  }

  lemma {:induction false} UpToMembers(events: seq<Event>, t: int)
    ensures forall e | e in UpTo(events, t) :: e in events && e.time <= t
  {
    if events != [] {
      UpToMembers(events[..|events| - 1], t);
      assert events[|events| - 1] in events;
    }
  }

  // At time zero, with no release boundary yet, the curve is what the active holds leave.
  lemma CurveAtZero(base: Amounts, events: seq<Event>, rs: seq<Reservation>, rels: seq<Release>,
                    mode: QueryMode, d: Dimension)
    requires NothingReleasedYet(base, events, rs, rels, mode, d)
    ensures CurveAt(base, events, 0).At(d) == Max0(base.At(d) - SumBy(rs, HeldFn(mode, d, 0)))
  {
    EarlyCurve(base, events, rs, rels, mode, d);
    HeldAtZero(base, events, rs, rels, mode, d);
  }

  // The timeline evidence at time zero, before any release.
  ghost predicate NothingReleasedYet(base: Amounts, events: seq<Event>, rs: seq<Reservation>,
                                     rels: seq<Release>, mode: QueryMode, d: Dimension) {
    && base.NonNegative() && IsTimelineOf(events, rs, rels, mode) && WellFormed(rs, rels, d)
    && forall r | r in rels :: ReleaseTime(r, mode) > 0
  }

  lemma QuietHolds(base: Amounts, events: seq<Event>, rs: seq<Reservation>, rels: seq<Release>,
                   mode: QueryMode, d: Dimension)
    requires NothingReleasedYet(base, events, rs, rels, mode, d)
    ensures base.NonNegative() && WellFormed(rs, [], d)
  {
  }

  lemma EarlyCurve(base: Amounts, events: seq<Event>, rs: seq<Reservation>, rels: seq<Release>,
                   mode: QueryMode, d: Dimension)
    requires NothingReleasedYet(base, events, rs, rels, mode, d)
    ensures CurveAt(base, events, 0).At(d) == Max0(base.At(d) + SumBy(events, CutFn(d, 0)))
  {
    EarlyEventsDrop(events, rs, rels, mode, d);
    CurveOfDrops(base, events, d, 0);
  }

  lemma HeldAtZero(base: Amounts, events: seq<Event>, rs: seq<Reservation>, rels: seq<Release>,
                   mode: QueryMode, d: Dimension)
    requires NothingReleasedYet(base, events, rs, rels, mode, d)
    ensures SumBy(events, CutFn(d, 0)) == -SumBy(rs, HeldFn(mode, d, 0))
  {
    TimelineSums(events, rs, rels, mode, d, 0);
    NothingCredited(rels, mode, d);
  }

  lemma CurveOfDrops(base: Amounts, events: seq<Event>, d: Dimension, t: int)
    requires base.NonNegative()
    requires forall i | 0 <= i < Count(events, t) :: Deltas(UpTo(events, t), d)[i] <= 0.0
    ensures CurveAt(base, events, t).At(d) == Max0(base.At(d) + SumBy(events, CutFn(d, t)))
  {
    LevelOfDrops(base.At(d), Deltas(UpTo(events, t), d));
    ReplayIsLevel(base, UpTo(events, t), d);
    TotalUpTo(events, d, t);
  }

  lemma EarlyEventsDrop(events: seq<Event>, rs: seq<Reservation>, rels: seq<Release>,
                        mode: QueryMode, d: Dimension)
    requires IsTimelineOf(events, rs, rels, mode) && WellFormed(rs, rels, d)
    requires forall r | r in rels :: ReleaseTime(r, mode) > 0
    ensures forall i | 0 <= i < Count(events, 0) :: Deltas(UpTo(events, 0), d)[i] <= 0.0
  {
    var early := UpTo(events, 0);
    UpToMembers(events, 0);
    forall i | 0 <= i < |early| ensures Deltas(early, d)[i] <= 0.0 {
      var e := early[i];
      DeltaOf(early, d, i);
      assert e in early && e in multiset(events);
      if e in ReservationPart(rs, mode) {
        EarlyReservationEventsDrop(rs, mode, d, e);
      } else {
        assert e in multiset(ReservationPart(rs, mode) + ReleasePart(rels, mode));
        ReleaseEventsLate(rels, mode, e);
      }
    }
  }

  lemma {:induction false} NothingCredited(rels: seq<Release>, mode: QueryMode, d: Dimension)
    requires forall r | r in rels :: ReleaseTime(r, mode) > 0
    ensures SumBy(rels, CreditFn(mode, d, 0)) == 0.0
  {
    if rels != [] {
      assert rels[|rels| - 1] in rels;
      NothingCredited(rels[..|rels| - 1], mode, d);
    }
  }

  // --- The order of the modes -----------------------------------------------------------

  ghost predicate BoundsOrdered(rels: seq<Release>) {
    forall e | e in rels :: e.earliest <= e.time <= e.latest
  }

  // a credits releases no later than b and counts no reservation b does not count.
  ghost predicate MoreGenerous(a: QueryMode, b: QueryMode, rs: seq<Reservation>, rels: seq<Release>) {
    && (forall e | e in rels :: ReleaseTime(e, a) <= ReleaseTime(e, b))
    && (forall r | r in rs :: Counts(r, a) ==> Counts(r, b))
  }

  lemma NoOvercommitCarries(base: Amounts, rs: seq<Reservation>, rels: seq<Release>,
                            a: QueryMode, b: QueryMode, d: Dimension)
    requires WellFormed(rs, rels, d) && MoreGenerous(a, b, rs, rels)
    requires NoOvercommit(base, rs, rels, b, d)
    ensures NoOvercommit(base, rs, rels, a, d)
  {
    forall t: int
      ensures base.At(d) + SumBy(rels, CreditBeforeFn(a, d, t)) >= SumBy(rs, HeldClosedFn(a, d, t))
    {
      assert base.At(d) + SumBy(rels, CreditBeforeFn(b, d, t)) >= SumBy(rs, HeldClosedFn(b, d, t));
      SumByMonotone(rels, CreditBeforeFn(b, d, t), CreditBeforeFn(a, d, t));
      SumByMonotone(rs, HeldClosedFn(a, d, t), HeldClosedFn(b, d, t));
    }
  }

  lemma GenerousViewIsHigher(base: Amounts, rs: seq<Reservation>, rels: seq<Release>,
                             a: QueryMode, b: QueryMode, d: Dimension, t: int)
    requires WellFormed(rs, rels, d) && MoreGenerous(a, b, rs, rels)
    ensures IntervalView(base, rs, rels, b, d, t) <= IntervalView(base, rs, rels, a, d, t)
  {
    SumByMonotone(rels, CreditFn(b, d, t), CreditFn(a, d, t));
    SumByMonotone(rs, HeldFn(a, d, t), HeldFn(b, d, t));
  }

  // What the reservations that are not hard hold at t.
  function SoftFn(d: Dimension, t: int): Reservation -> real {
    (r: Reservation) =>
      if r.strength != HARD && r.interval.ContainsPoint(t) then r.hold.At(d) else 0.0
  }

  lemma {:induction false} SoftGap(rs: seq<Reservation>, d: Dimension, t: int)
    ensures SumBy(rs, HeldFn(CONSERVATIVE, d, t))
            == SumBy(rs, HeldFn(GUARANTEED, d, t)) + SumBy(rs, SoftFn(d, t))
  {
    if rs != [] {
      SoftGap(rs[..|rs| - 1], d, t);
    }
  }

  // The four timelines of one set of evidence, in any order of simultaneous events.
  datatype Curves = Curves(guaranteed: seq<Event>, conservative: seq<Event>,
                           expected: seq<Event>, optimistic: seq<Event>)
  {
    ghost predicate Of(rs: seq<Reservation>, rels: seq<Release>) {
      && IsTimelineOf(guaranteed, rs, rels, GUARANTEED)
      && IsTimelineOf(conservative, rs, rels, CONSERVATIVE)
      && IsTimelineOf(expected, rs, rels, EXPECTED)
      && IsTimelineOf(optimistic, rs, rels, OPTIMISTIC)
    }
  }

  // The evidence of one mode: its timeline in some order of simultaneous events.
  ghost predicate Shows(base: Amounts, events: seq<Event>, rs: seq<Reservation>, rels: seq<Release>,
                        mode: QueryMode, d: Dimension) {
    base.NonNegative() && IsTimelineOf(events, rs, rels, mode) && WellFormed(rs, rels, d)
  }

  // --- Without overcommitment the modes are ordered ------------------------------------------

  lemma SoundCurvesOrdered(base: Amounts, rs: seq<Reservation>, rels: seq<Release>, a: QueryMode, b: QueryMode,
                           ea: seq<Event>, eb: seq<Event>, d: Dimension, t: int)
    requires Shows(base, ea, rs, rels, a, d) && Shows(base, eb, rs, rels, b, d)
    requires MoreGenerous(a, b, rs, rels) && NoOvercommit(base, rs, rels, b, d)
    ensures CurveAt(base, eb, t).At(d) <= CurveAt(base, ea, t).At(d)
  {
    NoOvercommitCarries(base, rs, rels, a, b, d);
    CurveIsIntervalView(base, ea, rs, rels, a, d, t);
    CurveIsIntervalView(base, eb, rs, rels, b, d, t);
    GenerousViewIsHigher(base, rs, rels, a, b, d, t);
  }

  lemma SoundSoftGap(base: Amounts, rs: seq<Reservation>, rels: seq<Release>,
                     eg: seq<Event>, ec: seq<Event>, d: Dimension, t: int)
    requires Shows(base, eg, rs, rels, GUARANTEED, d) && Shows(base, ec, rs, rels, CONSERVATIVE, d)
    requires NoOvercommit(base, rs, rels, CONSERVATIVE, d)
    ensures CurveAt(base, eg, t).At(d) == CurveAt(base, ec, t).At(d) + SumBy(rs, SoftFn(d, t))
  {
    NoOvercommitCarries(base, rs, rels, GUARANTEED, CONSERVATIVE, d);
    CurveIsIntervalView(base, eg, rs, rels, GUARANTEED, d, t);
    CurveIsIntervalView(base, ec, rs, rels, CONSERVATIVE, d, t);
    SumByEqual(rels, CreditFn(GUARANTEED, d, t), CreditFn(CONSERVATIVE, d, t));
    SoftGap(rs, d, t);
  }

  // Conservative <= expected <= optimistic at every time, and guaranteed is above
  // conservative by exactly the soft holds active then.
  lemma ModesOrdered(base: Amounts, rs: seq<Reservation>, rels: seq<Release>, c: Curves,
                     d: Dimension, t: int)
    requires base.NonNegative() && WellFormed(rs, rels, d) && BoundsOrdered(rels) && c.Of(rs, rels)
    requires NoOvercommit(base, rs, rels, CONSERVATIVE, d)
    ensures CurveAt(base, c.conservative, t).At(d) <= CurveAt(base, c.expected, t).At(d)
            <= CurveAt(base, c.optimistic, t).At(d)
    ensures CurveAt(base, c.guaranteed, t).At(d)
            == CurveAt(base, c.conservative, t).At(d) + SumBy(rs, SoftFn(d, t))
  {
    BoundsGiveGenerosity(rs, rels);
    NoOvercommitCarries(base, rs, rels, EXPECTED, CONSERVATIVE, d);
    SoundCurvesOrdered(base, rs, rels, EXPECTED, CONSERVATIVE, c.expected, c.conservative, d, t);
    SoundCurvesOrdered(base, rs, rels, OPTIMISTIC, EXPECTED, c.optimistic, c.expected, d, t);
    SoundSoftGap(base, rs, rels, c.guaranteed, c.conservative, d, t);
  }

  lemma BoundsGiveGenerosity(rs: seq<Reservation>, rels: seq<Release>)
    requires BoundsOrdered(rels)
    ensures MoreGenerous(EXPECTED, CONSERVATIVE, rs, rels) && MoreGenerous(OPTIMISTIC, EXPECTED, rs, rels)
  {
  }

  // --- The order of two modes, exactly ----------------------------------------------------

  // Overcommitted or not, the curve is the interval view and the deepest shortfall so far.
  lemma CurveIsViewPlusShortfall(base: Amounts, events: seq<Event>, rs: seq<Reservation>, rels: seq<Release>,
                                 mode: QueryMode, d: Dimension, t: int)
    requires Shows(base, events, rs, rels, mode, d)
    ensures CurveAt(base, events, t).At(d)
            == IntervalView(base, rs, rels, mode, d, t) + ShortfallAt(base, events, d, t)
  {
    CurveIsSumPlusShortfall(base, events, d, t);
    TimelineSums(events, rs, rels, mode, d, t);
  }

  // The more generous mode shows at least as much at t as soon as the replay of the other
  // one up to t never goes below zero.
  lemma GenerousCurveIsHigher(base: Amounts, rs: seq<Reservation>, rels: seq<Release>, a: QueryMode, b: QueryMode,
                              ea: seq<Event>, eb: seq<Event>, d: Dimension, t: int)
    requires Shows(base, ea, rs, rels, a, d) && Shows(base, eb, rs, rels, b, d)
    requires MoreGenerous(a, b, rs, rels) && NeverBelowZero(base, eb, d, t)
    ensures CurveAt(base, eb, t).At(d) <= CurveAt(base, ea, t).At(d)
  {
    CurveIsIntervalViewIff(base, ea, rs, rels, a, d, t);
    CurveIsIntervalViewIff(base, eb, rs, rels, b, d, t);
    GenerousViewIsHigher(base, rs, rels, a, b, d, t);
  }

  // Exactly: a shows at least as much as b at t if and only if b's shortfall exceeds a's by
  // no more than a's interval view exceeds b's.
  lemma CurveOrderIff(base: Amounts, rs: seq<Reservation>, rels: seq<Release>, a: QueryMode, b: QueryMode,
                      ea: seq<Event>, eb: seq<Event>, d: Dimension, t: int)
    requires Shows(base, ea, rs, rels, a, d) && Shows(base, eb, rs, rels, b, d)
    ensures CurveAt(base, eb, t).At(d) <= CurveAt(base, ea, t).At(d)
            <==> ShortfallAt(base, eb, d, t) - ShortfallAt(base, ea, d, t)
                 <= IntervalView(base, rs, rels, a, d, t) - IntervalView(base, rs, rels, b, d, t)
  {
    CurveIsViewPlusShortfall(base, ea, rs, rels, a, d, t);
    CurveIsViewPlusShortfall(base, eb, rs, rels, b, d, t);
  }

  // Guaranteed exceeds conservative by exactly the active soft holds if and only if the two
  // fall equally short.
  lemma SoftGapIff(base: Amounts, rs: seq<Reservation>, rels: seq<Release>,
                   eg: seq<Event>, ec: seq<Event>, d: Dimension, t: int)
    requires Shows(base, eg, rs, rels, GUARANTEED, d) && Shows(base, ec, rs, rels, CONSERVATIVE, d)
    ensures CurveAt(base, eg, t).At(d) == CurveAt(base, ec, t).At(d) + SumBy(rs, SoftFn(d, t))
            <==> ShortfallAt(base, eg, d, t) == ShortfallAt(base, ec, d, t)
  {
    CurveIsViewPlusShortfall(base, eg, rs, rels, GUARANTEED, d, t);
    CurveIsViewPlusShortfall(base, ec, rs, rels, CONSERVATIVE, d, t);
    SumByEqual(rels, CreditFn(GUARANTEED, d, t), CreditFn(CONSERVATIVE, d, t));
    SoftGap(rs, d, t);
  }
}
