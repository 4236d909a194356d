/** What each query mode credits and counts, told by the fields of the records alone
    (include/capacity_fabric/forecast/forecast.hpp). */
module ModeLaws {
  import opened Capacities
  import opened Timelines
  import opened Sums
  import opened CurveLaws
  import opened Forecasts

  // --- What is credited and held by t --------------------------------------------------

  // Releases whose latest bound has passed.
  function ByLatestFn(d: Dimension, t: int): Release -> real {
    (e: Release) => if e.latest <= t then e.release.At(d) else 0.0
  }

  // Releases whose earliest bound has passed.
  function ByEarliestFn(d: Dimension, t: int): Release -> real {
    (e: Release) => if e.earliest <= t then e.release.At(d) else 0.0
  }

  // Releases whose expected time has passed.
  function ByTimeFn(d: Dimension, t: int): Release -> real {
    (e: Release) => if e.time <= t then e.release.At(d) else 0.0
  }

  // All holds that have begun and not ended.
  function AllHeldFn(d: Dimension, t: int): Reservation -> real {
    (r: Reservation) => if r.interval.start <= t < r.interval.end then r.hold.At(d) else 0.0
  }

  // The hard ones of them: those of strength zero.
  function HardHeldFn(d: Dimension, t: int): Reservation -> real {
    (r: Reservation) =>
      if r.strength == 0 && r.interval.start <= t < r.interval.end then r.hold.At(d) else 0.0
  }

  // The modes by number: 0 guaranteed, 1 conservative, 2 expected, 3 optimistic; any
  // other number is treated as expected.
  function CreditedBy(rels: seq<Release>, mode: QueryMode, d: Dimension, t: int): real {
    match mode
    case 0 => SumBy(rels, ByLatestFn(d, t))
    case 1 => SumBy(rels, ByLatestFn(d, t))
    case 3 => SumBy(rels, ByEarliestFn(d, t))
    case _ => SumBy(rels, ByTimeFn(d, t))
  }

  function HeldBy(rs: seq<Reservation>, mode: QueryMode, d: Dimension, t: int): real {
    if mode == 0 then SumBy(rs, HardHeldFn(d, t)) else SumBy(rs, AllHeldFn(d, t))
  }

  lemma CreditsAre(rels: seq<Release>, mode: QueryMode, d: Dimension, t: int)
    ensures SumBy(rels, CreditFn(mode, d, t)) == CreditedBy(rels, mode, d, t)
  {
    match mode
    case 0 => SumByEqual(rels, CreditFn(mode, d, t), ByLatestFn(d, t));
    case 1 => SumByEqual(rels, CreditFn(mode, d, t), ByLatestFn(d, t));
    case 3 => SumByEqual(rels, CreditFn(mode, d, t), ByEarliestFn(d, t));
    case _ => SumByEqual(rels, CreditFn(mode, d, t), ByTimeFn(d, t));
  }

  lemma HoldsAre(rs: seq<Reservation>, mode: QueryMode, d: Dimension, t: int)
    ensures SumBy(rs, HeldFn(mode, d, t)) == HeldBy(rs, mode, d, t)
  {
    if mode == 0 {
      SumByEqual(rs, HeldFn(mode, d, t), HardHeldFn(d, t));
    } else {
      SumByEqual(rs, HeldFn(mode, d, t), AllHeldFn(d, t));
    }
  }

  // --- The curve of a mode --------------------------------------------------------------

  // With no holds a mode shows the base and what it credits by then: guaranteed and
  // conservative at the latest bound, optimistic at the earliest, the others at the
  // expected time.
  lemma ReleasesCredited(base: Amounts, events: seq<Event>, rels: seq<Release>,
                         mode: QueryMode, d: Dimension, t: int)
    requires base.NonNegative() && IsTimelineOf(events, [], rels, mode)
    requires forall e | e in rels :: e.release.At(d) >= 0.0
    ensures CurveAt(base, events, t).At(d) == base.At(d) + CreditedBy(rels, mode, d, t)
  {
    ReleasesCover(base, rels, mode, d);
    CurveIsIntervalView(base, events, [], rels, mode, d, t);
    CreditsAre(rels, mode, d, t);
  }

  lemma ReleasesCover(base: Amounts, rels: seq<Release>, mode: QueryMode, d: Dimension)
    requires base.NonNegative() && forall e | e in rels :: e.release.At(d) >= 0.0
    ensures NoOvercommit(base, [], rels, mode, d)
  {
    forall t: int ensures base.At(d) + SumBy(rels, CreditBeforeFn(mode, d, t)) >= SumBy([], HeldClosedFn(mode, d, t)) {
      SumByNonNegative(rels, CreditBeforeFn(mode, d, t));
    }
  }

  // With holds and without overcommitment, less what it counts as held: the hard holds if
  // guaranteed, all of them otherwise.
  lemma ModeShows(base: Amounts, events: seq<Event>, rs: seq<Reservation>, rels: seq<Release>,
                  mode: QueryMode, d: Dimension, t: int)
    requires Shows(base, events, rs, rels, mode, d) && NoOvercommit(base, rs, rels, mode, d)
    ensures CurveAt(base, events, t).At(d)
            == base.At(d) + CreditedBy(rels, mode, d, t) - HeldBy(rs, mode, d, t)
  {
    CurveIsIntervalView(base, events, rs, rels, mode, d, t);
    CreditsAre(rels, mode, d, t);
    HoldsAre(rs, mode, d, t);
  }

  // Overcommitted or not, the same plus the deepest shortfall so far.
  lemma ModeShowsWithShortfall(base: Amounts, events: seq<Event>, rs: seq<Reservation>, rels: seq<Release>,
                               mode: QueryMode, d: Dimension, t: int)
    requires Shows(base, events, rs, rels, mode, d)
    ensures CurveAt(base, events, t).At(d)
            == base.At(d) + CreditedBy(rels, mode, d, t) - HeldBy(rs, mode, d, t) + ShortfallAt(base, events, d, t)
  {
    CurveIsViewPlusShortfall(base, events, rs, rels, mode, d, t);
    CreditsAre(rels, mode, d, t);
    HoldsAre(rs, mode, d, t);
  }
}
