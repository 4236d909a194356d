/** The event-driven capacity timeline (include/capacity_fabric/timeline/timeline.hpp). */
module Timelines {
  import opened Capacities

  // Nanoseconds since the authority epoch; the least 64-bit value is the sentinel
  // that heads the time index.
  const MIN_TIME := -0x8000_0000_0000_0000

  type TimePoint = t: int | MIN_TIME <= t

  const MAX_U64 := 0xffff_ffff_ffff_ffff

  type U64 = n: int | 0 <= n <= MAX_U64

  datatype Event = Event(time: TimePoint, delta: Delta)

  // [start, end): closed at start, open at end.
  datatype Interval = Interval(start: TimePoint, end: TimePoint) {
    predicate Valid() {
      0 <= start < end
    }

    predicate ContainsPoint(t: int) {
      start <= t < end
    }
  }

  const HARD := 0
  const SOFT := 1

  // The strength is an 8-bit enumeration: only HARD is ever tested for.
  datatype Reservation = Reservation(
    id: U64, generation: U64, interval: Interval, hold: Delta, strength: nat)

  datatype Release = Release(
    sourceId: U64, time: TimePoint, earliest: TimePoint, latest: TimePoint,
    release: Delta, confidence: real)

  datatype Maintenance = Maintenance(interval: Interval, unavailable: Delta, knownFuture: bool)

  function ReservationEvents(r: Reservation): seq<Event> {
    [Event(r.interval.start, r.hold.Negate()), Event(r.interval.end, r.hold)]
  }

  // --- The plain replay -----------------------------------------------------------

  // Every event applied in order.
  function Replay(base: Amounts, events: seq<Event>): Amounts {
    if events == [] then base
    else ApplyDelta(Replay(base, events[..|events| - 1]), events[|events| - 1].delta)
  }

  function UpTo(events: seq<Event>, t: int): seq<Event> {
    if events == [] then []
    else
      var rest := UpTo(events[..|events| - 1], t);
      if events[|events| - 1].time <= t then rest + [events[|events| - 1]] else rest
  }

  // The reference meaning of the curve: replay exactly the events at or before t.
  function CurveAt(base: Amounts, events: seq<Event>, t: int): Amounts {
    Replay(base, UpTo(events, t))
  }

  ghost predicate Sorted(events: seq<Event>) {
    forall i, j | 0 <= i < j < |events| :: events[i].time <= events[j].time
  }

  // How many events happen at or before t.
  function Count(events: seq<Event>, t: int): nat {
    |UpTo(events, t)|
  }

  // The value of the curve after each number of events.
  function Steps(base: Amounts, events: seq<Event>): (r: seq<Amounts>)
    ensures |r| == |events| + 1
  {
    if events == [] then [base]
    else
      var init := Steps(base, events[..|events| - 1]);
      init + [ApplyDelta(init[|events| - 1], events[|events| - 1].delta)]
  }

  lemma {:induction false} StepsAreReplays(base: Amounts, events: seq<Event>, i: nat)
    requires i <= |events|
    ensures Steps(base, events)[i] == Replay(base, events[..i])
    ensures i < |events| ==>
              Steps(base, events)[i + 1] == ApplyDelta(Steps(base, events)[i], events[i].delta)
  {
    if events != [] {
      var n := |events| - 1;
      if i <= n {
        StepsAreReplays(base, events[..n], i);
        assert events[..n][..i] == events[..i];
      } else {
        StepsAreReplays(base, events[..n], n);
        assert events[..i] == events && events[..n][..n] == events[..n];
      }
    }
  }

  lemma {:induction false} ReplayNonNegative(base: Amounts, events: seq<Event>)
    requires base.NonNegative()
    ensures Replay(base, events).NonNegative()
  {
    if events != [] {
      ReplayNonNegative(base, events[..|events| - 1]);
    }
  }

  lemma {:induction false} StepsNonNegative(base: Amounts, events: seq<Event>)
    requires base.NonNegative()
    ensures forall i | 0 <= i <= |events| :: Steps(base, events)[i].NonNegative()
  {
    forall i | 0 <= i <= |events| ensures Steps(base, events)[i].NonNegative() {
      StepsAreReplays(base, events, i);
      ReplayNonNegative(base, events[..i]);
    }
  }

  // On a sorted timeline the events at or before t are a prefix.
  lemma {:induction false} UpToIsPrefix(events: seq<Event>, t: int)
    requires Sorted(events)
    ensures Count(events, t) <= |events|
    ensures UpTo(events, t) == events[..Count(events, t)]
    ensures forall i | 0 <= i < |events| :: i < Count(events, t) <==> events[i].time <= t
  {
    if events != [] {
      var n := |events| - 1;
      UpToIsPrefix(events[..n], t);
      assert Count(events[..n], t) < n ==> events[..n][n - 1].time > t;
      assert events[..n] + [events[n]] == events;
    }
  }

  // The number of events at or before t is the only such split point.
  lemma CountUnique(events: seq<Event>, t: int, n: nat)
    requires Sorted(events) && n <= |events|
    requires n > 0 ==> events[n - 1].time <= t
    requires n < |events| ==> events[n].time > t
    ensures Count(events, t) == n
  {
    UpToIsPrefix(events, t);
  }

  lemma CurveIsStep(base: Amounts, events: seq<Event>, t: int)
    requires Sorted(events)
    ensures Count(events, t) <= |events|
    ensures CurveAt(base, events, t) == Steps(base, events)[Count(events, t)]
  {
    UpToIsPrefix(events, t);
    StepsAreReplays(base, events, Count(events, t));
  }

  lemma CountMonotone(events: seq<Event>, t: int, u: int)
    requires Sorted(events) && t <= u
    ensures Count(events, t) <= Count(events, u) <= |events|
  {
    UpToIsPrefix(events, t);
    UpToIsPrefix(events, u);
    var c := Count(events, t);
    if c > 0 {
      assert events[c - 1].time <= t;
    }
  }

  // --- The window walk --------------------------------------------------------------

  // The minimum over consecutive steps, folded from the left as the code folds it.
  function FoldMin(steps: seq<Amounts>): Amounts
    requires steps != []
  {
    if |steps| == 1 then steps[0]
    else Min(FoldMin(steps[..|steps| - 1]), steps[|steps| - 1])
  }

  function FoldMax(steps: seq<Amounts>): Amounts
    requires steps != []
  {
    if |steps| == 1 then steps[0]
    else MaxCap(FoldMax(steps[..|steps| - 1]), steps[|steps| - 1])
  }

  // f is the first step at which d is present.
  ghost predicate FirstHolding(steps: seq<Amounts>, d: Dimension, f: nat) {
    && f < |steps|
    && steps[f].Has(d)
    && forall i | 0 <= i < f :: !steps[i].Has(d)
  }

  // v is the least amount of d from step f on.
  ghost predicate IsLeast(steps: seq<Amounts>, f: nat, d: Dimension, v: real) {
    && (forall i | f <= i < |steps| :: v <= steps[i].At(d))
    && (exists i :: f <= i < |steps| && v == steps[i].At(d))
  }

  ghost predicate IsGreatest(steps: seq<Amounts>, d: Dimension, v: real) {
    && (forall i | 0 <= i < |steps| :: v >= steps[i].At(d))
    && (exists i :: 0 <= i < |steps| && v == steps[i].At(d))
  }

  lemma LeastExtends(steps: seq<Amounts>, f: nat, d: Dimension, v: real)
    requires |steps| > 1 && f < |steps| - 1
    requires IsLeast(steps[..|steps| - 1], f, d, v)
    ensures var last := steps[|steps| - 1].At(d);
            IsLeast(steps, f, d, Lesser(v, last))
  {
    var init := steps[..|steps| - 1];
    var j :| f <= j < |init| && v == init[j].At(d);
    assert v == steps[j].At(d);
    assert forall i | f <= i < |init| :: init[i] == steps[i];
  }

  // What the walk computes, dimension by dimension: the least amount from the
  // first step that holds the dimension on, and nothing if no step does.
  lemma {:induction false} FoldMinMeaning(steps: seq<Amounts>, d: Dimension)
    requires steps != []
    ensures !FoldMin(steps).Has(d) ==> forall i | 0 <= i < |steps| :: !steps[i].Has(d)
    ensures FoldMin(steps).Has(d) ==>
              exists f: nat :: FirstHolding(steps, d, f) && IsLeast(steps, f, d, FoldMin(steps).At(d))
  {
    var n := |steps| - 1;
    if n == 0 {
      if FoldMin(steps).Has(d) {
        assert FirstHolding(steps, d, 0) && IsLeast(steps, 0, d, FoldMin(steps).At(d));
      }
    } else {
      var init := steps[..n];
      assert forall i | 0 <= i < n :: steps[i] == init[i];
      FoldMinMeaning(init, d);
      MinAt(FoldMin(init), steps[n], d);
      if FoldMin(init).Has(d) {
        var f: nat :| FirstHolding(init, d, f) && IsLeast(init, f, d, FoldMin(init).At(d));
        LeastExtends(steps, f, d, FoldMin(init).At(d));
        assert FirstHolding(steps, d, f);
      } else if steps[n].Has(d) {
        assert FirstHolding(steps, d, n) && IsLeast(steps, n, d, FoldMin(steps).At(d));
      }
    }
  }

  // The maximum has no blind spot: an absent dimension counts as zero.
  lemma {:induction false} FoldMaxMeaning(steps: seq<Amounts>, d: Dimension)
    requires steps != [] && forall i | 0 <= i < |steps| :: steps[i].NonNegative()
    ensures FoldMax(steps).NonNegative()
    ensures IsGreatest(steps, d, FoldMax(steps).At(d))
  {
    var n := |steps| - 1;
    if n > 0 {
      var init := steps[..n];
      FoldMaxMeaning(init, d);
      var v := FoldMax(init).At(d);
      var j :| 0 <= j < n && v == init[j].At(d);
      assert init[j] == steps[j] && forall i | 0 <= i < n :: init[i] == steps[i];
      MaxAt(FoldMax(init), steps[n], d);
    }
  }

  // The last step a walk over [start, end) reaches.
  function LastStep(events: seq<Event>, start: int, end: int): nat {
    if end <= start then Count(events, start) else Count(events, end - 1)
  }

  // The steps a walk over [start, end) passes.
  function WindowSteps(base: Amounts, events: seq<Event>, start: int, end: int): (r: seq<Amounts>)
    requires Sorted(events)
    ensures r != []
  {
    WalkBounds(events, start, end);
    Steps(base, events)[Count(events, start)..LastStep(events, start, end) + 1]
  }

  // The events passed are exactly those strictly inside the window.
  lemma WalkBounds(events: seq<Event>, start: int, end: int)
    requires Sorted(events)
    ensures Count(events, start) <= LastStep(events, start, end) <= |events|
    ensures forall i | Count(events, start) <= i < |events| ::
              events[i].time < end <==> i < LastStep(events, start, end)
  {
    UpToIsPrefix(events, start);
    UpToIsPrefix(events, end - 1);
    if end > start { CountMonotone(events, start, end - 1); }
  }

  // --- Which steps of a walk are values of the curve ----------------------------------

  // Step i falls between two events with the same time, so no time shows it.
  ghost predicate Hidden(events: seq<Event>, i: nat) {
    0 < i < |events| && events[i - 1].time == events[i].time
  }

  ghost predicate InWindow(start: int, end: int, u: int) {
    u == start || start <= u < end
  }

  // Every time of the window shows one of the walk's steps ...
  lemma WindowShowsSteps(events: seq<Event>, start: int, end: int, u: int)
    requires Sorted(events) && InWindow(start, end, u)
    ensures Count(events, start) <= Count(events, u) <= LastStep(events, start, end) <= |events|
  {
    CountMonotone(events, start, u);
    CountMonotone(events, u, if end <= start then start else end - 1);
  }

  // ... and every step that is not hidden is shown at some time of the window.
  lemma StepIsShown(events: seq<Event>, start: int, end: int, i: nat) returns (u: int)
    requires Sorted(events)
    requires Count(events, start) <= i <= LastStep(events, start, end)
    requires !Hidden(events, i) || i == Count(events, start)
    ensures InWindow(start, end, u) && Count(events, u) == i
  {
    UpToIsPrefix(events, start);
    if i == Count(events, start) {
      u := start;
    } else {
      UpToIsPrefix(events, end - 1);
      u := events[i - 1].time;
      UpToIsPrefix(events, u);
    }
  }

  // --- The timeline object -------------------------------------------------------------

  // Sorting by time only; the order of simultaneous events is left open.
  method SortByTime(events: seq<Event>) returns (sorted: seq<Event>)
    ensures Sorted(sorted) && multiset(sorted) == multiset(events)
  {
    sorted := [];
    for n := 0 to |events|
      invariant Sorted(sorted) && multiset(sorted) == multiset(events[..n])
    {
      assert events[..n + 1] == events[..n] + [events[n]];
      sorted := InsertByTime(sorted, events[n]);
    }
    assert events[..|events|] == events;
  }

  lemma SplicedSorted(sorted: seq<Event>, i: nat, e: Event)
    requires Sorted(sorted) && i <= |sorted|
    requires i > 0 ==> sorted[i - 1].time <= e.time
    requires i < |sorted| ==> e.time <= sorted[i].time
    ensures Sorted(sorted[..i] + [e] + sorted[i..])
  {
  }

  lemma SplicedContents(sorted: seq<Event>, i: nat, e: Event)
    requires i <= |sorted|
    ensures multiset(sorted[..i] + [e] + sorted[i..]) == multiset(sorted) + multiset{e}
  {
    assert sorted[..i] + sorted[i..] == sorted;
  }

  method InsertByTime(sorted: seq<Event>, e: Event) returns (r: seq<Event>)
    requires Sorted(sorted)
    ensures Sorted(r) && multiset(r) == multiset(sorted) + multiset{e}
  {
    var i := |sorted|;
    while i > 0 && e.time < sorted[i - 1].time
      invariant 0 <= i <= |sorted|
      invariant i < |sorted| ==> e.time < sorted[i].time
    {
      i := i - 1;
    }
    SplicedSorted(sorted, i, e);
    SplicedContents(sorted, i, e);
    r := sorted[..i] + [e] + sorted[i..];
  }

  ghost predicate Increasing(times: seq<int>) {
    forall i, j | 0 <= i < j < |times| :: times[i] <= times[j]
  }

  // std::upper_bound: the first index whose time is after t.
  method UpperBound(times: seq<int>, t: int) returns (i: nat)
    requires Increasing(times)
    ensures i <= |times|
    ensures forall j | 0 <= j < |times| :: j < i <==> times[j] <= t
  {
    var lo, hi := 0, |times|;
    while lo < hi
      invariant 0 <= lo <= hi <= |times|
      invariant forall j | 0 <= j < lo :: times[j] <= t
      invariant forall j | hi <= j < |times| :: times[j] > t
    {
      var mid := (lo + hi) / 2;
      if times[mid] <= t { lo := mid + 1; } else { hi := mid; }
    }
    return lo;
  }

  // The times of the events, headed by the sentinel.
  ghost predicate Indexes(times: seq<int>, events: seq<Event>) {
    && |times| == |events| + 1
    && times[0] == MIN_TIME
    && forall i | 1 <= i < |times| :: times[i] == events[i - 1].time
  }

  lemma IndexIncreasing(times: seq<int>, events: seq<Event>)
    requires Sorted(events) && Indexes(times, events)
    ensures Increasing(times)
  {
    forall i, j | 0 <= i < j < |times| ensures times[i] <= times[j] {
      assert times[j] == events[j - 1].time;
    }
  }

  // A walk from step k that has reached step i.
  ghost predicate AtLow(steps: seq<Amounts>, k: nat, i: nat, cur: Amounts, best: Amounts) {
    k <= i < |steps| && cur == steps[i] && best == FoldMin(steps[k..i + 1])
  }

  ghost predicate AtHigh(steps: seq<Amounts>, k: nat, i: nat, cur: Amounts, best: Amounts) {
    k <= i < |steps| && cur == steps[i] && best == FoldMax(steps[k..i + 1])
  }

  // One event of a walk: the value before it and the value after it count.
  method LowerBy(best: Amounts, cur: Capacity, delta: Delta, ghost steps: seq<Amounts>, ghost k: nat, ghost i: nat)
    returns (lower: Amounts)
    requires AtLow(steps, k, i, cur.amounts, best)
    requires i + 1 < |steps| && steps[i + 1] == ApplyDelta(steps[i], delta)
    modifies cur
    ensures AtLow(steps, k, i + 1, cur.amounts, lower)
  {
    WalkStep(steps, k, i);
    lower := Min(best, cur.amounts);
    cur.Apply(delta);
    lower := Min(lower, cur.amounts);
  }

  method RaiseBy(best: Amounts, cur: Capacity, delta: Delta, ghost steps: seq<Amounts>, ghost k: nat, ghost i: nat)
    returns (higher: Amounts)
    requires AtHigh(steps, k, i, cur.amounts, best)
    requires i + 1 < |steps| && steps[i + 1] == ApplyDelta(steps[i], delta)
    modifies cur
    ensures AtHigh(steps, k, i + 1, cur.amounts, higher)
  {
    WalkStep(steps, k, i);
    higher := MaxCap(best, cur.amounts);
    cur.Apply(delta);
    higher := MaxCap(higher, cur.amounts);
  }

  // The first n events are in the index, and their value is at hand.
  ghost predicate IndexedTo(base: Amounts, events: seq<Event>, n: nat,
                            times: seq<int>, prefix: seq<Amounts>, running: Amounts) {
    && n <= |events| && |times| == n + 1 && times[0] == MIN_TIME
    && (forall i | 1 <= i <= n :: times[i] == events[i - 1].time)
    && prefix == Steps(base, events)[..n + 1] && running == Steps(base, events)[n]
  }

  lemma IndexStarts(base: Amounts, events: seq<Event>)
    ensures IndexedTo(base, events, 0, [MIN_TIME], [base], base)
  {
    StepsAreReplays(base, events, 0);
  }

  lemma IndexNext(base: Amounts, events: seq<Event>, n: nat,
                  times: seq<int>, prefix: seq<Amounts>, running: Amounts)
    requires IndexedTo(base, events, n, times, prefix, running) && n < |events|
    ensures var next := ApplyDelta(running, events[n].delta);
            IndexedTo(base, events, n + 1, times + [events[n].time], prefix + [next], next)
  {
    StepsAreReplays(base, events, n);
  }

  class Timeline {
    var base: Amounts
    var events: seq<Event>
    var times: seq<int>
    var prefix: seq<Amounts>

    // The index is up to date with the events.
    ghost predicate Frozen()
      reads this
    {
      Sorted(events) && Indexes(times, events) && prefix == Steps(base, events)
    }

    constructor (base: Amounts)
      ensures this.base == base && events == [] && times == [] && prefix == []
    {
      this.base := base;
      events, times, prefix := [], [], [];
    }

    method AddReservation(r: Reservation)
      modifies this`events
      ensures events == old(events) + ReservationEvents(r)
    {
      events := events + [Event(r.interval.start, r.hold.Negate())];
      events := events + [Event(r.interval.end, r.hold)];
    }

    method AddRelease(e: Release)
      modifies this`events
      ensures events == old(events) + [Event(e.time, e.release)]
    {
      events := events + [Event(e.time, e.release)];
    }

    method AddMaintenance(m: Maintenance)
      modifies this`events
      ensures events == old(events) + [Event(m.interval.start, m.unavailable.Negate()),
                                       Event(m.interval.end, m.unavailable)]
    {
      events := events + [Event(m.interval.start, m.unavailable.Negate())];
      events := events + [Event(m.interval.end, m.unavailable)];
    }

    method Freeze()
      modifies this
      ensures Frozen() && base == old(base)
      ensures multiset(events) == multiset(old(events))
    {
      events := SortByTime(events);
      times, prefix := [MIN_TIME], [base];
      var running := new Capacity(base);
      IndexStarts(base, events);
      for n := 0 to |events|
        modifies this`times, this`prefix, running
        invariant IndexedTo(base, events, n, times, prefix, running.amounts)
      {
        IndexNext(base, events, n, times, prefix, running.amounts);
        running.Apply(events[n].delta);
        times := times + [events[n].time];
        prefix := prefix + [running.amounts];
      }
      assert prefix == Steps(base, events)[..|events| + 1];
    }

    // The indexed answer is the plain replay.
    method CapacityAt(t: TimePoint) returns (c: Amounts)
      requires Frozen()
      ensures c == CurveAt(base, events, t)
    {
      IndexIncreasing(times, events);
      var i := UpperBound(times, t);
      assert times[0] <= t;
      assert times[i - 1] <= t && (i < |times| ==> times[i] > t);
      CountUnique(events, t, i - 1);
      CurveIsStep(base, events, t);
      c := prefix[i - 1];
    }

    method FirstEventIndexAfter(t: int) returns (i: nat)
      requires Frozen()
      ensures i == Count(events, t) <= |events|
    {
      var eventTimes := seq(|events|, j requires 0 <= j < |events| reads this => events[j].time as int);
      i := UpperBound(eventTimes, t);
      assert i > 0 ==> eventTimes[i - 1] <= t;
      assert i < |events| ==> eventTimes[i] > t;
      CountUnique(events, t, i);
    }

    method RangeMin(start: TimePoint, end: int) returns (best: Amounts)
      requires Frozen()
      ensures best == FoldMin(WindowSteps(base, events, start, end))
    {
      ghost var steps, k, m := prefix, Count(events, start), LastStep(events, start, end);
      best := CapacityAt(start);
      CurveIsStep(base, events, start);
      var cur := new Capacity(best);
      var i := FirstEventIndexAfter(start);
      WalkBounds(events, start, end);
      while i < |events|
        modifies cur
        invariant i <= m && AtLow(steps, k, i, cur.amounts, best)
      {
        if events[i].time >= end { break; }
        StepsAreReplays(base, events, i);
        best := LowerBy(best, cur, events[i].delta, steps, k, i);
        i := i + 1;
      }
      assert i == m;
      LowEnds(base, events, start, end, cur.amounts, best);
      best := Min(best, cur.amounts);
    }

    method RangeMax(start: TimePoint, end: int) returns (best: Amounts)
      requires Frozen()
      ensures best == FoldMax(WindowSteps(base, events, start, end))
    {
      ghost var steps, k, m := prefix, Count(events, start), LastStep(events, start, end);
      best := CapacityAt(start);
      CurveIsStep(base, events, start);
      var cur := new Capacity(best);
      var i := FirstEventIndexAfter(start);
      WalkBounds(events, start, end);
      while i < |events|
        modifies cur
        invariant i <= m && AtHigh(steps, k, i, cur.amounts, best)
      {
        if events[i].time >= end { break; }
        StepsAreReplays(base, events, i);
        best := RaiseBy(best, cur, events[i].delta, steps, k, i);
        i := i + 1;
      }
      assert i == m;
      HighEnds(base, events, start, end, cur.amounts, best);
      best := MaxCap(best, cur.amounts);
    }
  }

  // Folding the last step in once more changes nothing ...
  lemma Absorb(steps: seq<Amounts>)
    requires steps != []
    ensures Min(FoldMin(steps), steps[|steps| - 1]) == FoldMin(steps)
    ensures MaxCap(FoldMax(steps), steps[|steps| - 1]) == FoldMax(steps)
  {
    var n := |steps| - 1;
    if n > 0 {
      MinAbsorbs(FoldMin(steps[..n]), steps[n]);
      MinAbsorbs(FoldMax(steps[..n]), steps[n]);
    } else {
      MinAbsorbs(steps[0], steps[0]);
    }
  }

  lemma LowEnds(base: Amounts, events: seq<Event>, start: int, end: int, cur: Amounts, best: Amounts)
    requires Sorted(events)
    requires AtLow(Steps(base, events), Count(events, start), LastStep(events, start, end), cur, best)
    ensures Min(best, cur) == FoldMin(WindowSteps(base, events, start, end))
  {
    AbsorbLast(Steps(base, events), Count(events, start), LastStep(events, start, end));
  }

  lemma HighEnds(base: Amounts, events: seq<Event>, start: int, end: int, cur: Amounts, best: Amounts)
    requires Sorted(events)
    requires AtHigh(Steps(base, events), Count(events, start), LastStep(events, start, end), cur, best)
    ensures MaxCap(best, cur) == FoldMax(WindowSteps(base, events, start, end))
  {
    AbsorbLast(Steps(base, events), Count(events, start), LastStep(events, start, end));
  }

  lemma AbsorbLast(steps: seq<Amounts>, k: nat, m: nat)
    requires k <= m < |steps|
    ensures Min(FoldMin(steps[k..m + 1]), steps[m]) == FoldMin(steps[k..m + 1])
    ensures MaxCap(FoldMax(steps[k..m + 1]), steps[m]) == FoldMax(steps[k..m + 1])
  {
    Absorb(steps[k..m + 1]);
  }

  // ... so one turn of the walk extends the fold by one step.
  lemma WalkStep(steps: seq<Amounts>, k: nat, i: nat)
    requires k <= i < |steps| - 1
    ensures FoldMin(steps[k..i + 2]) == Min(Min(FoldMin(steps[k..i + 1]), steps[i]), steps[i + 1])
    ensures FoldMax(steps[k..i + 2]) == MaxCap(MaxCap(FoldMax(steps[k..i + 1]), steps[i]), steps[i + 1])
  {
    Absorb(steps[k..i + 1]);
    assert steps[k..i + 2][..i - k + 1] == steps[k..i + 1];
  }
}
