/** Earliest-fit search over event boundaries (include/capacity_fabric/query/earliest_fit.hpp). */
module EarliestFits {
  import opened Capacities
  import opened Timelines

  // The curve that is searched, and what is asked of it.
  datatype Query = Query(
    base: Amounts, events: seq<Event>, req: Amounts, earliest: TimePoint, duration: int, horizon: int)
  {
    ghost predicate Valid() {
      Sorted(events) && base.NonNegative()
    }

    // The last start that still ends within the horizon.
    function Latest(): int {
      horizon - duration
    }

    // What the search tests at a start: the walked minimum against the demand.
    predicate Accepts(t: int)
      requires Sorted(events)
    {
      FoldMin(WindowSteps(base, events, t, t + duration)).Satisfies(req)
    }

    // What a fit means: the demand is met at every time of the window.
    ghost predicate Fits(t: int) {
      forall u | InWindow(t, t + duration, u) :: CurveAt(base, events, u).Satisfies(req)
    }

    // Every dimension with a positive demand has an entry at t.
    ghost predicate AllPresent(t: int) {
      forall d | req.At(d) > 0.0 :: CurveAt(base, events, t).Has(d)
    }

    // Between two simultaneous events inside the window the walk passes a value
    // that no time shows, and that value is below the demand.
    ghost predicate Dips(t: int) {
      exists i | Count(events, t) < i <= LastStep(events, t, t + duration) && i <= |events| ::
        Hidden(events, i) && !Steps(base, events)[i].Satisfies(req)
    }

    // Accepted although a demanded dimension has no entry at the start.
    ghost predicate Phantom(t: int)
      requires Sorted(events)
    {
      Accepts(t) && !AllPresent(t)
    }

    // The window's walk meets d, and from there on there is always as much as is demanded.
    ghost predicate EnoughOnceThere(t: int, d: Dimension)
      requires Sorted(events)
    {
      var w := WindowSteps(base, events, t, t + duration);
      exists f: nat :: FirstHolding(w, d, f) && forall i | f <= i < |w| :: w[i].At(d) >= req.At(d)
    }

    // Simultaneous events do not change a demanded dimension in opposite directions.
    ghost predicate OneWayTies() {
      forall i, j, d | 0 <= i < |events| && 0 <= j < |events| && req.At(d) > 0.0 && events[i].time == events[j].time ::
        !(events[i].delta.At(d) < 0.0 < events[j].delta.At(d))
    }

    ghost predicate IsCandidate(t: int) {
      t == earliest || (earliest <= t <= Latest() && exists i | 0 <= i < |events| :: events[i].time == t)
    }

    // Starts run from the earliest one, which is always tried, to the latest.
    ghost predicate InRange(t: int) {
      t == earliest || earliest <= t <= Latest()
    }

    // A candidate with none before it that fits.
    ghost predicate IsReached(c: int) {
      IsCandidate(c) && forall b | IsCandidate(b) && b < c :: !Fits(b)
    }

    // The least fitting start among all times of the range.
    ghost predicate IsTrueStart(t: int) {
      InRange(t) && Fits(t) && forall u | earliest <= u < t :: !Fits(u)
    }
  }

  datatype Answer = NotFound | Found(start: int, end: int, capacityAtFit: Amounts)

  // --- The search -----------------------------------------------------------------

  // The candidate starts in increasing order, without duplicates.
  method CandidateStarts(q: Query) returns (out: seq<TimePoint>)
    ensures StrictlyIncreasing(out)
    ensures forall t: TimePoint :: t in out <==> q.IsCandidate(t)
  {
    out := [q.earliest];
    for n := 0 to |q.events|
      invariant StrictlyIncreasing(out)
      invariant forall t: TimePoint :: t in out <==>
        t == q.earliest
        || (q.earliest <= t <= q.Latest() && exists i | 0 <= i < n :: q.events[i].time == t)
    {
      var t := q.events[n].time;
      if q.earliest <= t <= q.Latest() {
        out := InsertUnique(out, t);
      }
    }
  }

  method InsertUnique(sorted: seq<TimePoint>, t: TimePoint) returns (r: seq<TimePoint>)
    requires StrictlyIncreasing(sorted)
    ensures StrictlyIncreasing(r)
    ensures forall u :: u in r <==> u in sorted || u == t
  {
    var i := |sorted|;
    while i > 0 && t <= sorted[i - 1]
      invariant 0 <= i <= |sorted|
      invariant i < |sorted| ==> t <= sorted[i]
    {
      i := i - 1;
    }
    if i < |sorted| && sorted[i] == t {
      r := sorted;
    } else {
      SplicedUnique(sorted, i, t);
      SplicedMembers(sorted, i, t);
      r := sorted[..i] + [t] + sorted[i..];
    }
  }

  ghost predicate StrictlyIncreasing(s: seq<TimePoint>) {
    forall i, j | 0 <= i < j < |s| :: s[i] < s[j]
  }

  lemma SplicedUnique(sorted: seq<TimePoint>, i: nat, t: TimePoint)
    requires StrictlyIncreasing(sorted) && i <= |sorted|
    requires (i > 0 ==> sorted[i - 1] < t) && (i < |sorted| ==> t < sorted[i])
    ensures StrictlyIncreasing(sorted[..i] + [t] + sorted[i..])
  {
  }

  lemma SplicedMembers(sorted: seq<TimePoint>, i: nat, t: TimePoint)
    requires i <= |sorted|
    ensures forall u :: u in sorted[..i] + [t] + sorted[i..] <==> u in sorted || u == t
  {
    assert sorted == sorted[..i] + sorted[i..];
  }

  // The answer the search gives: the first accepted candidate.
  ghost predicate IsSearchAnswer(q: Query, r: Answer)
    requires Sorted(q.events)
  {
    if q.duration < 0 || q.horizon <= q.earliest then r == NotFound
    else match r
      case NotFound => forall c | q.IsCandidate(c) :: !q.Accepts(c)
      case Found(t, end, cap) =>
        && q.IsCandidate(t) && q.Accepts(t)
        && end == t + q.duration
        && cap == FoldMin(WindowSteps(q.base, q.events, t, end))
        && forall c | q.IsCandidate(c) && c < t :: !q.Accepts(c)
  }

  method EarliestFit(tl: Timeline, req: Amounts, earliest: TimePoint, duration: int, horizon: int)
    returns (r: Answer)
    requires tl.Frozen()
    ensures IsSearchAnswer(Query(tl.base, tl.events, req, earliest, duration, horizon), r)
  {
    if duration < 0 || horizon <= earliest { return NotFound; }
    var q := Query(tl.base, tl.events, req, earliest, duration, horizon);
    var starts := CandidateStarts(q);
    r := ScanStarts(tl, q, starts);
  }

  // The search has tried the first n of the candidate starts, in vain.
  ghost predicate Tried(q: Query, starts: seq<TimePoint>, n: nat) {
    && Sorted(q.events) && q.duration >= 0 && q.earliest < q.horizon
    && StrictlyIncreasing(starts) && (forall t: TimePoint :: t in starts <==> q.IsCandidate(t))
    && n <= |starts| && forall i | 0 <= i < n :: !q.Accepts(starts[i])
  }

  // r is the outcome of trying the start t.
  ghost predicate IsTry(q: Query, t: int, r: Answer)
    requires Sorted(q.events)
  {
    r == if q.Accepts(t)
         then Found(t, t + q.duration, FoldMin(WindowSteps(q.base, q.events, t, t + q.duration)))
         else NotFound
  }

  method ScanStarts(tl: Timeline, q: Query, starts: seq<TimePoint>) returns (r: Answer)
    requires tl.Frozen() && tl.base == q.base && tl.events == q.events && Tried(q, starts, 0)
    ensures IsSearchAnswer(q, r)
  {
    for n := 0 to |starts|
      invariant Tried(q, starts, n)
    {
      r := TryStart(tl, q, starts[n]);
      if r.Found? {
        SearchFound(q, starts, n, r);
        return;
      }
      NextStart(q, starts, n);
    }
    SearchExhausted(q, starts);
    r := NotFound;
  }

  method TryStart(tl: Timeline, q: Query, t: TimePoint) returns (r: Answer)
    requires tl.Frozen() && tl.base == q.base && tl.events == q.events
    ensures IsTry(q, t, r)
  {
    var win := tl.RangeMin(t, t + q.duration);
    r := if win.Satisfies(q.req) then Found(t, t + q.duration, win) else NotFound;
  }

  lemma NextStart(q: Query, starts: seq<TimePoint>, n: nat)
    requires Tried(q, starts, n) && n < |starts| && IsTry(q, starts[n], NotFound)
    ensures Tried(q, starts, n + 1)
  {
  }

  lemma SearchFound(q: Query, starts: seq<TimePoint>, n: nat, r: Answer)
    requires Tried(q, starts, n) && n < |starts| && r.Found? && IsTry(q, starts[n], r)
    ensures IsSearchAnswer(q, r)
  {
    assert starts[n] in starts;
    NoneBefore(q, starts, n);
  }

  lemma SearchExhausted(q: Query, starts: seq<TimePoint>)
    requires Tried(q, starts, |starts|)
    ensures IsSearchAnswer(q, NotFound)
  {
    NoneBefore(q, starts, |starts|);
  }

  lemma NoneBefore(q: Query, starts: seq<TimePoint>, n: nat)
    requires Tried(q, starts, n)
    ensures forall c | q.IsCandidate(c) && (n < |starts| ==> c < starts[n]) :: !q.Accepts(c)
  {
    forall c | q.IsCandidate(c) && (n < |starts| ==> c < starts[n]) ensures !q.Accepts(c) {
      assert (c as TimePoint) in starts;
      var i :| 0 <= i < |starts| && starts[i] == c;
      assert i < n;
    }
  }

  // The answer of the grid search: the first accepted sample.
  ghost predicate IsGridAnswer(q: Query, step: int, r: Answer)
    requires Sorted(q.events)
  {
    if q.duration < 0 || q.horizon <= q.earliest || step <= 0 then r == NotFound
    else match r
      case NotFound => forall k: nat | Sample(q, step, k) <= q.Latest() :: !q.Accepts(Sample(q, step, k))
      case Found(t, end, cap) =>
        && (exists k: nat :: t == Sample(q, step, k) && NoneBelow(q, step, k))
        && t <= q.Latest() && q.Accepts(t)
        && end == t + q.duration
        && cap == FoldMin(WindowSteps(q.base, q.events, t, end))
  }

  // The k-th point of the grid.
  function Sample(q: Query, step: int, k: nat): int {
    if k == 0 then q.earliest else Sample(q, step, k - 1) + step
  }

  ghost predicate NoneBelow(q: Query, step: int, k: nat)
    requires Sorted(q.events)
  {
    forall j: nat | j < k :: !q.Accepts(Sample(q, step, j))
  }

  lemma {:induction false} SampleOrder(q: Query, step: int, k: nat, j: nat)
    requires step > 0 && k <= j
    ensures Sample(q, step, k) <= Sample(q, step, j)
    ensures step == 1 ==> Sample(q, step, j) == Sample(q, step, k) + j - k
  {
    if k < j { SampleOrder(q, step, k, j - 1); }
  }

  method SlowReferenceEarliestFit(tl: Timeline, req: Amounts, earliest: TimePoint, duration: int,
                                  horizon: int, step: int) returns (r: Answer)
    requires tl.Frozen()
    ensures IsGridAnswer(Query(tl.base, tl.events, req, earliest, duration, horizon), step, r)
  {
    if duration < 0 || horizon <= earliest || step <= 0 { return NotFound; }
    r := GridSearch(tl, Query(tl.base, tl.events, req, earliest, duration, horizon), step);
  }

  method GridSearch(tl: Timeline, q: Query, step: int) returns (r: Answer)
    requires tl.Frozen() && tl.base == q.base && tl.events == q.events && AtSample(q, step, 0)
    ensures IsGridAnswer(q, step, r)
  {
    var t: TimePoint := q.earliest;
    ghost var k: nat := 0;
    while t + q.duration <= q.horizon
      invariant t == Sample(q, step, k) && AtSample(q, step, k)
      decreases q.horizon - t
    {
      r := TrySample(tl, q, t);
      if r.Found? {
        GridFound(q, step, k, r);
        return;
      }
      NextSample(q, step, k);
      t, k := t + step, k + 1;
    }
    GridExhausted(q, step, k);
    r := NotFound;
  }

  method TrySample(tl: Timeline, q: Query, t: TimePoint) returns (r: Answer)
    requires tl.Frozen() && tl.base == q.base && tl.events == q.events
    ensures IsTry(q, t, r)
  {
    var best := FullWalk(tl, t, t + q.duration);
    r := if best.Satisfies(q.req) then Found(t, t + q.duration, best) else NotFound;
  }

  // The grid search at its k-th point.
  ghost predicate AtSample(q: Query, step: int, k: nat) {
    && Sorted(q.events) && q.duration >= 0 && q.earliest < q.horizon && step > 0
    && NoneBelow(q, step, k)
  }

  lemma NextSample(q: Query, step: int, k: nat)
    requires AtSample(q, step, k) && IsTry(q, Sample(q, step, k), NotFound)
    ensures AtSample(q, step, k + 1) && Sample(q, step, k + 1) == Sample(q, step, k) + step
  {
  }

  lemma GridFound(q: Query, step: int, k: nat, r: Answer)
    requires AtSample(q, step, k) && Sample(q, step, k) <= q.Latest()
    requires r.Found? && IsTry(q, Sample(q, step, k), r)
    ensures IsGridAnswer(q, step, r)
  {
  }

  lemma GridExhausted(q: Query, step: int, k: nat)
    requires AtSample(q, step, k) && Sample(q, step, k) > q.Latest()
    ensures IsGridAnswer(q, step, NotFound)
  {
    forall j: nat | Sample(q, step, j) <= q.Latest() ensures !q.Accepts(Sample(q, step, j)) {
      if j >= k { SampleOrder(q, step, k, j); }
    }
  }

  // The reference's walk over every event, skipping those up to t.
  method FullWalk(tl: Timeline, t: TimePoint, end: int) returns (best: Amounts)
    requires tl.Frozen()
    ensures best == FoldMin(WindowSteps(tl.base, tl.events, t, end))
  {
    best := tl.CapacityAt(t);
    CurveIsStep(tl.base, tl.events, t);
    WalkStarts(tl.prefix, tl.events, t, end, best);
    best := WalkFrom(tl.base, tl.events, t, end, best);
  }

  method WalkFrom(base: Amounts, events: seq<Event>, t: int, end: int, start: Amounts) returns (best: Amounts)
    requires AtEvent(Steps(base, events), events, t, end, 0, start, start)
    ensures best == FoldMin(WindowSteps(base, events, t, end))
  {
    ghost var steps := Steps(base, events);
    best := start;
    var cur := new Capacity(start);
    var i := 0;
    while i < |events|
      modifies cur
      invariant AtEvent(steps, events, t, end, i, cur.amounts, best)
    {
      if events[i].time <= t {
        WalkSkips(steps, events, t, end, i, cur.amounts, best);
      } else {
        if events[i].time >= end { break; }
        WalkTakes(steps, events, t, end, i, cur.amounts, best);
        StepsAreReplays(base, events, i);
        best := LowerBy(best, cur, events[i].delta, steps, Count(events, t), i);
        WalkTook(steps, events, t, end, i, cur.amounts, best);
      }
      i := i + 1;
    }
    WalkEnds(steps, events, t, end, i, cur.amounts, best);
    LowEnds(base, events, t, end, cur.amounts, best);
    best := Min(best, cur.amounts);
  }

  // The walk has looked at the first i events and taken those after t.
  ghost predicate AtEvent(steps: seq<Amounts>, events: seq<Event>, t: int, end: int, i: nat,
                          cur: Amounts, best: Amounts) {
    var (k, m) := (Count(events, t), LastStep(events, t, end));
    var taken := if i < k then k else i;
    Sorted(events) && |steps| == |events| + 1 && i <= |events| && taken <= m && AtLow(steps, k, taken, cur, best)
  }

  lemma WalkStarts(steps: seq<Amounts>, events: seq<Event>, t: int, end: int, best: Amounts)
    requires Sorted(events) && |steps| == |events| + 1
    requires Count(events, t) <= |events| && best == steps[Count(events, t)]
    ensures AtEvent(steps, events, t, end, 0, best, best)
  {
    WalkBounds(events, t, end);
  }

  lemma WalkSkips(steps: seq<Amounts>, events: seq<Event>, t: int, end: int, i: nat, cur: Amounts, best: Amounts)
    requires AtEvent(steps, events, t, end, i, cur, best) && i < |events| && events[i].time <= t
    ensures AtEvent(steps, events, t, end, i + 1, cur, best)
  {
    UpToIsPrefix(events, t);
  }

  lemma WalkTakes(steps: seq<Amounts>, events: seq<Event>, t: int, end: int, i: nat, cur: Amounts, best: Amounts)
    requires AtEvent(steps, events, t, end, i, cur, best) && i < |events| && t < events[i].time < end
    ensures AtLow(steps, Count(events, t), i, cur, best) && i < LastStep(events, t, end)
  {
    UpToIsPrefix(events, t);
    WalkBounds(events, t, end);
  }

  lemma WalkTook(steps: seq<Amounts>, events: seq<Event>, t: int, end: int, i: nat, cur: Amounts, best: Amounts)
    requires Sorted(events) && |steps| == |events| + 1 && i < |events| && i < LastStep(events, t, end)
    requires AtLow(steps, Count(events, t), i + 1, cur, best) && Count(events, t) <= i
    ensures AtEvent(steps, events, t, end, i + 1, cur, best)
  {
  }

  lemma WalkEnds(steps: seq<Amounts>, events: seq<Event>, t: int, end: int, i: nat, cur: Amounts, best: Amounts)
    requires AtEvent(steps, events, t, end, i, cur, best)
    requires i < |events| ==> t < events[i].time && end <= events[i].time
    ensures AtLow(steps, Count(events, t), LastStep(events, t, end), cur, best)
  {
    UpToIsPrefix(events, t);
    WalkBounds(events, t, end);
  }

  // --- Accepting a start against fitting there ---------------------------------------

  // A fold accepts when every step does ...
  lemma StepsFitSoFoldDoes(steps: seq<Amounts>, req: Amounts)
    requires steps != [] && forall i | 0 <= i < |steps| :: steps[i].NonNegative() && steps[i].Satisfies(req)
    ensures FoldMin(steps).Satisfies(req)
  {
    forall d | req.Has(d) ensures FoldMin(steps).At(d) >= req.At(d) {
      FoldMinMeaning(steps, d);
      assert steps[0].At(d) >= req.At(d);
    }
  }

  // ... and only then, for the demanded dimensions present at its first step.
  lemma FoldFitsSoStepsDo(steps: seq<Amounts>, req: Amounts)
    requires steps != [] && forall i | 0 <= i < |steps| :: steps[i].NonNegative()
    requires FoldMin(steps).Satisfies(req)
    requires forall d | req.At(d) > 0.0 :: steps[0].Has(d)
    ensures forall i | 0 <= i < |steps| :: steps[i].Satisfies(req)
  {
    forall i | 0 <= i < |steps| ensures steps[i].Satisfies(req) {
      forall d | d in req.entries ensures steps[i].At(d) >= req.entries[d] {
        assert req.At(d) == req.entries[d] && FoldMin(steps).At(d) >= req.entries[d];
        FoldMinMeaning(steps, d);
      }
    }
  }

  lemma WindowFacts(q: Query, t: int)
    requires q.Valid()
    ensures Count(q.events, t) <= LastStep(q.events, t, t + q.duration) <= |q.events|
    ensures var w := WindowSteps(q.base, q.events, t, t + q.duration);
            && w[0] == CurveAt(q.base, q.events, t)
            && |w| == LastStep(q.events, t, t + q.duration) - Count(q.events, t) + 1
            && (forall i | 0 <= i < |w| :: w[i] == Steps(q.base, q.events)[Count(q.events, t) + i]
                                           && w[i].NonNegative())
  {
    WalkBounds(q.events, t, t + q.duration);
    CurveIsStep(q.base, q.events, t);
    StepsNonNegative(q.base, q.events);
  }

  // All the steps of a window meet the demand ...
  ghost predicate StepsFit(q: Query, t: int)
    requires Sorted(q.events)
  {
    forall s | s in WindowSteps(q.base, q.events, t, t + q.duration) :: s.Satisfies(q.req)
  }

  // ... exactly when the window fits and no hidden step dips below the demand.
  lemma StepsFitIff(q: Query, t: int)
    requires q.Valid()
    ensures StepsFit(q, t) <==> q.Fits(t) && !q.Dips(t)
  {
    if StepsFit(q, t) {
      StepsFitSoWindowDoes(q, t);
    } else if q.Fits(t) {
      WindowFitsSoStepsDip(q, t);
    }
  }

  lemma StepsFitSoWindowDoes(q: Query, t: int)
    requires q.Valid() && StepsFit(q, t)
    ensures q.Fits(t) && !q.Dips(t)
  {
    var w, k := WindowSteps(q.base, q.events, t, t + q.duration), Count(q.events, t);
    WindowFacts(q, t);
    forall u | InWindow(t, t + q.duration, u) ensures CurveAt(q.base, q.events, u).Satisfies(q.req) {
      WindowShowsSteps(q.events, t, t + q.duration, u);
      CurveIsStep(q.base, q.events, u);
      assert w[Count(q.events, u) - k] in w;
    }
    forall i | k < i <= LastStep(q.events, t, t + q.duration)
      ensures Steps(q.base, q.events)[i].Satisfies(q.req)
    {
      assert w[i - k] in w;
    }
  }

  lemma WindowFitsSoStepsDip(q: Query, t: int)
    requires q.Valid() && !StepsFit(q, t) && q.Fits(t)
    ensures q.Dips(t)
  {
    var i := UnfitStep(q, t);
    if i == Count(q.events, t) || !Hidden(q.events, i) {
      ShownStepFits(q, t, i);
    }
  }

  lemma UnfitStep(q: Query, t: int) returns (i: nat)
    requires q.Valid() && !StepsFit(q, t)
    ensures Count(q.events, t) <= i <= LastStep(q.events, t, t + q.duration) && i <= |q.events|
    ensures !Steps(q.base, q.events)[i].Satisfies(q.req)
  {
    WalkBounds(q.events, t, t + q.duration);
    i := UnfitAmong(Steps(q.base, q.events), Count(q.events, t), LastStep(q.events, t, t + q.duration), q.req);
  }

  lemma UnfitAmong(steps: seq<Amounts>, k: nat, m: nat, req: Amounts) returns (i: nat)
    requires k <= m < |steps| && !forall s | s in steps[k..m + 1] :: s.Satisfies(req)
    ensures k <= i <= m && !steps[i].Satisfies(req)
  {
    var s :| s in steps[k..m + 1] && !s.Satisfies(req);
    i :| k <= i <= m && steps[i] == s;
  }

  lemma ShownStepFits(q: Query, t: int, i: nat)
    requires q.Valid() && q.Fits(t)
    requires Count(q.events, t) <= i <= LastStep(q.events, t, t + q.duration) && i <= |q.events|
    requires !Hidden(q.events, i) || i == Count(q.events, t)
    ensures Steps(q.base, q.events)[i].Satisfies(q.req)
  {
    var u := StepIsShown(q.events, t, t + q.duration, i);
    CurveIsStep(q.base, q.events, u);
  }

  // An accepted start fits exactly when every demanded dimension is present there.
  lemma AcceptedFitsIff(q: Query, t: int)
    requires q.Valid() && q.Accepts(t)
    ensures q.Fits(t) <==> q.AllPresent(t)
    ensures q.AllPresent(t) ==> !q.Dips(t)
  {
    if q.AllPresent(t) {
      assert StepsFit(q, t) by {
        WindowFacts(q, t);
        FoldFitsSoStepsDo(WindowSteps(q.base, q.events, t, t + q.duration), q.req);
      }
      StepsFitIff(q, t);
    } else if q.Fits(t) {
      FitsSoPresent(q, t);
    }
  }

  lemma FitsSoPresent(q: Query, t: int)
    requires q.Fits(t)
    ensures q.AllPresent(t)
  {
    assert InWindow(t, t + q.duration, t);
  }

  // A fitting start is accepted exactly when no hidden step dips below the demand.
  lemma FittingAcceptedIff(q: Query, t: int)
    requires q.Valid() && q.Fits(t)
    ensures q.Accepts(t) <==> !q.Dips(t)
  {
    if q.Accepts(t) {
      FitsSoPresent(q, t);
      AcceptedFitsIff(q, t);
    } else if !q.Dips(t) {
      StepsFitIff(q, t);
      WindowFacts(q, t);
      StepsFitSoFoldDoes(WindowSteps(q.base, q.events, t, t + q.duration), q.req);
    }
  }

  // --- The least fitting start is at the earliest start or an event boundary -----------

  // Away from the boundaries, fitting moves one tick earlier.
  lemma FitsEarlier(q: Query, t: int)
    requires q.Valid() && q.Fits(t) && q.duration >= 0
    requires forall i | 0 <= i < |q.events| :: q.events[i].time != t
    ensures q.Fits(t - 1)
  {
    SameBeforeGap(q.events, t);
    assert InWindow(t, t + q.duration, t);
    forall u | InWindow(t - 1, t - 1 + q.duration, u)
      ensures CurveAt(q.base, q.events, u).Satisfies(q.req)
    {
      if u == t - 1 {
        assert CurveAt(q.base, q.events, u) == CurveAt(q.base, q.events, t);
      } else {
        assert InWindow(t, t + q.duration, u);
      }
    }
  }

  lemma {:induction false} SameBeforeGap(events: seq<Event>, t: int)
    requires forall i | 0 <= i < |events| :: events[i].time != t
    ensures UpTo(events, t - 1) == UpTo(events, t)
  {
    if events != [] {
      SameBeforeGap(events[..|events| - 1], t);
      assert events[|events| - 1].time != t;
    }
  }

  lemma TrueStartIsCandidate(q: Query, t: int)
    requires q.Valid() && q.duration >= 0 && q.IsTrueStart(t)
    ensures q.IsCandidate(t)
  {
    if !q.IsCandidate(t) {
      FitsEarlier(q, t);
    }
  }

  lemma LeastFit(q: Query, u: int) returns (t: int)
    requires q.InRange(u) && q.Fits(u)
    ensures q.IsTrueStart(t) && t <= u
    decreases u - q.earliest
  {
    if w :| q.earliest <= w < u && q.Fits(w) {
      t := LeastFit(q, w);
    } else {
      t := u;
    }
  }

  // --- Main results -------------------------------------------------------------------

  // r is the least fitting start among all times, or says truly that there is none.
  ghost predicate Exact(q: Query, r: Answer) {
    match r
    case NotFound => forall t | q.InRange(t) :: !q.Fits(t)
    case Found(t, _, _) => q.IsTrueStart(t)
  }

  // The search is exact if and only if it judges every candidate rightly up to the first
  // that fits: none is a phantom, and the first that fits has no hidden dip.
  lemma SearchExactIff(q: Query, r: Answer)
    requires q.Valid() && q.duration >= 0 && q.earliest < q.horizon && IsSearchAnswer(q, r)
    ensures Exact(q, r) <==> forall c | q.IsReached(c) :: !q.Phantom(c) && !(q.Fits(c) && q.Dips(c))
  {
    if Exact(q, r) {
      forall c | q.IsReached(c) ensures !q.Phantom(c) && !(q.Fits(c) && q.Dips(c)) {
        ExactJudges(q, r, c);
      }
    } else {
      var c := Misjudged(q, r);
      assert q.IsReached(c);
    }
  }

  lemma ExactJudges(q: Query, r: Answer, c: int)
    requires q.Valid() && q.duration >= 0 && q.earliest < q.horizon && IsSearchAnswer(q, r)
    requires Exact(q, r) && q.IsReached(c)
    ensures !q.Phantom(c) && !(q.Fits(c) && q.Dips(c))
  {
    if q.Accepts(c) {
      assert r.Found? && r.start <= c;
      AcceptedFitsIff(q, c);
    }
    if q.Fits(c) {
      assert r.Found? && r.start <= c;
      FittingAcceptedIff(q, c);
    }
  }

  // The first candidate that is accepted or fits, when the answer is wrong.
  lemma Misjudged(q: Query, r: Answer) returns (c: int)
    requires q.Valid() && q.duration >= 0 && q.earliest < q.horizon && IsSearchAnswer(q, r)
    requires !Exact(q, r)
    ensures q.IsReached(c) && (q.Phantom(c) || (q.Fits(c) && q.Dips(c)))
  {
    if t :| q.IsTrueStart(t) {
      TrueStartIsCandidate(q, t);
      if r.Found? && r.start < t {
        c := r.start;
        AcceptedFitsIff(q, c);
      } else {
        c := t;
        FittingAcceptedIff(q, c);
      }
    } else {
      NoTrueStart(q);
      c := r.start;
      AcceptedFitsIff(q, c);
    }
  }

  lemma NoTrueStart(q: Query)
    requires forall t :: !q.IsTrueStart(t)
    ensures forall u | q.InRange(u) :: !q.Fits(u)
  {
    forall u | q.InRange(u) ensures !q.Fits(u) {
      if q.Fits(u) {
        var t := LeastFit(q, u);
      }
    }
  }

  // Where every demanded dimension is present at every candidate, all that can go wrong
  // is a hidden dip in the true start's window ...
  lemma PresentSearchExactIff(q: Query, r: Answer)
    requires q.Valid() && q.duration >= 0 && q.earliest < q.horizon && IsSearchAnswer(q, r)
    requires forall c | q.IsCandidate(c) :: q.AllPresent(c)
    ensures Exact(q, r) <==> forall t | q.IsTrueStart(t) :: !q.Dips(t)
  {
    SearchExactIff(q, r);
    forall t | q.IsTrueStart(t) ensures q.IsReached(t) {
      TrueStartIsCandidate(q, t);
    }
    forall c | q.IsReached(c) && q.Fits(c) ensures q.IsTrueStart(c) {
      var t := LeastFit(q, c);
      TrueStartIsCandidate(q, t);
    }
  }

  // ... and nothing can, unless simultaneous events pull a demanded dimension both ways.
  lemma SearchExact(q: Query, r: Answer)
    requires q.Valid() && q.duration >= 0 && q.earliest < q.horizon && IsSearchAnswer(q, r)
    requires forall c | q.IsCandidate(c) :: q.AllPresent(c)
    requires q.OneWayTies()
    ensures Exact(q, r)
  {
    forall t | q.IsTrueStart(t) ensures !q.Dips(t) {
      OneWayTiesNeverDip(q, t);
    }
    PresentSearchExactIff(q, r);
  }

  // What the search tests, told from the values the walk passes: every demanded dimension
  // turns up in the window, and from then on there is always enough of it.
  lemma AcceptsIff(q: Query, t: int)
    requires q.Valid()
    ensures q.Accepts(t) <==> forall d | q.req.At(d) > 0.0 :: q.EnoughOnceThere(t, d)
  {
    var w := WindowSteps(q.base, q.events, t, t + q.duration);
    WindowFacts(q, t);
    forall d | d in q.req.entries
      ensures FoldMin(w).At(d) >= q.req.entries[d] <==> (q.req.At(d) > 0.0 ==> q.EnoughOnceThere(t, d))
    {
      EnoughIff(w, d, q.req.entries[d]);
    }
    if !q.Accepts(t) {
      var d :| d in q.req.entries && FoldMin(w).At(d) < q.req.entries[d];
      assert q.req.At(d) > 0.0;
    }
  }

  lemma EnoughIff(w: seq<Amounts>, d: Dimension, need: real)
    requires w != [] && forall i | 0 <= i < |w| :: w[i].NonNegative()
    ensures FoldMin(w).At(d) >= 0.0
    ensures need > 0.0 ==>
              (FoldMin(w).At(d) >= need
               <==> exists f: nat :: FirstHolding(w, d, f) && forall i | f <= i < |w| :: w[i].At(d) >= need)
  {
    FoldMinMeaning(w, d);
    if FoldMin(w).Has(d) {
      var f: nat :| FirstHolding(w, d, f) && IsLeast(w, f, d, FoldMin(w).At(d));
      assert forall g: nat | FirstHolding(w, d, g) :: g == f;
    }
  }

  // Never later than the true start, unless a hidden step dips there.
  lemma NeverLater(q: Query, r: Answer, t: int)
    requires q.Valid() && q.duration >= 0 && q.earliest < q.horizon && IsSearchAnswer(q, r)
    requires q.IsTrueStart(t) && !q.Dips(t)
    ensures r.Found? && r.start <= t
  {
    TrueStartIsCandidate(q, t);
    FittingAcceptedIff(q, t);
  }

  // A found start at which every demanded dimension is present really fits,
  // whatever the order of simultaneous events.
  lemma FoundFitsIff(q: Query, r: Answer)
    requires q.Valid() && IsSearchAnswer(q, r) && r.Found?
    ensures q.Fits(r.start) <==> q.AllPresent(r.start)
    ensures r.end <= q.horizon <==> q.earliest + q.duration <= q.horizon
  {
    AcceptedFitsIff(q, r.start);
  }

  // With distinct event times nothing is hidden, so the search is never late.
  lemma DistinctTimesNeverDip(q: Query, t: int)
    requires forall i, j | 0 <= i < j < |q.events| :: q.events[i].time != q.events[j].time
    ensures !q.Dips(t)
  {
  }

  // --- One-way ties ---------------------------------------------------------------------

  // Between simultaneous events that all raise d, a value is no lower than the one before.
  lemma {:induction false} RisingTieFits(q: Query, t: int, i: nat, d: Dimension, tie: int)
    requires q.Valid() && q.Fits(t) && q.req.At(d) > 0.0
    requires Count(q.events, t) <= i <= LastStep(q.events, t, t + q.duration) && i <= |q.events|
    requires Hidden(q.events, i) ==> q.events[i].time == tie
    requires forall j | 0 <= j < |q.events| && q.events[j].time == tie :: q.events[j].delta.At(d) >= 0.0
    ensures Steps(q.base, q.events)[i].At(d) >= q.req.At(d)
    decreases i
  {
    if i == Count(q.events, t) || !Hidden(q.events, i) {
      ShownStepFits(q, t, i);
    } else {
      RisingTieFits(q, t, i - 1, d, tie);
      StepAt(q, i - 1, d);
    }
  }

  // Between simultaneous events that all lower d, a value is no lower than the one after.
  lemma {:induction false} FallingTieFits(q: Query, t: int, i: nat, d: Dimension, tie: int)
    requires q.Valid() && q.Fits(t) && q.req.At(d) > 0.0
    requires Count(q.events, t) <= i <= LastStep(q.events, t, t + q.duration) && i <= |q.events|
    requires Hidden(q.events, i) ==> q.events[i].time == tie
    requires forall j | 0 <= j < |q.events| && q.events[j].time == tie :: q.events[j].delta.At(d) <= 0.0
    ensures Steps(q.base, q.events)[i].At(d) >= q.req.At(d)
    decreases |q.events| - i
  {
    if i == Count(q.events, t) || !Hidden(q.events, i) {
      ShownStepFits(q, t, i);
    } else {
      WalkBounds(q.events, t, t + q.duration);
      assert q.events[i - 1].time < t + q.duration;
      FallingTieFits(q, t, i + 1, d, tie);
      StepAt(q, i, d);
    }
  }

  lemma StepAt(q: Query, i: nat, d: Dimension)
    requires q.Valid() && i < |q.events|
    ensures Steps(q.base, q.events)[i].At(d) >= 0.0
    ensures Steps(q.base, q.events)[i + 1].At(d) == Max0(Steps(q.base, q.events)[i].At(d) + q.events[i].delta.At(d))
  {
    StepsAreReplays(q.base, q.events, i);
    ReplayNonNegative(q.base, q.events[..i]);
    ApplyDeltaAt(Steps(q.base, q.events)[i], q.events[i].delta, d);
  }

  // Ties that pull one way hide nothing below what the window shows.
  lemma OneWayTiesNeverDip(q: Query, t: int)
    requires q.Valid() && q.Fits(t) && q.OneWayTies()
    ensures !q.Dips(t)
  {
    forall i | Count(q.events, t) < i <= LastStep(q.events, t, t + q.duration) && i <= |q.events|
               && Hidden(q.events, i)
      ensures Steps(q.base, q.events)[i].Satisfies(q.req)
    {
      StepsNonNegative(q.base, q.events);
      forall d | d in q.req.entries ensures Steps(q.base, q.events)[i].At(d) >= q.req.entries[d] {
        if q.req.At(d) > 0.0 { TiedStepFits(q, t, i, d); }
      }
    }
  }

  lemma TiedStepFits(q: Query, t: int, i: nat, d: Dimension)
    requires q.Valid() && q.Fits(t) && q.OneWayTies() && q.req.At(d) > 0.0
    requires Count(q.events, t) <= i <= LastStep(q.events, t, t + q.duration) && i <= |q.events|
    requires Hidden(q.events, i)
    ensures Steps(q.base, q.events)[i].At(d) >= q.req.At(d)
  {
    var tie := q.events[i].time;
    if j :| 0 <= j < |q.events| && q.events[j].time == tie && q.events[j].delta.At(d) < 0.0 {
      FallingTieFits(q, t, i, d, tie);
    } else {
      RisingTieFits(q, t, i, d, tie);
    }
  }

  // --- The step-1 reference ------------------------------------------------------------------

  // No start off the boundaries is a phantom unless a candidate before it is accepted.
  ghost predicate NoLonePhantom(q: Query)
    requires Sorted(q.events)
  {
    forall t | q.earliest <= t <= q.Latest() && q.Phantom(t) && !q.IsCandidate(t) ::
      exists c :: q.IsCandidate(c) && c < t && q.Accepts(c)
  }

  // Sampling every tick agrees with the boundary search if and only if no phantom off the
  // boundaries comes before every accepted candidate and, when not even the first window
  // is within the horizon, that window is not accepted.
  lemma GridAgreesIff(q: Query, fast: Answer, slow: Answer)
    requires q.Valid() && q.duration >= 0 && q.earliest < q.horizon
    requires IsSearchAnswer(q, fast) && IsGridAnswer(q, 1, slow)
    ensures fast == slow <==> NoLonePhantom(q) && (q.earliest <= q.Latest() || !q.Accepts(q.earliest))
  {
    GridInRange(q, slow);
    if q.earliest <= q.Latest() {
      GridAnswersCandidate(q, fast, slow);
      PhantomLeadsIff(q, slow);
    } else {
      assert slow.NotFound?;
      assert forall c | q.IsCandidate(c) :: c == q.earliest;
      assert q.IsCandidate(q.earliest);
    }
  }

  // The two answers are the same exactly when the reference's is at a boundary.
  lemma GridAnswersCandidate(q: Query, fast: Answer, slow: Answer)
    requires q.Valid() && q.duration >= 0 && q.earliest < q.horizon && q.earliest <= q.Latest()
    requires IsSearchAnswer(q, fast) && IsGridAnswer(q, 1, slow)
    ensures fast == slow <==> slow.NotFound? || q.IsCandidate(slow.start)
  {
    GridInRange(q, slow);
    forall c | q.IsCandidate(c) && q.Accepts(c) ensures slow.Found? && slow.start <= c {
      GridReaches(q, slow, c);
    }
  }

  lemma PhantomLeadsIff(q: Query, slow: Answer)
    requires q.Valid() && q.duration >= 0 && q.earliest < q.horizon && q.earliest <= q.Latest()
    requires IsGridAnswer(q, 1, slow)
    ensures NoLonePhantom(q) <==> slow.NotFound? || q.IsCandidate(slow.start)
  {
    GridInRange(q, slow);
    if slow.NotFound? || q.IsCandidate(slow.start) {
      forall t | q.earliest <= t <= q.Latest() && q.Phantom(t) && !q.IsCandidate(t)
        ensures exists c :: q.IsCandidate(c) && c < t && q.Accepts(c)
      {
        GridReaches(q, slow, t);
        assert q.IsCandidate(slow.start) && slow.start < t && q.Accepts(slow.start);
      }
    } else {
      GridStartIsPhantom(q, slow);
      forall c | q.IsCandidate(c) && c < slow.start ensures !q.Accepts(c) {
        if q.Accepts(c) { GridReaches(q, slow, c); }
      }
    }
  }

  lemma GridStartIsPhantom(q: Query, slow: Answer)
    requires q.Valid() && q.duration >= 0 && q.earliest < q.horizon && IsGridAnswer(q, 1, slow)
    requires slow.Found? && !q.IsCandidate(slow.start)
    ensures q.earliest <= slow.start <= q.Latest() && q.Phantom(slow.start)
  {
    GridInRange(q, slow);
    if q.AllPresent(slow.start) {
      AcceptsEarlier(q, slow.start);
      GridReaches(q, slow, slow.start - 1);
    }
  }

  // In particular they agree when the demanded dimensions are there throughout.
  lemma GridAgrees(q: Query, fast: Answer, slow: Answer)
    requires q.Valid() && q.earliest + q.duration <= q.horizon
    requires IsSearchAnswer(q, fast) && IsGridAnswer(q, 1, slow)
    requires forall t | q.earliest <= t <= q.Latest() :: q.AllPresent(t)
    ensures fast == slow
  {
    if q.duration >= 0 && q.earliest < q.horizon {
      GridAgreesIff(q, fast, slow);
    }
  }

  lemma GridInRange(q: Query, slow: Answer)
    requires q.Valid() && q.duration >= 0 && q.earliest < q.horizon && IsGridAnswer(q, 1, slow)
    ensures slow.Found? ==> q.earliest <= slow.start <= q.Latest()
  {
    if slow.Found? {
      var k: nat :| slow.start == Sample(q, 1, k) && NoneBelow(q, 1, k);
      SampleOrder(q, 1, 0, k);
    }
  }

  lemma GridReaches(q: Query, slow: Answer, c: int)
    requires q.Valid() && q.duration >= 0 && q.earliest < q.horizon
    requires q.earliest <= c <= q.Latest() && q.Accepts(c) && IsGridAnswer(q, 1, slow)
    ensures slow.Found? && slow.start <= c
  {
    SampleOrder(q, 1, 0, c - q.earliest);
    if slow.Found? {
      var k: nat :| slow.start == Sample(q, 1, k) && NoneBelow(q, 1, k);
      SampleOrder(q, 1, 0, k);
    }
  }

  lemma AcceptsEarlier(q: Query, t: int)
    requires q.Valid() && q.duration >= 0 && q.Accepts(t) && q.AllPresent(t)
    requires forall i | 0 <= i < |q.events| :: q.events[i].time != t
    ensures q.Accepts(t - 1)
  {
    var w, v := WindowSteps(q.base, q.events, t, t + q.duration),
                WindowSteps(q.base, q.events, t - 1, t - 1 + q.duration);
    EarlierWindow(q, t);
    assert forall i | 0 <= i < |w| :: w[i].NonNegative() && (i == 0 ==> w[i] == CurveAt(q.base, q.events, t)) by {
      WindowFacts(q, t);
    }
    FoldFitsSoStepsDo(w, q.req);
    StepsFitSoFoldDoes(v, q.req);
  }

  // One tick earlier, off the boundaries, the walk stops no later.
  lemma EarlierWindow(q: Query, t: int)
    requires q.Valid() && q.duration >= 0
    requires forall i | 0 <= i < |q.events| :: q.events[i].time != t
    ensures WindowSteps(q.base, q.events, t - 1, t - 1 + q.duration)
            <= WindowSteps(q.base, q.events, t, t + q.duration)
  {
    SameBeforeGap(q.events, t);
    WalkBounds(q.events, t, t + q.duration);
    WalkBounds(q.events, t - 1, t - 1 + q.duration);
    if q.duration > 0 { CountMonotone(q.events, t + q.duration - 2, t + q.duration - 1); }
  }
}
