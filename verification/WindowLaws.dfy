/** What rangeMin and rangeMax say about the times of a window: laws of the walk. */
module WindowLaws {
  import opened Capacities
  import opened Timelines

  // A window of the curve, seen in one dimension.
  datatype Window = Window(base: Amounts, events: seq<Event>, start: int, end: int, d: Dimension) {
    ghost predicate Valid() {
      Sorted(events) && base.NonNegative()
    }

    function Level(u: int): real {
      CurveAt(base, events, u).At(d)
    }

    function Lowest(): real
      requires Sorted(events)
    {
      FoldMin(WindowSteps(base, events, start, end)).At(d)
    }

    function Highest(): real
      requires Sorted(events)
    {
      FoldMax(WindowSteps(base, events, start, end)).At(d)
    }

    // Step i is passed between two simultaneous events inside the window.
    ghost predicate PassesHidden(i: nat) {
      Count(events, start) < i <= LastStep(events, start, end) && i <= |events| && Hidden(events, i)
    }

    function Step(i: nat): real
      requires i <= |events|
    {
      Steps(base, events)[i].At(d)
    }
  }

  lemma StepsOfWindow(w: Window)
    requires w.Valid()
    ensures forall i | 0 <= i < |WindowSteps(w.base, w.events, w.start, w.end)| ::
              WindowSteps(w.base, w.events, w.start, w.end)[i].NonNegative()
    ensures WindowSteps(w.base, w.events, w.start, w.end)[0] == CurveAt(w.base, w.events, w.start)
  {
    WalkBounds(w.events, w.start, w.end);
    CurveIsStep(w.base, w.events, w.start);
    StepsNonNegative(w.base, w.events);
  }

  // The walk bounds every time of the window: from below where the dimension is
  // present at the start, from above always.
  lemma WalkBoundsTimes(w: Window, u: int)
    requires w.Valid() && InWindow(w.start, w.end, u)
    ensures CurveAt(w.base, w.events, w.start).Has(w.d) ==> w.Lowest() <= w.Level(u)
    ensures w.Level(u) <= w.Highest()
  {
    var steps := WindowSteps(w.base, w.events, w.start, w.end);
    StepsOfWindow(w);
    WindowShowsSteps(w.events, w.start, w.end, u);
    CurveIsStep(w.base, w.events, u);
    StepPassed(w, Count(w.events, u));
    FoldMinMeaning(steps, w.d);
    FoldMaxMeaning(steps, w.d);
  }

  // Step i is one the walk passes.
  ghost predicate Passes(w: Window, i: nat) {
    Count(w.events, w.start) <= i <= LastStep(w.events, w.start, w.end) && i <= |w.events|
  }

  // The steps passed are the elements of the fold.
  lemma PassedStep(w: Window, j: nat)
    requires w.Valid() && j < |WindowSteps(w.base, w.events, w.start, w.end)|
    ensures var i := Count(w.events, w.start) + j;
            Passes(w, i) && WindowSteps(w.base, w.events, w.start, w.end)[j].At(w.d) == w.Step(i)
  {
    WalkBounds(w.events, w.start, w.end);
  }

  lemma StepPassed(w: Window, i: nat)
    requires w.Valid() && Passes(w, i)
    ensures var (steps, j) := (WindowSteps(w.base, w.events, w.start, w.end), i - Count(w.events, w.start));
            0 <= j < |steps| && w.Step(i) == steps[j].At(w.d)
  {
    WalkBounds(w.events, w.start, w.end);
  }

  // --- From the first step that holds the dimension ------------------------------------

  // Step f is the first one passed that holds the dimension.
  ghost predicate FirstPassed(w: Window, f: nat) {
    && Passes(w, f) && Steps(w.base, w.events)[f].Has(w.d)
    && forall i: nat | Passes(w, i) && i < f :: !Steps(w.base, w.events)[i].Has(w.d)
  }

  // A time of the window that shows step f or a later one.
  ghost predicate Since(w: Window, f: nat, u: int) {
    InWindow(w.start, w.end, u) && Count(w.events, u) >= f
  }

  // rangeMin is the value of a step from f on, and no such step is lower.
  lemma LowestIsStep(w: Window, f: nat) returns (i: nat)
    requires w.Valid() && FirstPassed(w, f)
    ensures i >= f && Passes(w, i) && w.Step(i) == w.Lowest()
    ensures forall j: nat | Passes(w, j) && j >= f :: w.Lowest() <= w.Step(j)
  {
    var k := Count(w.events, w.start);
    FirstOfFold(w, f);
    var j := LeastOfFold(w, WindowSteps(w.base, w.events, w.start, w.end), f - k);
    PassedStep(w, j);
    i := k + j;
    forall x: nat | Passes(w, x) && x >= f ensures w.Lowest() <= w.Step(x) {
      StepPassed(w, x);
    }
  }

  lemma FirstOfFold(w: Window, f: nat)
    requires w.Valid() && FirstPassed(w, f)
    ensures f >= Count(w.events, w.start)
    ensures FirstHolding(WindowSteps(w.base, w.events, w.start, w.end), w.d, f - Count(w.events, w.start))
  {
    var steps, k := WindowSteps(w.base, w.events, w.start, w.end), Count(w.events, w.start);
    WalkBounds(w.events, w.start, w.end);
    forall i | 0 <= i < f - k ensures !steps[i].Has(w.d) {
      assert Passes(w, k + i);
    }
  }

  lemma LeastOfFold(w: Window, steps: seq<Amounts>, g: nat) returns (j: nat)
    requires w.Valid() && steps == WindowSteps(w.base, w.events, w.start, w.end)
    requires FirstHolding(steps, w.d, g)
    ensures g <= j < |steps| && steps[j].At(w.d) == w.Lowest()
    ensures forall i | g <= i < |steps| :: w.Lowest() <= steps[i].At(w.d)
  {
    FoldMinMeaning(steps, w.d);
    var h: nat :| FirstHolding(steps, w.d, h) && IsLeast(steps, h, w.d, w.Lowest());
    assert h == g;
    j :| g <= j < |steps| && w.Lowest() == steps[j].At(w.d);
  }

  lemma HighestIsStep(w: Window) returns (i: nat)
    requires w.Valid()
    ensures Passes(w, i) && w.Step(i) == w.Highest()
    ensures forall j: nat | Passes(w, j) :: w.Step(j) <= w.Highest()
  {
    var j := Greatest(w, WindowSteps(w.base, w.events, w.start, w.end));
    PassedStep(w, j);
    i := Count(w.events, w.start) + j;
    forall x: nat | Passes(w, x) ensures w.Step(x) <= w.Highest() {
      StepPassed(w, x);
    }
  }

  lemma Greatest(w: Window, steps: seq<Amounts>) returns (j: nat)
    requires w.Valid() && steps == WindowSteps(w.base, w.events, w.start, w.end)
    ensures j < |steps| && steps[j].At(w.d) == w.Highest()
    ensures forall i | 0 <= i < |steps| :: steps[i].At(w.d) <= w.Highest()
  {
    StepsOfWindow(w);
    FoldMaxMeaning(steps, w.d);
    j :| 0 <= j < |steps| && w.Highest() == steps[j].At(w.d);
  }

  // rangeMin is attained at a time that shows step f or a later one.
  ghost predicate LowestShownSince(w: Window, f: nat)
    requires Sorted(w.events)
  {
    exists u :: Since(w, f, u) && w.Level(u) == w.Lowest()
  }

  ghost predicate ReachesDownSince(w: Window, f: nat, v: real) {
    exists u :: Since(w, f, u) && w.Level(u) <= v
  }

  ghost predicate LowestShown(w: Window)
    requires Sorted(w.events)
  {
    exists u :: InWindow(w.start, w.end, u) && w.Level(u) == w.Lowest()
  }

  ghost predicate HighestShown(w: Window)
    requires Sorted(w.events)
  {
    exists u :: InWindow(w.start, w.end, u) && w.Level(u) == w.Highest()
  }

  // Some time of the window is at least as low as v, or at least as high.
  ghost predicate ReachesDown(w: Window, v: real) {
    exists u :: InWindow(w.start, w.end, u) && w.Level(u) <= v
  }

  ghost predicate ReachesUp(w: Window, v: real) {
    exists u :: InWindow(w.start, w.end, u) && w.Level(u) >= v
  }

  // rangeMin is a lower bound of the times from the first step that holds the dimension
  // on, and attained there, hence their minimum, if and only if no later value between
  // simultaneous events lies below all of them.
  lemma RangeMinFromFirstIff(w: Window, f: nat)
    requires w.Valid() && FirstPassed(w, f)
    ensures forall u | Since(w, f, u) :: w.Lowest() <= w.Level(u)
    ensures LowestShownSince(w, f)
            <==> forall i: nat | w.PassesHidden(i) && i >= f :: ReachesDownSince(w, f, w.Step(i))
  {
    var m := LowestIsStep(w, f);
    forall u | Since(w, f, u) ensures w.Lowest() <= w.Level(u) {
      WindowShowsSteps(w.events, w.start, w.end, u);
      CurveIsStep(w.base, w.events, u);
      assert Passes(w, Count(w.events, u));
    }
    if LowestShownSince(w, f) {
      var u :| Since(w, f, u) && w.Level(u) == w.Lowest();
      forall i: nat | w.PassesHidden(i) && i >= f ensures ReachesDownSince(w, f, w.Step(i)) {
        assert Passes(w, i) && w.Level(u) <= w.Step(i);
      }
    } else if forall i: nat | w.PassesHidden(i) && i >= f :: ReachesDownSince(w, f, w.Step(i)) {
      var u := LowTime(w, f, m);
    }
  }

  // A step of the walk, hidden or not, is matched from below by a time.
  lemma LowTime(w: Window, f: nat, i: nat) returns (u: int)
    requires w.Valid() && Passes(w, i) && i >= f
    requires w.PassesHidden(i) ==> ReachesDownSince(w, f, w.Step(i))
    ensures Since(w, f, u) && w.Level(u) <= w.Step(i)
  {
    if w.PassesHidden(i) {
      u :| Since(w, f, u) && w.Level(u) <= w.Step(i);
    } else {
      u := StepIsShown(w.events, w.start, w.end, i);
      CurveIsStep(w.base, w.events, u);
    }
  }

  // Where step f is shown, those times are the ones from the first that holds the
  // dimension on.
  lemma SinceIsFirstTime(w: Window, f: nat, u: int)
    requires w.Valid() && FirstPassed(w, f) && !w.PassesHidden(f) && InWindow(w.start, w.end, u)
    ensures Since(w, f, u)
            <==> exists v | InWindow(w.start, w.end, v) && v <= u :: CurveAt(w.base, w.events, v).Has(w.d)
  {
    if Since(w, f, u) {
      var v := StepIsShown(w.events, w.start, w.end, f);
      CurveIsStep(w.base, w.events, v);
      CurveIsStep(w.base, w.events, u);
      if u < v { CountMonotone(w.events, u, v); }
    } else {
      forall v | InWindow(w.start, w.end, v) && v <= u ensures !CurveAt(w.base, w.events, v).Has(w.d) {
        CountMonotone(w.events, v, u);
        WindowShowsSteps(w.events, w.start, w.end, v);
        CurveIsStep(w.base, w.events, v);
        assert Passes(w, Count(w.events, v));
      }
    }
  }

  // And where no step holds the dimension there is none of it to report or to have.
  lemma RangeMinOfNothing(w: Window)
    requires w.Valid() && forall f: nat :: !FirstPassed(w, f)
    ensures w.Lowest() == 0.0 && forall u | InWindow(w.start, w.end, u) :: w.Level(u) == 0.0
  {
    WalkBounds(w.events, w.start, w.end);
    NothingPassed(w, LastStep(w.events, w.start, w.end));
    StepsOfWindow(w);
    var steps := WindowSteps(w.base, w.events, w.start, w.end);
    FoldMinMeaning(steps, w.d);
    forall i | 0 <= i < |steps| ensures !steps[i].Has(w.d) {
      assert Passes(w, Count(w.events, w.start) + i);
    }
    forall u | InWindow(w.start, w.end, u) ensures w.Level(u) == 0.0 {
      WindowShowsSteps(w.events, w.start, w.end, u);
      CurveIsStep(w.base, w.events, u);
      assert Passes(w, Count(w.events, u));
    }
  }

  lemma {:induction false} NothingPassed(w: Window, n: nat)
    requires forall f: nat :: !FirstPassed(w, f)
    ensures forall i: nat | Passes(w, i) && i <= n :: !Steps(w.base, w.events)[i].Has(w.d)
  {
    if n > 0 { NothingPassed(w, n - 1); }
    assert !FirstPassed(w, n);
  }

  // For a dimension present at the start rangeMin is the pointwise minimum over the whole
  // window if and only if no value between simultaneous events lies below every time.
  lemma RangeMinPointwiseIff(w: Window)
    requires w.Valid() && CurveAt(w.base, w.events, w.start).Has(w.d)
    ensures LowestShown(w) <==> forall i: nat | w.PassesHidden(i) :: ReachesDown(w, w.Step(i))
  {
    var f := Count(w.events, w.start);
    PresentAtStart(w);
    RangeMinFromFirstIff(w, f);
    forall u ensures Since(w, f, u) <==> InWindow(w.start, w.end, u) {
      if InWindow(w.start, w.end, u) { CountMonotone(w.events, w.start, u); }
    }
    assert LowestShown(w) <==> LowestShownSince(w, f);
    forall v: real ensures ReachesDown(w, v) <==> ReachesDownSince(w, f, v) {
    }
  }

  lemma PresentAtStart(w: Window)
    requires w.Valid() && CurveAt(w.base, w.events, w.start).Has(w.d)
    ensures FirstPassed(w, Count(w.events, w.start))
  {
    WalkBounds(w.events, w.start, w.end);
    CurveIsStep(w.base, w.events, w.start);
  }

  lemma HighTime(w: Window, i: nat) returns (u: int)
    requires w.Valid() && Passes(w, i)
    requires w.PassesHidden(i) ==> ReachesUp(w, w.Step(i))
    ensures InWindow(w.start, w.end, u) && w.Level(u) >= w.Step(i)
  {
    if w.PassesHidden(i) {
      u :| InWindow(w.start, w.end, u) && w.Level(u) >= w.Step(i);
    } else {
      u := StepIsShown(w.events, w.start, w.end, i);
      CurveIsStep(w.base, w.events, u);
    }
  }

  // rangeMax is the pointwise maximum, for every dimension, if and only if no value
  // between simultaneous events lies above every time of the window.
  lemma RangeMaxPointwiseIff(w: Window)
    requires w.Valid()
    ensures HighestShown(w) <==> forall i: nat | w.PassesHidden(i) :: ReachesUp(w, w.Step(i))
  {
    var m := HighestIsStep(w);
    if HighestShown(w) {
      forall i: nat | w.PassesHidden(i) ensures ReachesUp(w, w.Step(i)) {
        var u :| InWindow(w.start, w.end, u) && w.Level(u) == w.Highest();
        assert w.Level(u) >= w.Step(i);
      }
    } else if forall i: nat | w.PassesHidden(i) :: ReachesUp(w, w.Step(i)) {
      var u := HighTime(w, m);
      WalkBoundsTimes(w, u);
    }
  }

  // With no two events at the same time inside the window both walks are pointwise.
  lemma DistinctTimesPointwise(w: Window)
    requires w.Valid() && forall i, j | 0 <= i < j < |w.events| ::
                            w.events[i].time == w.events[j].time ==>
                              w.events[i].time <= w.start || w.events[i].time >= w.end
    ensures CurveAt(w.base, w.events, w.start).Has(w.d) ==> LowestShown(w)
    ensures HighestShown(w)
  {
    WalkBounds(w.events, w.start, w.end);
    UpToIsPrefix(w.events, w.start);
    forall i: nat ensures !w.PassesHidden(i) {
    }
    RangeMaxPointwiseIff(w);
    if CurveAt(w.base, w.events, w.start).Has(w.d) { RangeMinPointwiseIff(w); }
  }
}
