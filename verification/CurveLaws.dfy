/** What the clamped curve is, in each dimension: laws of the replay. */
module CurveLaws {
  import opened Capacities
  import opened Timelines
  import opened Sums

  // --- The closed form ----------------------------------------------------------

  // A level pushed up and down, never below zero.
  function Level(x: real, ds: seq<real>): real {
    if ds == [] then x else Max0(Level(x, ds[..|ds| - 1]) + ds[|ds| - 1])
  }

  function Total(ds: seq<real>): real {
    if ds == [] then 0.0 else Total(ds[..|ds| - 1]) + ds[|ds| - 1]
  }

  // The changes that the events make to one dimension, in order.
  function Deltas(events: seq<Event>, d: Dimension): (r: seq<real>)
    ensures |r| == |events|
  {
    if events == [] then []
    else Deltas(events[..|events| - 1], d) + [events[|events| - 1].delta.At(d)]
  }

  lemma {:induction false} ReplayIsLevel(base: Amounts, events: seq<Event>, d: Dimension)
    requires base.NonNegative()
    ensures Replay(base, events).At(d) == Level(base.At(d), Deltas(events, d))
  {
    if events != [] {
      var n := |events| - 1;
      ReplayIsLevel(base, events[..n], d);
      ReplayNonNegative(base, events[..n]);
      ApplyDeltaAt(Replay(base, events[..n]), events[n].delta, d);
      assert Deltas(events, d)[..n] == Deltas(events[..n], d);
    }
  }

  // The level is the greatest of the unclamped sum and of every later part of it.
  ghost predicate IsClampedSum(v: real, x: real, ds: seq<real>) {
    && v >= x + Total(ds)
    && (forall k | 0 <= k <= |ds| :: v >= Total(ds) - Total(ds[..k]))
    && (v == x + Total(ds) || exists k :: 0 <= k <= |ds| && v == Total(ds) - Total(ds[..k]))
  }

  lemma {:induction false} LevelClosedForm(x: real, ds: seq<real>)
    requires x >= 0.0
    ensures IsClampedSum(Level(x, ds), x, ds)
  {
    if ds != [] {
      var n := |ds| - 1;
      var init := ds[..n];
      LevelClosedForm(x, init);
      assert forall k | 0 <= k <= n :: ds[..k] == init[..k];
      assert ds[..n + 1] == ds;
      if Level(x, init) != x + Total(init) {
        var k :| 0 <= k <= n && Level(x, init) == Total(init) - Total(init[..k]);
        assert Total(ds) - Total(ds[..k]) == Level(x, init) + ds[n];
      }
    } else {
      assert Total(ds[..0]) == 0.0;
    }
  }

  // At every time and in every dimension the curve is the closed form of the
  // changes up to that time.
  lemma CurveClosedForm(base: Amounts, events: seq<Event>, t: int, d: Dimension)
    requires base.NonNegative()
    ensures IsClampedSum(CurveAt(base, events, t).At(d), base.At(d), Deltas(UpTo(events, t), d))
  {
    ReplayIsLevel(base, UpTo(events, t), d);
    LevelClosedForm(base.At(d), Deltas(UpTo(events, t), d));
  }

  // The clamp is invisible at the end exactly when no prefix goes below zero.
  lemma LevelUnclampedIff(x: real, ds: seq<real>)
    requires x >= 0.0
    ensures Level(x, ds) == x + Total(ds) <==> forall k | 0 <= k <= |ds| :: x + Total(ds[..k]) >= 0.0
  {
    LevelClosedForm(x, ds);
    assert forall k | 0 <= k <= |ds| ::
        Level(x, ds) == x + Total(ds) ==> x + Total(ds) >= Total(ds) - Total(ds[..k]);
  }

  // --- What the clamp adds ------------------------------------------------------------

  // How far below zero the unclamped sum goes at its deepest.
  function Shortfall(x: real, ds: seq<real>): real {
    if ds == [] then Max0(-x) else Greater(Shortfall(x, ds[..|ds| - 1]), -(x + Total(ds)))
  }

  lemma {:induction false} ShortfallIsDeepest(x: real, ds: seq<real>)
    requires x >= 0.0
    ensures Shortfall(x, ds) >= 0.0
    ensures forall k | 0 <= k <= |ds| :: Shortfall(x, ds) >= -(x + Total(ds[..k]))
    ensures Shortfall(x, ds) == 0.0 || exists k :: 0 <= k <= |ds| && Shortfall(x, ds) == -(x + Total(ds[..k]))
  {
    if ds != [] {
      var n := |ds| - 1;
      var init := ds[..n];
      ShortfallIsDeepest(x, init);
      assert forall k | 0 <= k <= n :: ds[..k] == init[..k];
      assert ds[..n + 1] == ds;
      if Shortfall(x, ds) == Shortfall(x, init) && Shortfall(x, init) != 0.0 {
        var k :| 0 <= k <= n && Shortfall(x, init) == -(x + Total(init[..k]));
        assert Shortfall(x, ds) == -(x + Total(ds[..k]));
      }
    }
  }

  // The clamp adds back exactly the deepest shortfall so far.
  lemma {:induction false} LevelIsSumPlusShortfall(x: real, ds: seq<real>)
    requires x >= 0.0
    ensures Level(x, ds) == x + Total(ds) + Shortfall(x, ds)
  {
    if ds != [] { LevelIsSumPlusShortfall(x, ds[..|ds| - 1]); }
  }

  function ShortfallAt(base: Amounts, events: seq<Event>, d: Dimension, t: int): real {
    Shortfall(base.At(d), Deltas(UpTo(events, t), d))
  }

  lemma CurveIsSumPlusShortfall(base: Amounts, events: seq<Event>, d: Dimension, t: int)
    requires base.NonNegative()
    ensures CurveAt(base, events, t).At(d)
            == base.At(d) + SumBy(events, CutFn(d, t)) + ShortfallAt(base, events, d, t)
  {
    ReplayIsLevel(base, UpTo(events, t), d);
    LevelIsSumPlusShortfall(base.At(d), Deltas(UpTo(events, t), d));
    TotalUpTo(events, d, t);
  }

  // --- Reordering simultaneous events ----------------------------------------------

  // The weight of an event in the sum up to t.
  function CutFn(d: Dimension, t: int): Event -> real {
    (e: Event) => if e.time <= t then e.delta.At(d) else 0.0
  }

  lemma {:induction false} TotalUpTo(events: seq<Event>, d: Dimension, t: int)
    ensures Total(Deltas(UpTo(events, t), d)) == SumBy(events, CutFn(d, t))
  {
    if events != [] {
      var n := |events| - 1;
      TotalUpTo(events[..n], d, t);
      if events[n].time <= t {
        TotalDeltasOne(UpTo(events[..n], t), events[n], d);
      }
    }
  }

  lemma TotalDeltasOne(events: seq<Event>, e: Event, d: Dimension)
    ensures Total(Deltas(events + [e], d)) == Total(Deltas(events, d)) + e.delta.At(d)
  {
    assert (events + [e])[..|events|] == events;
    assert Deltas(events + [e], d)[..|events|] == Deltas(events, d);
  }

  // No prefix of the events up to t goes below zero in dimension d.
  ghost predicate NeverBelowZero(base: Amounts, events: seq<Event>, d: Dimension, t: int) {
    forall k | 0 <= k <= Count(events, t) ::
      base.At(d) + Total(Deltas(UpTo(events, t), d)[..k]) >= 0.0
  }

  // The curve is the plain unclamped sum exactly when no prefix goes below zero.
  lemma CurveUnclampedIff(base: Amounts, events: seq<Event>, d: Dimension, t: int)
    requires base.NonNegative()
    ensures CurveAt(base, events, t).At(d) == base.At(d) + SumBy(events, CutFn(d, t))
            <==> NeverBelowZero(base, events, d, t)
  {
    ReplayIsLevel(base, UpTo(events, t), d);
    LevelUnclampedIff(base.At(d), Deltas(UpTo(events, t), d));
    TotalUpTo(events, d, t);
  }

  // Any reordering of the events is harmless where no prefix goes below zero.
  lemma ReorderingHarmless(base: Amounts, a: seq<Event>, b: seq<Event>, d: Dimension, t: int)
    requires base.NonNegative() && multiset(a) == multiset(b)
    requires NeverBelowZero(base, a, d, t) && NeverBelowZero(base, b, d, t)
    ensures CurveAt(base, a, t).At(d) == CurveAt(base, b, t).At(d)
  {
    CurveUnclampedIff(base, a, d, t);
    CurveUnclampedIff(base, b, d, t);
    SumByPermutes(a, b, CutFn(d, t));
  }

  // --- A bound that holds for every tie order -----------------------------------------

  // The least an event can have contributed when the replay is somewhere inside
  // the events at time t.
  function WorstFn(d: Dimension, t: int): Event -> real {
    (e: Event) =>
      if e.time < t then e.delta.At(d)
      else if e.time == t then Lesser(e.delta.At(d), 0.0)
      else 0.0
  }

  // A weight that is at most the change of each event counted, and at most zero for the
  // others, sums to at most the changes counted.
  lemma {:induction false} PrefixAbove(events: seq<Event>, d: Dimension, k: nat, f: Event -> real)
    requires k <= |events|
    requires forall i | 0 <= i < k :: f(events[i]) <= events[i].delta.At(d)
    requires forall i | k <= i < |events| :: f(events[i]) <= 0.0
    ensures Total(Deltas(events[..k], d)) >= SumBy(events, f)
  {
    if events != [] {
      var n := |events| - 1;
      var init, last := events[..n], events[n];
      if k <= n {
        PrefixAbove(init, d, k, f);
        assert init[..k] == events[..k];
      } else {
        PrefixAbove(init, d, n, f);
        assert init[..n] == init && events[..k] == init + [last];
        TotalDeltasOne(init, last, d);
      }
    }
  }

  lemma PrefixAboveWorst(events: seq<Event>, d: Dimension, k: nat, t: int)
    requires k <= |events|
    requires forall i | 0 <= i < k :: events[i].time <= t
    requires forall i | k <= i < |events| :: events[i].time >= t
    ensures Total(Deltas(events[..k], d)) >= SumBy(events, WorstFn(d, t))
  {
    PrefixAbove(events, d, k, WorstFn(d, t));
  }

  lemma {:induction false} DeltasPrefix(events: seq<Event>, d: Dimension, k: nat)
    requires k <= |events|
    ensures Deltas(events, d)[..k] == Deltas(events[..k], d)
  {
    if k < |events| {
      var n := |events| - 1;
      DeltasPrefix(events[..n], d, k);
      assert events[..n][..k] == events[..k];
      assert Deltas(events, d)[..k] == Deltas(events[..n], d)[..k];
    } else {
      assert events[..k] == events;
    }
  }

  // If even the worst partial sum at every time stays above zero, the clamp never
  // acts, whatever the order of simultaneous events.
  lemma WorstCaseSafe(base: Amounts, events: seq<Event>, d: Dimension, t: int)
    requires base.NonNegative() && Sorted(events)
    requires forall u: int :: base.At(d) + SumBy(events, WorstFn(d, u)) >= 0.0
    ensures CurveAt(base, events, t).At(d) == base.At(d) + SumBy(events, CutFn(d, t))
  {
    UpToIsPrefix(events, t);
    forall k | 0 <= k <= Count(events, t)
      ensures base.At(d) + Total(Deltas(UpTo(events, t), d)[..k]) >= 0.0
    {
      DeltasPrefix(UpTo(events, t), d, k);
      assert UpTo(events, t)[..k] == events[..k];
      if k > 0 {
        var u := events[k - 1].time;
        PrefixAboveWorst(events, d, k, u);
        assert base.At(d) + SumBy(events, WorstFn(d, u)) >= 0.0;
      }
    }
    CurveUnclampedIff(base, events, d, t);
  }
}
