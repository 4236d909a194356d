/** Multi-dimensional capacity amounts (include/capacity_fabric/capacity/capacity.hpp).

    A capacity is a finite map from dimensions to amounts.  Which keys are present
    matters: `Set` erases zeros, `Monus` stores them, and `Min` takes the other
    side for a key that is missing on the left. */
module Capacities {

  // The enumeration has an 8-bit underlying type, so any byte is a dimension.
  type Dimension = d: int | 0 <= d < 256

  const ACCELERATOR_COUNT: Dimension := 0
  const VRAM_BYTES: Dimension := 2

  predicate IsBytes(d: Dimension) {
    d in {2, 3, 4, 5, 7, 15, 16}
  }

  predicate IsRate(d: Dimension) {
    d in {8, 9, 10, 11}
  }

  datatype Amounts = Amounts(entries: map<Dimension, real>) {
    predicate Has(d: Dimension) {
      d in entries
    }

    function At(d: Dimension): real {
      if d in entries then entries[d] else 0.0
    }

    ghost predicate NonNegative() {
      forall d | d in entries :: entries[d] >= 0.0
    }

    // No stored zeros: what `setAmount` alone can build.
    ghost predicate Normal() {
      forall d | d in entries :: entries[d] > 0.0
    }

    predicate Satisfies(requirement: Amounts) {
      forall d | d in requirement.entries :: At(d) >= requirement.entries[d]
    }
  }

  const NOTHING := Amounts(map[])

  // A signed change to some dimensions.
  datatype Delta = Delta(changes: map<Dimension, real>) {
    function At(d: Dimension): real {
      if d in changes then changes[d] else 0.0
    }

    function Negate(): Delta {
      Delta(map d | d in changes :: -changes[d])
    }
  }

  function Max0(x: real): real {
    if x < 0.0 then 0.0 else x
  }

  function Lesser(x: real, y: real): real {
    if x < y then x else y
  }

  function Greater(x: real, y: real): real {
    if x > y then x else y
  }

  function Set(c: Amounts, d: Dimension, v: real): Amounts {
    if v < 0.0 then c
    else if v == 0.0 then Amounts(c.entries - {d})
    else Amounts(c.entries[d := v])
  }

  function Sum(a: Amounts, b: Amounts): Amounts {
    Amounts(map d: Dimension | a.Has(d) || b.Has(d) :: a.At(d) + b.At(d))
  }

  function Monus(a: Amounts, b: Amounts): Amounts {
    Amounts(map d: Dimension | a.Has(d) || b.Has(d) ::
      if b.Has(d) then Max0(a.At(d) - b.entries[d]) else a.entries[d])
  }

  // An exact difference; what is used up is erased.
  function Less(a: Amounts, b: Amounts): Amounts {
    Amounts(map d: Dimension | (a.Has(d) || b.Has(d)) && !(b.Has(d) && a.At(d) == b.entries[d]) ::
      if b.Has(d) then a.At(d) - b.entries[d] else a.entries[d])
  }

  function Min(a: Amounts, b: Amounts): Amounts {
    Amounts(map d: Dimension | a.Has(d) || b.Has(d) ::
      if a.Has(d) then Lesser(a.entries[d], b.At(d)) else b.entries[d])
  }

  function MaxCap(a: Amounts, b: Amounts): Amounts {
    Amounts(map d: Dimension | a.Has(d) || b.Has(d) ::
      if a.Has(d) then Greater(a.entries[d], b.At(d)) else b.entries[d])
  }

  // Every changed dimension is clamped at zero, and erased when it gets there.
  function ApplyDelta(c: Amounts, delta: Delta): Amounts {
    Amounts(map d: Dimension | (c.Has(d) || d in delta.changes)
                    && !(d in delta.changes && c.At(d) + delta.At(d) <= 0.0) ::
      if d in delta.changes then c.At(d) + delta.At(d) else c.entries[d])
  }

  // A stored capacity that is updated in place, entry by entry in key order.
  class Capacity {
    var amounts: Amounts

    constructor (c: Amounts)
      ensures amounts == c
    {
      amounts := c;
    }

    method SetAmount(d: Dimension, v: real) returns (ok: bool)
      modifies this
      ensures ok == (v >= 0.0)
      ensures amounts == Set(old(amounts), d, v)
    {
      if v < 0.0 { return false; }
      if v == 0.0 {
        amounts := Amounts(amounts.entries - {d});
      } else {
        amounts := Amounts(amounts.entries[d := v]);
      }
      return true;
    }

    method Add(other: Amounts)
      modifies this
      ensures amounts == Sum(old(amounts), other)
    {
      BelowEnds(other.entries);
      SumStart(amounts);
      for d := 0 to 256
        invariant amounts == Sum(old(amounts), Amounts(Below(other.entries, d)))
      {
        BelowStep(other.entries, d);
        if d in other.entries {
          SumStep(old(amounts), Below(other.entries, d), d, other.entries[d]);
          amounts := Amounts(amounts.entries[d := amounts.At(d) + other.entries[d]]);
        }
      }
    }

    method SubtractClamp(other: Amounts)
      modifies this
      ensures amounts == Monus(old(amounts), other)
    {
      BelowEnds(other.entries);
      SumStart(amounts);
      for d := 0 to 256
        invariant amounts == Monus(old(amounts), Amounts(Below(other.entries, d)))
      {
        BelowStep(other.entries, d);
        if d in other.entries {
          MonusStep(old(amounts), Below(other.entries, d), d, other.entries[d]);
          var t := amounts.At(d) - other.entries[d];
          amounts := Amounts(amounts.entries[d := if t > 0.0 then t else 0.0]);
        }
      }
    }

    // All or nothing: subtracts exactly, without clamping, if every component allows it.
    method TrySubtract(other: Amounts) returns (ok: bool)
      modifies this
      ensures ok == old(amounts).Satisfies(other)
      ensures amounts == if ok then Less(old(amounts), other) else old(amounts)
    {
      for d := 0 to 256
        invariant forall k | k in other.entries && k < d :: amounts.At(k) >= other.entries[k]
        invariant amounts == old(amounts)
      {
        if d in other.entries && amounts.At(d) < other.entries[d] { return false; }
      }
      SubtractExact(other);
      return true;
    }

    method SubtractExact(other: Amounts)
      modifies this
      ensures amounts == Less(old(amounts), other)
    {
      BelowEnds(other.entries);
      SumStart(amounts);
      for d := 0 to 256
        invariant amounts == Less(old(amounts), Amounts(Below(other.entries, d)))
      {
        BelowStep(other.entries, d);
        if d in other.entries {
          LessStep(old(amounts), Below(other.entries, d), d, other.entries[d]);
          var left := amounts.At(d) - other.entries[d];
          if left == 0.0 {
            amounts := Amounts(amounts.entries - {d});
          } else {
            amounts := Amounts(amounts.entries[d := left]);
          }
        }
      }
    }

    // Applies a signed change, clamping every changed dimension at zero.
    method Apply(delta: Delta)
      modifies this
      ensures amounts == ApplyDelta(old(amounts), delta)
    {
      BelowEnds(delta.changes);
      SumStart(amounts);
      for d := 0 to 256
        invariant amounts == ApplyDelta(old(amounts), Delta(Below(delta.changes, d)))
      {
        BelowStep(delta.changes, d);
        if d in delta.changes {
          ApplyStep(old(amounts), Below(delta.changes, d), d, delta.changes[d]);
          var next := amounts.At(d) + delta.changes[d];
          if next < 0.0 { next := 0.0; }
          var _ := SetAmount(d, next);
        }
      }
    }
  }

  // --- One step of each entry-by-entry loop -------------------------------------

  // The entries visited before key n.
  function Below(c: map<Dimension, real>, n: int): map<Dimension, real> {
    map d | d in c && d < n :: c[d]
  }

  lemma BelowStep(c: map<Dimension, real>, n: int)
    requires 0 <= n < 256
    ensures Below(c, n + 1) == if n in c then Below(c, n)[n := c[n]] else Below(c, n)
  {
  }

  lemma BelowEnds(c: map<Dimension, real>)
    ensures Below(c, 0) == map[] && Below(c, 256) == c
  {
  }

  lemma SumStart(a: Amounts)
    ensures Sum(a, NOTHING) == a && Monus(a, NOTHING) == a && ApplyDelta(a, Delta(map[])) == a
    ensures Less(a, NOTHING) == a
  {
    assert Less(a, NOTHING).entries == a.entries;
    assert Sum(a, NOTHING).entries == a.entries;
    assert Monus(a, NOTHING).entries == a.entries;
    assert ApplyDelta(a, Delta(map[])).entries == a.entries;
  }

  lemma SumStep(a: Amounts, done: map<Dimension, real>, d: Dimension, v: real)
    requires d !in done
    ensures var s := Sum(a, Amounts(done));
            Amounts(s.entries[d := s.At(d) + v]) == Sum(a, Amounts(done[d := v]))
  {
    var s := Sum(a, Amounts(done));
    assert s.entries[d := s.At(d) + v] == Sum(a, Amounts(done[d := v])).entries;
  }

  lemma MonusStep(a: Amounts, done: map<Dimension, real>, d: Dimension, v: real)
    requires d !in done
    ensures var s := Monus(a, Amounts(done));
            Amounts(s.entries[d := Max0(s.At(d) - v)]) == Monus(a, Amounts(done[d := v]))
  {
    var s := Monus(a, Amounts(done));
    assert s.entries[d := Max0(s.At(d) - v)] == Monus(a, Amounts(done[d := v])).entries;
  }

  lemma LessStep(a: Amounts, done: map<Dimension, real>, d: Dimension, v: real)
    requires d !in done
    ensures var s := Less(a, Amounts(done));
            Less(a, Amounts(done[d := v]))
            == if s.At(d) == v then Amounts(s.entries - {d}) else Amounts(s.entries[d := s.At(d) - v])
  {
    var s, t := Less(a, Amounts(done)), Less(a, Amounts(done[d := v]));
    assert s.At(d) == a.At(d);
    if s.At(d) == v {
      assert t.entries == s.entries - {d};
    } else {
      assert t.entries == s.entries[d := s.At(d) - v];
    }
  }

  lemma ApplyStep(c: Amounts, done: map<Dimension, real>, d: Dimension, v: real)
    requires d !in done
    ensures var s := ApplyDelta(c, Delta(done));
            ApplyDelta(c, Delta(done[d := v])) == Set(s, d, Max0(s.At(d) + v))
  {
    var s, t := ApplyDelta(c, Delta(done)), ApplyDelta(c, Delta(done[d := v]));
    assert s.At(d) == c.At(d);
    assert t.entries == Set(s, d, Max0(s.At(d) + v)).entries;
  }

  // --- Laws -------------------------------------------------------------------

  lemma ApplyDeltaAt(c: Amounts, delta: Delta, d: Dimension)
    requires c.NonNegative()
    ensures ApplyDelta(c, delta).NonNegative()
    ensures ApplyDelta(c, delta).At(d) == Max0(c.At(d) + delta.At(d))
  {
  }

  // An exact subtraction is undone by adding back; the clamped one is exactly when the
  // exact one would have been allowed.
  lemma SubtractUndoneIff(a: Amounts, b: Amounts, d: Dimension)
    requires a.NonNegative() && b.NonNegative()
    ensures Sum(Less(a, b), b).At(d) == a.At(d)
    ensures Sum(Monus(a, b), b).At(d) == a.At(d) <==> a.At(d) >= b.At(d)
  {
  }

  // Setting an amount refuses what is negative; otherwise it is what the dimension then has,
  // a zero leaves no entry, and no other dimension is touched.
  lemma SetAt(c: Amounts, d: Dimension, v: real, k: Dimension)
    ensures v < 0.0 ==> Set(c, d, v) == c
    ensures v >= 0.0 ==> Set(c, d, v).At(d) == v && (Set(c, d, v).Has(d) <==> v > 0.0)
    ensures k != d ==> Set(c, d, v).At(k) == c.At(k) && (Set(c, d, v).Has(k) <==> c.Has(k))
  {
  }

  // Sums and clamped differences store an entry for every dimension of either side, an exact
  // difference only for those that are not used up.
  lemma EntriesOf(a: Amounts, b: Amounts, d: Dimension)
    ensures Sum(a, b).Has(d) <==> a.Has(d) || b.Has(d)
    ensures Sum(a, b).At(d) == a.At(d) + b.At(d)
    ensures Monus(a, b).Has(d) <==> a.Has(d) || b.Has(d)
    ensures a.NonNegative() && b.NonNegative() ==> Monus(a, b).At(d) == Max0(a.At(d) - b.At(d))
    ensures Less(a, b).At(d) == a.At(d) - b.At(d)
    ensures b.Has(d) ==> (Less(a, b).Has(d) <==> a.At(d) != b.At(d))
  {
  }

  // A changed dimension keeps an entry exactly when something is left.
  lemma ApplyDeltaHas(c: Amounts, delta: Delta, d: Dimension)
    ensures ApplyDelta(c, delta).Has(d)
            <==> if d in delta.changes then c.At(d) + delta.changes[d] > 0.0 else c.Has(d)
  {
  }

  lemma MinAt(a: Amounts, b: Amounts, d: Dimension)
    ensures Min(a, b).Has(d) <==> a.Has(d) || b.Has(d)
    ensures Min(a, b).At(d) == if a.Has(d) then Lesser(a.At(d), b.At(d)) else b.At(d)
  {
  }

  lemma MaxAt(a: Amounts, b: Amounts, d: Dimension)
    requires a.NonNegative() && b.NonNegative()
    ensures MaxCap(a, b).NonNegative()
    ensures MaxCap(a, b).At(d) == Greater(a.At(d), b.At(d))
  {
  }

  // Folding the same value in a second time changes nothing.
  lemma MinAbsorbs(a: Amounts, b: Amounts)
    ensures Min(Min(a, b), b) == Min(a, b) && Min(b, b) == b
    ensures MaxCap(MaxCap(a, b), b) == MaxCap(a, b) && MaxCap(b, b) == b
  {
    assert Min(Min(a, b), b).entries == Min(a, b).entries && Min(b, b).entries == b.entries;
    assert MaxCap(MaxCap(a, b), b).entries == MaxCap(a, b).entries;
    assert MaxCap(b, b).entries == b.entries;
  }

  // `min` is the pointwise minimum exactly for the dimensions it can see on the left.
  lemma MinIsPointwiseIff(a: Amounts, b: Amounts, d: Dimension)
    requires a.NonNegative() && b.NonNegative()
    ensures Min(a, b).At(d) == Lesser(a.At(d), b.At(d)) <==> a.Has(d) || b.At(d) == 0.0
  {
  }
}
