/** What the codecs ask of a double, told from the 64 bits it travels as
    (IEEE 754 binary64: sign bit, 11 exponent bits, 52 fraction bits). */
module Doubles {
  import opened Binary

  const NEGATIVE_ZERO: Word := TWO63
  const ONE: Word := 0x3ff0_0000_0000_0000
  const FRACTION := 0x10_0000_0000_0000

  function Exponent(w: Word): nat {
    (w / FRACTION) % 2048
  }

  predicate IsFinite(w: Word) {
    Exponent(w) != 2047
  }

  predicate IsZero(w: Word) {
    w == 0 || w == NEGATIVE_ZERO
  }

  // Strictly below zero, for finite values.
  predicate IsNegative(w: Word) {
    w > NEGATIVE_ZERO
  }

  // Finite and within [0, 1]: non-negative doubles are ordered as their bits are.
  predicate InUnit(w: Word) {
    w <= ONE || w == NEGATIVE_ZERO
  }

  // 0.0 + v, which turns a negative zero into zero and keeps every other finite value.
  function PlusZero(w: Word): Word {
    if w == NEGATIVE_ZERO then 0 else w
  }

  // The fraction bits below the units place of a non-negative finite value.
  function UnitPlace(w: Word): nat
    requires 1023 <= Exponent(w) < 1075
  {
    Pow2(1075 - Exponent(w))
  }

  function Cut(w: nat, u: nat): (r: nat)
    requires u > 0
    ensures r <= w
  {
    assert w == u * (w / u) + w % u;
    w - w % u
  }

  // A non-negative value cut to an unsigned integer and made a double again.
  function Truncated(w: Word): Word {
    if IsZero(w) || Exponent(w) < 1023 then 0
    else if Exponent(w) >= 1075 then w
    else Cut(w, UnitPlace(w))
  }

  // 2 to the n, for any integer n.
  function Scale(n: int): real
    decreases if n < 0 then -n else n
  {
    if n == 0 then 1.0 else if n > 0 then 2.0 * Scale(n - 1) else Scale(n + 1) / 2.0
  }

  // A value with exponent bits zero has no leading one, and the scale of exponent one.
  function Significand(w: Word): nat {
    (if Exponent(w) == 0 then 0 else FRACTION) + w % FRACTION
  }

  function Place(w: Word): int {
    (if Exponent(w) == 0 then 1 else Exponent(w)) - 1075
  }

  // The value of a finite double.
  function RealOf(w: Word): real {
    var magnitude := Value(Significand(w), Place(w));
    if w >= NEGATIVE_ZERO then -magnitude else magnitude
  }

  function Value(m: nat, place: int): real {
    m as real * Scale(place)
  }

  // --- Cutting the word cuts the value ----------------------------------------------------

  lemma {:induction false} PowerSplits(a: nat, b: nat)
    ensures Pow2(a + b) == Pow2(a) * Pow2(b)
  {
    if a > 0 { PowerSplits(a - 1, b); }
  }

  lemma PowerOf13(n: nat)
    requires n == 13
    ensures Pow2(n) == 8192
  {
    assert Pow2(13) == 8192;
  }

  lemma FractionIsPower(n: nat)
    requires n == 52
    ensures Pow2(n) == FRACTION
  {
    var a := n - 39;
    PowerOf13(a);
    PowerSplits(a, a);
    PowerSplits(a + a, a + a);
  }

  lemma {:induction false} ScaleOfPower(n: nat)
    ensures Scale(n) == Pow2(n) as real && Scale(-(n as int)) * Pow2(n) as real == 1.0
  {
    if n > 0 { ScaleOfPower(n - 1); }
  }

  // A value scaled down is a quotient.
  lemma ScaledDown(v: real, m: nat, place: int)
    requires place <= 0 && v == Value(m, place)
    ensures v == m as real / Pow2(-place) as real
  {
    ScaleOfPower(-place);
    Quotient(m as real, Scale(place), Pow2(-place) as real);
  }

  lemma Quotient(x: real, s: real, p: real)
    requires p > 0.0 && s * p == 1.0
    ensures x * s == x / p
  {
    assert (x * s) * p == x * (s * p);
  }

  lemma FloorOfQuotient(q: nat, r: nat, u: nat)
    requires r < u
    ensures ((u * q + r) as real / u as real).Floor == q
    ensures (u * q) as real / u as real == q as real
  {
    var x := r as real / u as real;
    assert x * u as real == r as real;
    assert 0.0 <= x < 1.0;
    assert (u * q + r) as real == u as real * q as real + r as real;
    assert (u * q + r) as real / u as real == q as real + x;
  }

  lemma Distribute(u: nat, x: nat, y: nat)
    ensures u * (x + y) == u * x + u * y && u * y >= 0
  {
  }

  lemma MultipleNext(u: nat, x: nat, y: nat)
    ensures x < y ==> u * x + u <= u * y
  {
    if x < y {
      Distribute(u, x + 1, y - x - 1);
      Distribute(u, x, 1);
    }
  }

  lemma RemainderOf(x: nat, u: nat, q: nat, r: nat)
    requires r < u && x == u * q + r
    ensures x % u == r && x / u == q
  {
    MultipleNext(u, q, x / u);
    MultipleNext(u, x / u, q);
  }

  lemma Regrouped(u: nat, k: nat, e: nat, q: nat)
    ensures (k * u) * e + u * q == u * (k * e + q)
  {
  }

  // The word of a value with a fraction below the units place, and of the value cut.
  lemma CutWord(w: Word, u: nat, k: nat)
    requires u > 0 && FRACTION == k * u
    ensures Cut(w, u) / FRACTION == w / FRACTION
    ensures Cut(w, u) % FRACTION == u * (w % FRACTION / u)
  {
    var e, f := w / FRACTION, w % FRACTION;
    var q, r := f / u, f % u;
    Regrouped(u, k, e, q);
    RemainderOf(w, u, k * e + q, r);
    RemainderOf(Cut(w, u), FRACTION, e, u * q);
  }

  lemma ValueBelowOne(v: real, m: nat, place: int)
    requires m < 2 * FRACTION && place <= -53 && v == Value(m, place)
    ensures 0.0 <= v < 1.0
  {
    var n: nat := -place;
    var k := n - 53;
    FractionIsPower(n - k - 1);
    PowerSplits(n - k - 1, k + 1);
    TwiceAtLeast(FRACTION, Pow2(k));
    ScaledDown(v, m, place);
    BelowOne(m, Pow2(n));
  }

  lemma TwiceAtLeast(a: nat, b: nat)
    requires b > 0
    ensures a * (2 * b) >= 2 * a
  {
  }

  lemma BelowOne(m: nat, p: nat)
    requires m < p
    ensures 0.0 <= m as real / p as real < 1.0
  {
    var x := m as real / p as real;
    assert x * p as real == m as real;
  }

  // A non-negative finite value cut to an integer and made a double again is its floor.
  lemma TruncatedIsFloor(w: Word)
    requires IsFinite(w) && !IsNegative(w)
    ensures RealOf(w) >= 0.0 && RealOf(Truncated(w)) == RealOf(w).Floor as real
  {
    if w == NEGATIVE_ZERO {
      assert Significand(w) == 0 && Significand(0) == 0;
    } else if Exponent(w) < 1023 {
      SmallValue(w);
      assert Significand(0) == 0;
    } else if Exponent(w) >= 1075 {
      LargeValue(w);
    } else {
      CutValue(w);
    }
  }

  lemma WholeValue(v: real, m: nat, p: nat)
    requires v == m as real * p as real
    ensures v >= 0.0 && v.Floor as real == v
  {
    assert v == (m * p) as real;
  }

  lemma LargeValue(w: Word)
    requires w < NEGATIVE_ZERO && Exponent(w) >= 1075
    ensures RealOf(w) >= 0.0 && RealOf(w) == RealOf(w).Floor as real
  {
    ScaleOfPower(Place(w));
    WholeValue(RealOf(w), Significand(w), Pow2(Place(w)));
  }

  lemma SmallValue(w: Word)
    requires w < NEGATIVE_ZERO && Exponent(w) < 1023
    ensures 0.0 <= RealOf(w) < 1.0
  {
    ValueBelowOne(RealOf(w), Significand(w), Place(w));
  }

  lemma CutValue(w: Word)
    requires w < NEGATIVE_ZERO && 1023 <= Exponent(w) < 1075
    ensures RealOf(w) >= 0.0 && RealOf(Cut(w, UnitPlace(w))) == RealOf(w).Floor as real
  {
    var u, f := UnitPlace(w), w % FRACTION;
    var k := UnitsInFraction(w);
    CutWord(w, u, k);
    ValueOverUnits(w);
    ValueOverUnits(Cut(w, u));
    WholeUnits(RealOf(w), RealOf(Cut(w, u)), u, k, f);
  }

  lemma WholeUnits(v: real, cut: real, u: nat, k: nat, f: nat)
    requires u > 0 && v == (k * u + f) as real / u as real && cut == (k * u + u * (f / u)) as real / u as real
    ensures v >= 0.0 && cut == v.Floor as real
  {
    var q, r := f / u, f % u;
    Distribute(u, k, q);
    FloorOfQuotient(k + q, r, u);
    assert k * u + f == u * (k + q) + r && k * u + u * q == u * (k + q);
  }

  lemma UnitsInFraction(w: Word) returns (k: nat)
    requires 1023 <= Exponent(w) < 1075
    ensures FRACTION == k * UnitPlace(w)
  {
    var n := 1075 - Exponent(w);
    k := Pow2(52 - n);
    FractionIsPower(52 - n + n);
    PowerSplits(52 - n, n);
  }

  lemma ValueOverUnits(w: Word)
    requires w < NEGATIVE_ZERO && 1023 <= Exponent(w) < 1075
    ensures RealOf(w) == (FRACTION + w % FRACTION) as real / UnitPlace(w) as real
  {
    ScaledDown(RealOf(w), Significand(w), Place(w));
    assert -Place(w) == 1075 - Exponent(w);
  }

  // --- Words and values -----------------------------------------------------------------

  lemma {:induction false} ScaleDoubles(n: int)
    ensures Scale(n) > 0.0 && Scale(n + 1) == 2.0 * Scale(n)
    decreases if n < 0 then -n else n
  {
    if n > 0 {
      ScaleDoubles(n - 1);
    } else if n < 0 {
      ScaleDoubles(n + 1);
    }
  }

  lemma MoreUnits(v: real, w: real, m: nat, k: nat, s: real)
    requires m < k && s > 0.0 && v == m as real * s && w == k as real * s
    ensures v < w
  {
    assert w - v == (k - m) as real * s;
  }

  // The next word has one more unit in the same place, or half the significand in the next.
  lemma NextWord(w: Word)
    requires w + 1 < NEGATIVE_ZERO
    ensures || (Place(w + 1) == Place(w) && Significand(w + 1) == Significand(w) + 1)
            || (Place(w + 1) == Place(w) + 1 && Significand(w + 1) == FRACTION && Significand(w) == 2 * FRACTION - 1)
  {
    var e, f := w / FRACTION, w % FRACTION;
    if f < FRACTION - 1 {
      RemainderOf(w + 1, FRACTION, e, f + 1);
    } else {
      RemainderOf(w + 1, FRACTION, e + 1, 0);
    }
  }

  lemma NextIsHigher(w: Word)
    requires w + 1 < NEGATIVE_ZERO
    ensures RealOf(w) < RealOf(w + 1)
  {
    NextWord(w);
    NextValue(RealOf(w), RealOf(w + 1), Significand(w), Significand(w + 1), Place(w), Place(w + 1));
  }

  lemma NextValue(v: real, w: real, m: nat, k: nat, p: int, q: int)
    requires v == Value(m, p) && w == Value(k, q)
    requires (q == p && k == m + 1) || (q == p + 1 && k == FRACTION && m == 2 * FRACTION - 1)
    ensures v < w
  {
    ScaleDoubles(p);
    if q == p {
      MoreUnits(v, w, m, k, Scale(p));
    } else {
      Doubled(w, k, Scale(p));
      MoreUnits(v, w, m, 2 * k, Scale(p));
    }
  }

  lemma Doubled(v: real, m: nat, s: real)
    requires v == m as real * (2.0 * s)
    ensures v == (2 * m) as real * s
  {
  }

  // Words below the sign bit are in the order of their values.
  lemma {:induction false} WordsOrdered(v: Word, w: Word)
    requires v < w < NEGATIVE_ZERO
    ensures RealOf(v) < RealOf(w)
    decreases w - v
  {
    NextIsHigher(w - 1);
    if v < w - 1 { WordsOrdered(v, w - 1); }
  }

  lemma SameBits(x: Word, w: Word)
    requires w == x + NEGATIVE_ZERO
    ensures w % FRACTION == x % FRACTION && Exponent(w) == Exponent(x)
  {
    var e := x / FRACTION;
    assert e < 2048;
    RemainderOf(w, FRACTION, e + 2048, x % FRACTION);
  }

  lemma SignFlips(w: Word)
    requires w >= NEGATIVE_ZERO
    ensures RealOf(w) == -RealOf(w - NEGATIVE_ZERO)
  {
    SameBits(w - NEGATIVE_ZERO, w);
  }

  lemma ZeroIsLeast(w: Word)
    requires w < NEGATIVE_ZERO
    ensures RealOf(w) >= 0.0 && (RealOf(w) == 0.0 ==> w == 0)
  {
    assert Significand(0) == 0;
    if w > 0 { WordsOrdered(0, w); }
  }

  // But for the two zeros, a value is written in one way.
  lemma ValueHasOneWord(v: Word, w: Word)
    requires RealOf(v) == RealOf(w) && v != NEGATIVE_ZERO && w != NEGATIVE_ZERO
    ensures v == w
  {
    if v < NEGATIVE_ZERO && w < NEGATIVE_ZERO {
      OneWordBelow(v, w);
    } else if v > NEGATIVE_ZERO && w > NEGATIVE_ZERO {
      SignFlips(v);
      SignFlips(w);
      OneWordBelow(v - NEGATIVE_ZERO, w - NEGATIVE_ZERO);
    } else {
      SignsDiffer(if v < w then v else w, if v < w then w else v);
    }
  }

  lemma OneWordBelow(v: Word, w: Word)
    requires v < NEGATIVE_ZERO && w < NEGATIVE_ZERO && RealOf(v) == RealOf(w)
    ensures v == w
  {
    if v < w { WordsOrdered(v, w); }
    if w < v { WordsOrdered(w, v); }
  }

  lemma SignsDiffer(v: Word, w: Word)
    requires v < NEGATIVE_ZERO < w
    ensures RealOf(w) < RealOf(v)
  {
    SignFlips(w);
    ZeroIsLeast(v);
    ZeroIsLeast(w - NEGATIVE_ZERO);
  }
}
