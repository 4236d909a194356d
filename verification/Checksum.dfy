/** FNV-1a over 64 bits (binary.hpp; section 2 of draft-eastlake-fnv). */
module Checksum {
  import opened Binary

  const FNV_SEED: Word := 0xcbf29ce484222325
  const FNV_PRIME := 0x100000001b3

  // The inverse of the prime modulo 2^64.
  const FNV_INVERSE := 0xce965057aff6957b

  // Exclusive or of the low n bits: each bit is the sum of two bits modulo 2.
  function Xor(a: nat, b: nat, n: nat): nat {
    if n == 0 then 0 else BitSum(a, b) + 2 * Xor(a / 2, b / 2, n - 1)
  }

  function BitSum(a: nat, b: nat): nat {
    (a % 2 + b % 2) % 2
  }

  // h ^= b touches the low byte only.
  function XorByte(h: Word, b: Byte): (r: Word)
    ensures r / 256 == h / 256
  {
    XorBelow(h % 256, b, 8);
    assert Pow2(8) == 256;
    WithLowByte(h, Xor(h % 256, b, 8))
  }

  function WithLowByte(h: Word, low: Byte): (r: Word)
    ensures r / 256 == h / 256 && r % 256 == low
  {
    h - h % 256 + low
  }

  lemma {:induction false} XorBelow(a: nat, b: nat, n: nat)
    ensures Xor(a, b, n) < Pow2(n)
  {
    if n > 0 { XorBelow(a / 2, b / 2, n - 1); }
  }

  // Xor with the same value twice gives the value back.
  lemma {:induction false} XorUndone(a: nat, b: nat, n: nat)
    requires a < Pow2(n)
    ensures Xor(Xor(a, b, n), b, n) == a
  {
    if n > 0 {
      var low, high := BitSum(a, b), Xor(a / 2, b / 2, n - 1);
      BitSumUndone(a, b);
      SplitBit(low, high);
      XorUndone(a / 2, b / 2, n - 1);
    }
  }

  lemma BitSumUndone(a: nat, b: nat)
    ensures BitSum(BitSum(a, b), b) == a % 2
  {
  }

  lemma SplitBit(low: nat, high: nat)
    requires low < 2
    ensures (low + 2 * high) % 2 == low && (low + 2 * high) / 2 == high
    ensures forall b: nat :: BitSum(low + 2 * high, b) == BitSum(low, b)
  {
  }

  lemma {:induction false} XorCommutes(a: nat, b: nat, n: nat)
    ensures Xor(a, b, n) == Xor(b, a, n)
  {
    if n > 0 { XorCommutes(a / 2, b / 2, n - 1); }
  }

  function FnvStep(h: Word, b: Byte): Word {
    (XorByte(h, b) * FNV_PRIME) % TWO64
  }

  function Fnv(data: seq<Byte>, seed: Word): Word {
    if data == [] then seed else FnvStep(Fnv(data[..|data| - 1], seed), data[|data| - 1])
  }

  method Fnv1a(data: seq<Byte>, seed: Word) returns (h: Word)
    ensures h == Fnv(data, seed)
  {
    h := seed;
    for i := 0 to |data|
      invariant h == Fnv(data[..i], seed)
    {
      assert data[..i + 1][..i] == data[..i];
      h := XorByte(h, data[i]);
      h := (h * FNV_PRIME) % TWO64;
    }
    assert data[..|data|] == data;
  }

  // --- Every step is a bijection of the state, and of the byte ------------------------

  lemma MultiplyUndone(x: Word)
    ensures ((x * FNV_PRIME) % TWO64 * FNV_INVERSE) % TWO64 == x
  {
    var p := x * FNV_PRIME;
    var q, r := p / TWO64, p % TWO64;
    var k := FNV_PRIME * FNV_INVERSE / TWO64;
    assert FNV_PRIME * FNV_INVERSE == 1 + k * TWO64;
    assert r * FNV_INVERSE == x + TWO64 * (x * k - q * FNV_INVERSE) by {
      assert r == x * FNV_PRIME - q * TWO64;
    }
    RemainderIs(r * FNV_INVERSE, x * k - q * FNV_INVERSE, x);
  }

  lemma RemainderIs(v: int, q: int, x: Word)
    requires v == x + TWO64 * q
    ensures v % TWO64 == x
  {
  }

  // The byte mixed in by a step is recovered by undoing the multiplication.
  lemma StepInjective(h: Word, g: Word, b: Byte, c: Byte)
    requires FnvStep(h, b) == FnvStep(g, c)
    ensures XorByte(h, b) == XorByte(g, c)
    ensures b == c ==> h == g
    ensures h == g ==> b == c
  {
    MultiplyUndone(XorByte(h, b));
    MultiplyUndone(XorByte(g, c));
    assert Pow2(8) == 256;
    assert XorByte(h, b) % 256 == Xor(h % 256, b, 8) by { XorBelow(h % 256, b, 8); }
    assert XorByte(g, c) % 256 == Xor(g % 256, c, 8) by { XorBelow(g % 256, c, 8); }
    if b == c {
      XorUndone(h % 256, b, 8);
      XorUndone(g % 256, b, 8);
    }
    if h == g {
      XorCommutes(h % 256, b, 8);
      XorCommutes(h % 256, c, 8);
      XorUndone(b, h % 256, 8);
      XorUndone(c, h % 256, 8);
    }
  }

  lemma {:induction false} FnvConcat(a: seq<Byte>, b: seq<Byte>, seed: Word)
    ensures Fnv(a + b, seed) == Fnv(b, Fnv(a, seed))
  {
    if b == [] {
      assert a + b == a;
    } else {
      var n := |b| - 1;
      assert (a + b)[..|a + b| - 1] == a + b[..n];
      FnvConcat(a, b[..n], seed);
    }
  }

  // The same bytes keep different states apart.
  lemma {:induction false} FnvInjective(data: seq<Byte>, s: Word, t: Word)
    requires Fnv(data, s) == Fnv(data, t)
    ensures s == t
  {
    if data != [] {
      var n := |data| - 1;
      StepInjective(Fnv(data[..n], s), Fnv(data[..n], t), data[n], data[n]);
      FnvInjective(data[..n], s, t);
    }
  }

  // Changing exactly one byte always changes the checksum.
  lemma OneByteDetected(data: seq<Byte>, i: nat, b: Byte, seed: Word)
    requires i < |data| && b != data[i]
    ensures Fnv(data[i := b], seed) != Fnv(data, seed)
  {
    var front, back := data[..i], data[i + 1..];
    assert data == front + [data[i]] + back && data[i := b] == front + [b] + back;
    FnvConcat(front + [data[i]], back, seed);
    FnvConcat(front + [b], back, seed);
    assert (front + [data[i]])[..i] == front && (front + [b])[..i] == front;
    if Fnv(data[i := b], seed) == Fnv(data, seed) {
      FnvInjective(back, Fnv(front + [data[i]], seed), Fnv(front + [b], seed));
      StepInjective(Fnv(front, seed), Fnv(front, seed), data[i], b);
    }
  }
}
