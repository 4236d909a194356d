/** Little-endian byte encoding, the writer and the reader
    (include/capacity_fabric/persistence/binary.hpp).

    Bytes and words are integers; `v |= b << 8i` on disjoint bits is written as a
    sum.  A double travels as the 64-bit word of its bits. */
module Binary {
  import opened Wrappers

  type Byte = b: int | 0 <= b < 256
  const TWO64 := 0x1_0000_0000_0000_0000
  const TWO63 := 0x8000_0000_0000_0000
  const TWO32 := 0x1_0000_0000
  type Word = w: int | 0 <= w < TWO64
  type Word32 = w: int | 0 <= w < TWO32
  type Signed = i: int | -TWO63 <= i < TWO63

  // --- Little-endian integers ------------------------------------------------------

  // The low n bytes of v, least significant first.
  function LE(v: nat, n: nat): (r: seq<Byte>)
    ensures |r| == n
  {
    if n == 0 then [] else [v % 256] + LE(v / 256, n - 1)
  }

  function FromLE(bytes: seq<Byte>): nat {
    if bytes == [] then 0 else bytes[0] + 256 * FromLE(bytes[1..])
  }

  function Pow2(n: nat): (r: nat)
    ensures r > 0
  {
    if n == 0 then 1 else 2 * Pow2(n - 1)
  }

  function Pow256(n: nat): nat {
    if n == 0 then 1 else 256 * Pow256(n - 1)
  }

  lemma {:induction false} LERoundTrip(v: nat, n: nat)
    requires v < Pow256(n)
    ensures FromLE(LE(v, n)) == v
  {
    if n > 0 {
      LERoundTrip(v / 256, n - 1);
      assert LE(v, n)[1..] == LE(v / 256, n - 1);
    }
  }

  lemma {:induction false} FromLERoundTrip(bytes: seq<Byte>)
    ensures FromLE(bytes) < Pow256(|bytes|) && LE(FromLE(bytes), |bytes|) == bytes
  {
    if bytes != [] {
      FromLERoundTrip(bytes[1..]);
      assert bytes == [bytes[0]] + bytes[1..];
    }
  }

  lemma PowerSizes()
    ensures Pow256(4) == TWO32 && Pow256(8) == TWO64
  {
    assert Pow256(2) == 65536 && Pow256(4) == TWO32;
    assert Pow256(6) == 65536 * TWO32;
  }

  // --- Signed integers in two's complement -----------------------------------------

  function ToWord(i: Signed): Word {
    if i < 0 then i + TWO64 else i
  }

  function FromWord(w: Word): (i: Signed)
    ensures ToWord(i) == w
  {
    if w >= TWO63 then w - TWO64 else w
  }

  // --- Reading from the front of the remaining bytes ---------------------------------

  function Get(s: seq<Byte>, n: nat): Option<(nat, seq<Byte>)> {
    if |s| < n then None else Some((FromLE(s[..n]), s[n..]))
  }

  function GetU8(s: seq<Byte>): Option<(Byte, seq<Byte>)> {
    if s == [] then None else Some((s[0], s[1..]))
  }

  function GetU32(s: seq<Byte>): Option<(Word32, seq<Byte>)> {
    if |s| < 4 then None
    else
      FromLERoundTrip(s[..4]);
      PowerSizes();
      Some((FromLE(s[..4]), s[4..]))
  }

  function GetU64(s: seq<Byte>): Option<(Word, seq<Byte>)> {
    if |s| < 8 then None
    else
      FromLERoundTrip(s[..8]);
      PowerSizes();
      Some((FromLE(s[..8]), s[8..]))
  }

  function GetI64(s: seq<Byte>): Option<(Signed, seq<Byte>)> {
    var (w, rest) :- GetU64(s);
    Some((FromWord(w), rest))
  }

  function GetBytes(s: seq<Byte>): Option<(seq<Byte>, seq<Byte>)> {
    var (n, rest) :- GetU32(s);
    if |rest| < n then None else Some((rest[..n], rest[n..]))
  }

  // A length-prefixed byte string, as the writer puts it.
  function PutBytes(b: seq<Byte>): seq<Byte> {
    LE(|b| % TWO32, 4) + b
  }

  lemma GetPutU8(b: Byte, rest: seq<Byte>)
    ensures GetU8([b] + rest) == Some((b, rest))
  {
  }

  lemma GetPutU32(w: Word32, rest: seq<Byte>)
    ensures GetU32(LE(w, 4) + rest) == Some((w, rest))
  {
    PowerSizes();
    LERoundTrip(w, 4);
    assert (LE(w, 4) + rest)[..4] == LE(w, 4) && (LE(w, 4) + rest)[4..] == rest;
  }

  lemma GetPutU64(w: Word, rest: seq<Byte>)
    ensures GetU64(LE(w, 8) + rest) == Some((w, rest))
  {
    PowerSizes();
    LERoundTrip(w, 8);
    assert (LE(w, 8) + rest)[..8] == LE(w, 8) && (LE(w, 8) + rest)[8..] == rest;
  }

  lemma GetPutI64(i: Signed, rest: seq<Byte>)
    ensures GetI64(LE(ToWord(i), 8) + rest) == Some((i, rest))
  {
    GetPutU64(ToWord(i), rest);
  }

  lemma GetPutBytes(b: seq<Byte>, rest: seq<Byte>)
    requires |b| < TWO32
    ensures GetBytes(PutBytes(b) + rest) == Some((b, rest))
  {
    assert PutBytes(b) + rest == LE(|b|, 4) + (b + rest);
    GetPutU32(|b|, b + rest);
    assert (b + rest)[..|b|] == b && (b + rest)[|b|..] == rest;
  }

  // --- The writer and the reader -------------------------------------------------------

  class BinaryWriter {
    var buf: seq<Byte>

    constructor ()
      ensures buf == []
    {
      buf := [];
    }

    method WriteU8(v: Byte)
      modifies this
      ensures buf == old(buf) + [v]
    {
      buf := buf + [v];
    }

    method WriteLE(v: nat, n: nat)
      modifies this
      ensures buf == old(buf) + LE(v, n)
    {
      var shifted := v;
      for i := 0 to n
        invariant buf + LE(shifted, n - i) == old(buf) + LE(v, n)
      {
        buf := buf + [shifted % 256];
        shifted := shifted / 256;
      }
    }

    method WriteU32(v: Word32)
      modifies this
      ensures buf == old(buf) + LE(v, 4)
    {
      WriteLE(v, 4);
    }

    method WriteU64(v: Word)
      modifies this
      ensures buf == old(buf) + LE(v, 8)
    {
      WriteLE(v, 8);
    }

    method WriteI64(v: Signed)
      modifies this
      ensures buf == old(buf) + LE(ToWord(v), 8)
    {
      WriteU64(ToWord(v));
    }

    method WriteBytes(b: seq<Byte>)
      modifies this
      ensures buf == old(buf) + PutBytes(b)
    {
      WriteU32(|b| % TWO32);
      buf := buf + b;
    }
  }

  class BinaryReader {
    const data: seq<Byte>
    var pos: nat

    ghost predicate Valid()
      reads this
    {
      pos <= |data|
    }

    function Rest(): seq<Byte>
      reads this
      requires Valid()
    {
      data[pos..]
    }

    constructor (data: seq<Byte>)
      ensures Valid() && this.data == data && pos == 0 && Rest() == data
    {
      this.data := data;
      pos := 0;
    }

    method ReadU8() returns (r: Option<Byte>)
      requires Valid()
      modifies this
      ensures Valid()
      ensures r.Some? ==> GetU8(old(Rest())) == Some((r.value, Rest()))
      ensures r.None? ==> GetU8(old(Rest())).None? && pos == old(pos)
    {
      if pos + 1 > |data| { return None; }
      r := Some(data[pos]);
      pos := pos + 1;
    }

    // The or-shift loop of readU32 and readU64.
    method ReadLE(n: nat) returns (r: Option<nat>)
      requires Valid()
      modifies this
      ensures Valid()
      ensures r.Some? ==> Get(old(Rest()), n) == Some((r.value, Rest()))
      ensures r.None? ==> Get(old(Rest()), n).None? && pos == old(pos)
    {
      if pos + n > |data| { return None; }
      var v: nat, place: nat := 0, 1;
      ghost var start := pos;
      for i := 0 to n
        invariant pos == start + i <= |data|
        invariant place == Pow256(i) && v == FromLE(data[start..start + i])
      {
        FromLENext(data[start..pos], data[pos]);
        assert data[start..pos + 1] == data[start..pos] + [data[pos]];
        v := v + data[pos] * place;
        place := place * 256;
        pos := pos + 1;
      }
      assert data[start..][..n] == data[start..pos];
      r := Some(v);
    }

    method ReadU32() returns (r: Option<Word32>)
      requires Valid()
      modifies this
      ensures Valid()
      ensures r.Some? ==> GetU32(old(Rest())) == Some((r.value, Rest()))
      ensures r.None? ==> GetU32(old(Rest())).None? && pos == old(pos)
    {
      var v := ReadLE(4);
      r := if v.None? then None else (assert GetU32(old(Rest())).Some?; Some(v.value));
    }

    method ReadU64() returns (r: Option<Word>)
      requires Valid()
      modifies this
      ensures Valid()
      ensures r.Some? ==> GetU64(old(Rest())) == Some((r.value, Rest()))
      ensures r.None? ==> GetU64(old(Rest())).None? && pos == old(pos)
    {
      var v := ReadLE(8);
      r := if v.None? then None else (assert GetU64(old(Rest())).Some?; Some(v.value));
    }

    method ReadI64() returns (r: Option<Signed>)
      requires Valid()
      modifies this
      ensures Valid()
      ensures r.Some? ==> GetI64(old(Rest())) == Some((r.value, Rest()))
      ensures r.None? ==> GetI64(old(Rest())).None? && pos == old(pos)
    {
      var w := ReadU64();
      r := if w.None? then None else Some(FromWord(w.value));
    }

    // A failed read of the contents has already consumed the length.
    method ReadBytes() returns (r: Option<seq<Byte>>)
      requires Valid()
      modifies this
      ensures Valid()
      ensures r.Some? ==> GetBytes(old(Rest())) == Some((r.value, Rest()))
      ensures r.None? ==> GetBytes(old(Rest())).None?
                          && pos == old(pos) + if |old(Rest())| < 4 then 0 else 4
    {
      var n := ReadU32();
      if n.None? { return None; }
      if pos + n.value > |data| { return None; }
      assert Rest()[..n.value] == data[pos..pos + n.value];
      r := Some(data[pos..pos + n.value]);
      pos := pos + n.value;
    }
  }

  lemma {:induction false} FromLENext(bytes: seq<Byte>, b: Byte)
    ensures FromLE(bytes + [b]) == FromLE(bytes) + b * Pow256(|bytes|)
  {
    if bytes == [] {
      assert [b][1..] == [];
    } else {
      FromLENext(bytes[1..], b);
      assert (bytes + [b])[1..] == bytes[1..] + [b];
      var p := Pow256(|bytes| - 1);
      assert 256 * (b * p) == b * (256 * p);
    }
  }
}
