/** Where each field stands in the bytes, and what the codecs ask of a double
    (src/protocol/protocol.cpp, src/model/model.cpp, include/capacity_fabric/protocol/payload.hpp). */
module Layout {
  import opened Binary
  import opened Doubles
  import opened Checksum
  import opened Capacities
  import opened Payload
  import opened Persistence
  import Frames

  // The little-endian number in n bytes from offset i on.
  function NumberAt(b: Bytes, i: nat, n: nat): nat
    requires i + n <= |b|
  {
    FromLE(b[i..i + n])
  }

  // --- Frames -----------------------------------------------------------------------------

  // Magic, version, type, flags, sequence number and length of the payload; the payload; and
  // the checksum of all before it.
  lemma FrameLayout(m: Frames.Message)
    requires m.Bounded()
    ensures var (e, n) := (Frames.Encode(m), |m.payload|);
            && |e| == 15 + n + 8
            && NumberAt(e, 0, 4) == 0x43524643 && e[4] == 1 && e[5] == m.kind && e[6] == 0
            && NumberAt(e, 7, 4) == m.seqNo && NumberAt(e, 11, 4) == n
            && e[15..15 + n] == m.payload
            && NumberAt(e, 15 + n, 8) == Fnv(e[..15 + n], 0xcbf29ce484222325)
  {
    var h := Frames.Header(m.kind, 0, m.seqNo, |m.payload|);
    var sum := Fnv(h + m.payload, FNV_SEED);
    PowerSizes();
    Frames.HeaderFields(m.kind, 0, m.seqNo, |m.payload|);
    Frames.StartsLikeFrame(m, Frames.Encode(m));
    FrameSlices(h, m.payload, LE(sum, 8));
    LERoundTrip(sum, 8);
    assert h[6] == 0;
  }

  lemma FrameSlices(h: Bytes, payload: Bytes, sum: Bytes)
    requires |h| == 15 && |sum| == 8
    ensures var (e, end) := (h + payload + sum, 15 + |payload|);
            && e[..15] == h && e[15..end] == payload && e[..end] == h + payload && e[end..end + 8] == sum
            && e[6] == h[6]
  {
  }

  // --- Files ------------------------------------------------------------------------------

  // Magic, version and length; the body; and its checksum.
  ghost predicate IsFile(f: Bytes, body: Bytes) {
    var n := |body|;
    && |f| == 12 + n + 8
    && NumberAt(f, 0, 4) == 0x43464231 && NumberAt(f, 4, 4) == 1 && NumberAt(f, 8, 4) == n + 8
    && f[12..12 + n] == body && NumberAt(f, 12 + n, 8) == Fnv(body, 0xcbf29ce484222325)
  }

  // The body starts with the epoch.
  lemma FileLayout(d: Durable)
    requires |EncBody(d)| + 8 < TWO32
    ensures IsFile(Save(d), EncBody(d))
    ensures |EncBody(d)| >= 8 && NumberAt(EncBody(d), 0, 8) == d.epoch
  {
    EpochFirst(d);
    FileIsFile(EncBody(d));
  }

  lemma FileIsFile(body: Bytes)
    requires |body| + 8 < TWO32
    ensures IsFile(FileOf(body), body)
  {
    SealedTail(body);
    FramedFacts(Frames.Sealed(body));
    Assembled(FileOf(body), Frames.Sealed(body), body);
  }

  lemma Assembled(f: Bytes, sealed: Bytes, body: Bytes)
    requires |sealed| == |body| + 8 < TWO32
    requires sealed[..|body|] == body && FromLE(sealed[|body|..]) == Fnv(body, FNV_SEED)
    requires |f| == |sealed| + 12 && HasHeader(f, |sealed|) && f[12..] == sealed
    ensures IsFile(f, body)
  {
    var n := |body|;
    assert f[0..4] == f[..4];
    assert f[12..12 + n] == sealed[..n] && f[12 + n..12 + n + 8] == sealed[n..];
  }

  lemma EpochFirst(d: Durable)
    ensures |EncBody(d)| >= 8 && NumberAt(EncBody(d), 0, 8) == d.epoch
  {
    PowerSizes();
    LERoundTrip(d.epoch, 8);
    Regroup4(LE(d.epoch, 8), EncMany(d.resources, EncDurable), EncMany(d.reservations, EncReservation),
             EncMany(d.releases, EncRelease), EncMany(d.history, EncForecast));
    assert EncBody(d)[0..8] == LE(d.epoch, 8);
  }

  // --- Records ----------------------------------------------------------------------------

  lemma ReservationLayout(r: WireReservation)
    ensures var b := EncReservation(r);
            && |b| == 41
            && NumberAt(b, 0, 8) == r.id && NumberAt(b, 8, 8) == r.generation
            && NumberAt(b, 16, 8) == ToWord(r.start) && NumberAt(b, 24, 8) == ToWord(r.end)
            && b[32] == r.strength && NumberAt(b, 33, 8) == Payload.At(r.hold, 0)
  {
    SixFields(LE(r.id, 8), LE(r.generation, 8), LE(ToWord(r.start), 8), LE(ToWord(r.end), 8), [r.strength],
              LE(Payload.At(r.hold, 0), 8));
    PowerSizes();
    LERoundTrip(r.id, 8);
    LERoundTrip(r.generation, 8);
    LERoundTrip(ToWord(r.start), 8);
    LERoundTrip(ToWord(r.end), 8);
    LERoundTrip(Payload.At(r.hold, 0), 8);
  }

  lemma SixFields(a: Bytes, b: Bytes, c: Bytes, d: Bytes, e: Bytes, f: Bytes)
    requires |a| == |b| == |c| == |d| == |f| == 8
    ensures var s := a + b + c + d + e + f;
            && s[0..8] == a && s[8..16] == b && s[16..24] == c && s[24..32] == d
            && s[32..32 + |e|] == e && s[32 + |e|..40 + |e|] == f && |s| == 40 + |e|
            && (|e| == 1 ==> s[32] == e[0])
  {
  }

  lemma ReleaseLayout(e: WireRelease)
    ensures var b := EncRelease(e);
            && |b| == 48
            && NumberAt(b, 0, 8) == e.sourceId && NumberAt(b, 8, 8) == ToWord(e.time)
            && NumberAt(b, 16, 8) == ToWord(e.earliest) && NumberAt(b, 24, 8) == ToWord(e.latest)
            && NumberAt(b, 32, 8) == e.confidence && NumberAt(b, 40, 8) == Payload.At(e.release, 0)
  {
    SixFields(LE(e.sourceId, 8), LE(ToWord(e.time), 8), LE(ToWord(e.earliest), 8), LE(ToWord(e.latest), 8),
              LE(e.confidence, 8), LE(Payload.At(e.release, 0), 8));
    PowerSizes();
    LERoundTrip(e.sourceId, 8);
    LERoundTrip(ToWord(e.time), 8);
    LERoundTrip(ToWord(e.earliest), 8);
    LERoundTrip(ToWord(e.latest), 8);
    LERoundTrip(e.confidence, 8);
    LERoundTrip(Payload.At(e.release, 0), 8);
  }

  lemma IdentityLayout(i: Identity)
    ensures var b := EncIdentity(i);
            && |b| == 58
            && NumberAt(b, 0, 8) == i.id && NumberAt(b, 8, 8) == i.generation && NumberAt(b, 16, 8) == i.fleetId
            && NumberAt(b, 24, 8) == i.nodeId && NumberAt(b, 32, 8) == i.deviceId && NumberAt(b, 40, 8) == i.worker
            && NumberAt(b, 48, 8) == i.bootId && b[56] == i.kind && b[57] == i.health
  {
    var six := LE(i.id, 8) + LE(i.generation, 8) + LE(i.fleetId, 8) + LE(i.nodeId, 8) + LE(i.deviceId, 8)
               + LE(i.worker, 8);
    SixFields(LE(i.id, 8), LE(i.generation, 8), LE(i.fleetId, 8), LE(i.nodeId, 8), LE(i.deviceId, 8), LE(i.worker, 8));
    IdentityTail(six, LE(i.bootId, 8), i.kind, i.health);
    PowerSizes();
    LERoundTrip(i.id, 8);
    LERoundTrip(i.generation, 8);
    LERoundTrip(i.fleetId, 8);
    LERoundTrip(i.nodeId, 8);
    LERoundTrip(i.deviceId, 8);
    LERoundTrip(i.worker, 8);
    LERoundTrip(i.bootId, 8);
  }

  lemma IdentityTail(six: Bytes, boot: Bytes, kind: Byte, health: Byte)
    requires |six| == 48 && |boot| == 8
    ensures var b := six + boot + [kind] + [health];
            && |b| == 58 && b[48..56] == boot && b[56] == kind && b[57] == health
            && forall i, j | 0 <= i <= j <= 48 :: b[i..j] == six[i..j]
  {
  }

  lemma ForecastLayout(f: Forecast)
    ensures var b := EncForecast(f);
            && |b| == 24
            && NumberAt(b, 0, 8) == ToWord(f.at) && NumberAt(b, 8, 8) == f.expected
            && NumberAt(b, 16, 8) == f.observed
  {
    PowerSizes();
    LERoundTrip(ToWord(f.at), 8);
    LERoundTrip(f.expected, 8);
    LERoundTrip(f.observed, 8);
    ThreeFields(LE(ToWord(f.at), 8), LE(f.expected, 8), LE(f.observed, 8));
  }

  lemma ThreeFields(a: Bytes, b: Bytes, c: Bytes)
    ensures var (s, i, j) := (a + b + c, |a|, |a| + |b|);
            |s| == j + |c| && s[0..i] == a && s[i..j] == b && s[j..j + |c|] == c
  {
  }

  // --- Amounts ----------------------------------------------------------------------------

  // How many dimensions from `from` on and below d are stored.
  function Rank(c: Words, from: nat, d: nat): nat {
    |set k: Dimension | k in c && from <= k < d|
  }

  lemma RankStep(c: Words, from: Dimension, d: Dimension)
    requires from < d
    ensures Rank(c, from, d) == (if from in c then 1 else 0) + Rank(c, from + 1, d)
  {
    var more := set k: Dimension | k in c && from + 1 <= k < d;
    assert (set k: Dimension | k in c && from <= k < d) == if from in c then more + {from} else more;
  }

  lemma RankOfFirst(c: Words, d: nat)
    ensures Rank(c, d, d) == 0
  {
    assert (set k: Dimension | k in c && d <= k < d) == {};
  }

  // At offset i of b stand the byte d and the word w.
  ghost predicate EntryAt(b: Bytes, i: nat, d: Byte, w: Word) {
    i + 9 <= |b| && b[i] == d && NumberAt(b, i + 1, 8) == w
  }

  lemma EntryBehind(front: Bytes, b: Bytes, i: nat, d: Byte, w: Word)
    requires EntryAt(b, i, d, w)
    ensures EntryAt(front + b, |front| + i, d, w)
  {
    assert (front + b)[|front| + i + 1..|front| + i + 9] == b[i + 1..i + 9];
  }

  lemma EntryFirst(d: Byte, w: Word, rest: Bytes)
    ensures EntryAt([d] + LE(w, 8) + rest, 0, d, w)
  {
    PowerSizes();
    LERoundTrip(w, 8);
    assert ([d] + LE(w, 8) + rest)[1..9] == LE(w, 8);
  }

  lemma {:induction false} EntriesLayout(c: Words, from: nat, d: Dimension)
    requires from <= d && d in c
    ensures EntryAt(EncEntries(c, from), 9 * Rank(c, from, d), d, c[d])
    decreases 256 - from
  {
    if from == d {
      RankOfFirst(c, d);
      EntryFirst(d, c[d], EncEntries(c, d + 1));
    } else {
      RankStep(c, from, d);
      EntriesLayout(c, from + 1, d);
      if from in c {
        EntryBehind([from] + LE(c[from], 8), EncEntries(c, from + 1), 9 * Rank(c, from + 1, d), d, c[d]);
      }
    }
  }

  lemma {:induction false} EntriesSize(c: Words, from: nat)
    requires from <= 256
    ensures |EncEntries(c, from)| == 9 * CountFrom(c, from)
    decreases 256 - from
  {
    if from < 256 { EntriesSize(c, from + 1); }
  }

  // The number of entries; then each in the order of the dimensions, as a byte and a word.
  lemma CapacityLayout(c: Words, d: Dimension)
    ensures var b := EncCapacity(c);
            && |b| == 4 + 9 * |c| && NumberAt(b, 0, 4) == |c|
            && (d in c ==> EntryAt(b, 4 + 9 * Rank(c, 0, d), d, c[d]))
  {
    SizeIsCount(c);
    EntriesSize(c, 0);
    PowerSizes();
    LERoundTrip(|c|, 4);
    CountFirst(LE(|c|, 4), EncEntries(c, 0));
    if d in c {
      EntriesLayout(c, 0, d);
      EntryBehind(LE(|c|, 4), EncEntries(c, 0), 9 * Rank(c, 0, d), d, c[d]);
    }
  }

  lemma CountFirst(count: Bytes, rest: Bytes)
    ensures (count + rest)[0..|count|] == count && (count + rest)[|count|..] == rest
  {
  }

  // --- Texts, demands and resources -----------------------------------------------------------

  // At offset i stand the length of the text and the text.
  ghost predicate TextAt(b: Bytes, i: nat, text: Bytes) {
    && i + 4 + |text| <= |b|
    && NumberAt(b, i, 4) == |text| && b[i + 4..i + 4 + |text|] == text
  }

  lemma TextBetween(front: Bytes, text: Bytes, rest: Bytes)
    requires |text| < TWO32
    ensures TextAt(front + PutBytes(text) + rest, |front|, text)
    ensures |PutBytes(text)| == 4 + |text|
  {
    PowerSizes();
    var n: Word32 := |text|;
    assert n % TWO32 == n;
    LERoundTrip(n, 4);
    TextFields(front, LE(n, 4), text, rest);
  }

  lemma TextFields(front: Bytes, count: Bytes, text: Bytes, rest: Bytes)
    requires |count| == 4
    ensures var (b, i) := (front + (count + text) + rest, |front|);
            b[i..i + 4] == count && b[i + 4..i + 4 + |text|] == text
  {
  }

  // Architecture, class and name.
  lemma CapabilityLayout(c: Capability)
    requires Encodable(c)
    ensures var b := EncCapability(c);
            && |b| == 12 + |c.architecture| + |c.className| + |c.name|
            && TextAt(b, 0, c.architecture) && TextAt(b, 4 + |c.architecture|, c.className)
            && TextAt(b, 8 + |c.architecture| + |c.className|, c.name)
  {
    var (x, y, z) := (PutBytes(c.architecture), PutBytes(c.className), PutBytes(c.name));
    assert EncCapability(c) == [] + x + (y + z) == x + y + z == (x + y) + z + [];
    TextBetween([], c.architecture, y + z);
    TextBetween(x, c.className, z);
    TextBetween(x + y, c.name, []);
  }

  lemma FiveNumbers(r: DurableResource)
    ensures var b := EncId(r);
            && |b| == 40
            && NumberAt(b, 0, 8) == r.id && NumberAt(b, 8, 8) == r.generation && NumberAt(b, 16, 8) == r.fleetId
            && NumberAt(b, 24, 8) == r.nodeId && NumberAt(b, 32, 8) == r.deviceId
  {
    PowerSizes();
    LERoundTrip(r.id, 8);
    LERoundTrip(r.generation, 8);
    LERoundTrip(r.fleetId, 8);
    LERoundTrip(r.nodeId, 8);
    LERoundTrip(r.deviceId, 8);
    FiveFields(LE(r.id, 8), LE(r.generation, 8), LE(r.fleetId, 8), LE(r.nodeId, 8), LE(r.deviceId, 8));
  }

  lemma FiveFields(a: Bytes, b: Bytes, c: Bytes, d: Bytes, e: Bytes)
    requires |a| == |b| == |c| == |d| == |e| == 8
    ensures var s := a + b + c + d + e;
            s[0..8] == a && s[8..16] == b && s[16..24] == c && s[24..32] == d && s[32..40] == e
  {
  }

  // A durable resource: five numbers, the capability, two numbers, health and kind.
  lemma DurableLayout(r: DurableResource)
    ensures var (b, n) := (EncDurable(r), 40 + |EncCapability(r.capability)|);
            && |b| == n + 18
            && NumberAt(b, 0, 8) == r.id && NumberAt(b, 8, 8) == r.generation && NumberAt(b, 16, 8) == r.fleetId
            && NumberAt(b, 24, 8) == r.nodeId && NumberAt(b, 32, 8) == r.deviceId
            && b[40..n] == EncCapability(r.capability)
            && NumberAt(b, n, 8) == r.vram && NumberAt(b, n + 8, 8) == r.accelerators
            && b[n + 16] == r.health && b[n + 17] == r.kind
  {
    FiveNumbers(r);
    PowerSizes();
    LERoundTrip(r.vram, 8);
    LERoundTrip(r.accelerators, 8);
    DurableParts(EncId(r), EncCapability(r.capability), LE(r.vram, 8), LE(r.accelerators, 8), [r.health], [r.kind]);
  }

  lemma DurableParts(five: Bytes, text: Bytes, v: Bytes, a: Bytes, h: Bytes, k: Bytes)
    requires |five| == 40 && |v| == |a| == 8 && |h| == |k| == 1
    ensures var (b, n) := (five + text + (v + a + h + k), 40 + |text|);
            && |b| == n + 18 && b[40..n] == text && b[n..n + 8] == v && b[n + 8..n + 16] == a
            && b[n + 16] == h[0] && b[n + 17] == k[0]
            && b[0..8] == five[0..8] && b[8..16] == five[8..16] && b[16..24] == five[16..24]
            && b[24..32] == five[24..32] && b[32..40] == five[32..40]
  {
  }

  // A demand: id and generation, the requirements, the accelerators, and the block needed.
  lemma DemandLayout(d: WireDemand)
    ensures var (b, n) := (EncDemand(d), |EncDemand(d)| - 17);
            && n >= 16
            && NumberAt(b, 0, 8) == d.id && NumberAt(b, 8, 8) == d.generation
            && b[16..n] == EncCapacity(d.requirements)
            && NumberAt(b, n, 8) == d.minAccelerators && b[n + 8] == (if d.requiresContiguousVram then 1 else 0)
            && NumberAt(b, n + 9, 8) == d.minContiguousVram
  {
    PowerSizes();
    LERoundTrip(d.id, 8);
    LERoundTrip(d.generation, 8);
    LERoundTrip(d.minAccelerators, 8);
    LERoundTrip(d.minContiguousVram, 8);
    DemandParts(LE(d.id, 8), LE(d.generation, 8), EncCapacity(d.requirements), LE(d.minAccelerators, 8),
                [Flag(d.requiresContiguousVram)], LE(d.minContiguousVram, 8));
  }

  lemma DemandParts(a: Bytes, b: Bytes, req: Bytes, m: Bytes, f: Bytes, v: Bytes)
    requires |a| == |b| == |m| == |v| == 8 && |f| == 1
    ensures var (s, n) := (a + b + req + (m + f + v), 16 + |req|);
            && |s| == n + 17 && s[0..8] == a && s[8..16] == b && s[16..n] == req
            && s[n..n + 8] == m && s[n + 8] == f[0] && s[n + 9..n + 17] == v
  {
  }

  // A resource: identity and capability; nominal, free, committed and unavailable amounts;
  // drained, maintenance and provenance; the number of its free blocks, and the blocks.
  lemma ResourceLayout(r: WireResource)
    requires |r.freeBlocks| < TWO32
    ensures EncResource(r)
            == EncIdentity(r.identity) + EncCapability(r.capability)
               + EncCapacity(r.shares.nominal) + EncCapacity(r.shares.free)
               + EncCapacity(r.shares.committed) + EncCapacity(r.shares.unavailable)
               + [if r.condition.drained then 1 else 0, if r.condition.maintenance then 1 else 0,
                  r.condition.provenance]
               + LE(|r.freeBlocks|, 4) + EncBlocks(r.freeBlocks)
  {
    var n: Word32 := |r.freeBlocks|;
    assert n % TWO32 == n;
    var (c, x) := (r.condition, r.shares);
    assert EncCondition(c) == [if c.drained then 1 else 0, if c.maintenance then 1 else 0, c.provenance];
    ResourceParts(EncIdentity(r.identity), EncCapability(r.capability), EncCapacity(x.nominal), EncCapacity(x.free),
                  EncCapacity(x.committed), EncCapacity(x.unavailable), EncCondition(c), LE(n, 4),
                  EncBlocks(r.freeBlocks));
  }

  lemma ResourceParts(i: Bytes, t: Bytes, a: Bytes, b: Bytes, c: Bytes, d: Bytes, f: Bytes, n: Bytes, bs: Bytes)
    ensures i + t + (a + b + c + d) + f + (n + bs) == i + t + a + b + c + d + f + n + bs
  {
    Regroup4(i + t, a, b, c, d);
    assert i + t + (a + b + c + d) == i + t + a + b + c + d;
  }

  lemma {:induction false} BlocksLayout(blocks: seq<Word>, k: nat)
    requires k < |blocks|
    ensures |EncBlocks(blocks)| == 8 * |blocks| && NumberAt(EncBlocks(blocks), 8 * k, 8) == blocks[k]
  {
    var rest := EncBlocks(blocks[1..]);
    PowerSizes();
    LERoundTrip(blocks[0], 8);
    CountFirst(LE(blocks[0], 8), rest);
    if |blocks| > 1 { BlocksLayout(blocks[1..], if k > 0 then k - 1 else 0); }
    if k > 0 {
      assert (LE(blocks[0], 8) + rest)[8 * k..8 * k + 8] == rest[8 * (k - 1)..8 * (k - 1) + 8];
    }
  }

  // --- The checksum -------------------------------------------------------------------------

  lemma OneBit(a: nat, b: nat, n: nat, rest: nat)
    requires n > 0 && Xor(a / 2, b / 2, n - 1) == rest
    ensures Xor(a, b, n) == (a % 2 + b % 2) % 2 + 2 * rest
  {
  }

  // 0x25 and 0x61, bit by bit.
  lemma XorVector(a: nat, b: nat, n: nat)
    requires a == 0x25 && b == 0x61 && n == 8
    ensures Xor(a, b, n) == 0x44
  {
    OneBit(a / 128, b / 128, n - 7, 0);
    OneBit(a / 64, b / 64, n - 6, 0);
    OneBit(a / 32, b / 32, n - 5, 1);
    OneBit(a / 16, b / 16, n - 4, 2);
    OneBit(a / 8, b / 8, n - 3, 4);
    OneBit(a / 4, b / 4, n - 2, 8);
    OneBit(a / 2, b / 2, n - 1, 17);
    OneBit(a, b, n, 34);
  }

  lemma StepVector(h: Word, b: Byte)
    requires h == 0xcbf29ce484222325 && b == 0x61
    ensures FnvStep(h, b) == 0xaf63dc4c8601ec8c
  {
    var low: nat, n: nat := h % 256, 8;
    assert low == 0x25;
    XorVector(low, b, n);
    MixedVector(XorByte(h, b), h, Xor(low, b, n));
  }

  lemma MixedVector(x: Word, h: Word, low: Byte)
    requires h == 0xcbf29ce484222325 && low == 0x44 && x == h - h % 256 + low
    ensures (x * FNV_PRIME) % TWO64 == 0xaf63dc4c8601ec8c
  {
    assert x == 0xcbf29ce484222344;
  }

  // Two of the published test vectors: the empty string and "a".
  lemma ChecksumVectors(data: Bytes)
    ensures data == [] ==> Fnv(data, FNV_SEED) == 0xcbf29ce484222325
    ensures data == [0x61] ==> Fnv(data, FNV_SEED) == 0xaf63dc4c8601ec8c
  {
    if data == [0x61] {
      assert data[..0] == [] && Fnv(data, FNV_SEED) == FnvStep(Fnv([], FNV_SEED), data[0]);
      StepVector(FNV_SEED, data[0]);
    }
  }

  // --- Doubles ------------------------------------------------------------------------------

  // The sign test and the range test of the codecs are those of the values.
  lemma SignIs(w: Word)
    ensures IsNegative(w) <==> RealOf(w) < 0.0
    ensures IsZero(w) <==> RealOf(w) == 0.0
  {
    assert Significand(0) == 0;
    if w >= NEGATIVE_ZERO {
      SignFlips(w);
      ZeroIsLeast(w - NEGATIVE_ZERO);
    } else {
      ZeroIsLeast(w);
    }
  }

  lemma OneIsOne()
    ensures RealOf(ONE) == 1.0
  {
    assert Exponent(ONE) == 1023 && ONE % FRACTION == 0 && Place(ONE) == -52;
    FractionIsPower(52);
    ScaledDown(Value(FRACTION, -52), FRACTION, -52);
  }

  lemma UnitIs(w: Word)
    ensures InUnit(w) <==> IsFinite(w) && 0.0 <= RealOf(w) <= 1.0
  {
    SignIs(w);
    OneIsOne();
    if w < ONE {
      WordsOrdered(w, ONE);
      BelowOneFinite(w);
    } else if ONE < w < NEGATIVE_ZERO {
      WordsOrdered(ONE, w);
    }
  }

  lemma BelowOneFinite(w: Word)
    requires w <= ONE
    ensures IsFinite(w)
  {
    assert w / FRACTION <= 1023;
  }
}
