/** Records carried in frames (include/capacity_fabric/protocol/payload.hpp).

    Amounts are kept as the words that travel; enumerations are any byte. */
module Payload {
  import opened Wrappers
  import opened Binary
  import opened Doubles
  import opened Capacities

  type Bytes = seq<Byte>
  type Words = map<Dimension, Word>

  // Appending groups to the right.
  lemma Regroup2(a: Bytes, b: Bytes, c: Bytes)
    ensures a + b + c == a + (b + c)
  {
  }

  lemma Regroup4(a: Bytes, b: Bytes, c: Bytes, d: Bytes, rest: Bytes)
    ensures a + b + c + d + rest == a + (b + (c + (d + rest)))
  {
  }

  lemma Regroup3(a: Bytes, b: Bytes, c: Bytes, rest: Bytes)
    ensures a + b + c + rest == a + (b + c + rest) && b + c + rest == b + (c + rest)
  {
  }

  // --- Capacities ---------------------------------------------------------------------

  // The entries with keys from d on, in key order.
  function EncEntries(c: Words, d: nat): Bytes
    requires d <= 256
    decreases 256 - d
  {
    if d == 256 then []
    else if d in c then [d] + LE(c[d], 8) + EncEntries(c, d + 1)
    else EncEntries(c, d + 1)
  }

  function CountFrom(c: Words, d: nat): nat
    requires d <= 256
    decreases 256 - d
  {
    if d == 256 then 0 else (if d in c then 1 else 0) + CountFrom(c, d + 1)
  }

  function KeysFrom(c: Words, d: nat): set<Dimension> {
    set k: Dimension | k in c && d <= k
  }

  lemma KeysStep(c: Words, d: Dimension)
    ensures |KeysFrom(c, d)| == (if d in c then 1 else 0) + |KeysFrom(c, d + 1)|
  {
    if d in c {
      assert KeysFrom(c, d) == KeysFrom(c, d + 1) + {d};
    } else {
      assert KeysFrom(c, d) == KeysFrom(c, d + 1);
    }
  }

  lemma {:induction false} CountIsSize(c: Words, d: nat)
    requires d <= 256
    ensures CountFrom(c, d) == |KeysFrom(c, d)| && CountFrom(c, d) <= 256 - d
    decreases 256 - d
  {
    if d < 256 {
      KeysStep(c, d);
      CountIsSize(c, d + 1);
    } else {
      assert KeysFrom(c, d) == {};
    }
  }

  lemma SizeIsCount(c: Words)
    ensures |c| == CountFrom(c, 0) <= 256
  {
    CountIsSize(c, 0);
    assert KeysFrom(c, 0) == c.Keys;
  }

  function EncCapacity(c: Words): Bytes {
    LE(|c|, 4) + EncEntries(c, 0)
  }

  // What setAmount takes.
  predicate Acceptable(w: Word) {
    IsFinite(w) && !IsNegative(w)
  }

  function SetWord(c: Words, d: Dimension, w: Word): Option<Words> {
    if !Acceptable(w) then None
    else if IsZero(w) then Some(c - {d})
    else Some(c[d := w])
  }

  function ReadEntries(s: Bytes, n: nat, c: Words): Option<(Words, Bytes)> {
    if n == 0 then Some((c, s))
    else
      var (d, s1) :- GetU8(s);
      var (w, s2) :- GetU64(s1);
      var c1 :- SetWord(c, d, w);
      ReadEntries(s2, n - 1, c1)
  }

  function ReadCapacity(s: Bytes): Option<(Words, Bytes)> {
    var (n, s1) :- GetU32(s);
    if n > 256 then None else ReadEntries(s1, n, map[])
  }

  ghost predicate AllAcceptable(c: Words) {
    forall d | d in c :: Acceptable(c[d])
  }

  // The capacity without its zero entries.
  function NonZero(c: Words): Words {
    map d | d in c && !IsZero(c[d]) :: c[d]
  }

  function NonZeroBelow(c: Words, n: nat): Words {
    map d | d in c && d < n && !IsZero(c[d]) :: c[d]
  }

  lemma NonZeroStep(c: Words, d: Dimension)
    requires d in c
    ensures NonZeroBelow(c, d + 1)
            == if IsZero(c[d]) then NonZeroBelow(c, d) - {d} else NonZeroBelow(c, d)[d := c[d]]
  {
  }

  lemma EntryBack(c: Words, d: Dimension, rest: Bytes)
    requires d in c
    ensures GetU8(EncEntries(c, d) + rest) == Some((d, LE(c[d], 8) + (EncEntries(c, d + 1) + rest)))
    ensures GetU64(LE(c[d], 8) + (EncEntries(c, d + 1) + rest)) == Some((c[d], EncEntries(c, d + 1) + rest))
  {
    Regroup3([d], LE(c[d], 8), EncEntries(c, d + 1), rest);
    assert [d] + LE(c[d], 8) + EncEntries(c, d + 1) + rest == [d] + (LE(c[d], 8) + (EncEntries(c, d + 1) + rest));
    GetPutU64(c[d], EncEntries(c, d + 1) + rest);
  }

  ghost predicate AcceptableFrom(c: Words, d: nat) {
    forall k | k in c && d <= k :: Acceptable(c[k])
  }

  // Reading the entries from d on, after those below, gives the whole capacity or fails.
  ghost predicate ReadsOn(c: Words, d: nat, rest: Bytes)
    requires d <= 256
  {
    ReadEntries(EncEntries(c, d) + rest, CountFrom(c, d), NonZeroBelow(c, d))
    == if AcceptableFrom(c, d) then Some((NonZero(c), rest)) else None
  }

  lemma ReadsOnEnd(c: Words, rest: Bytes)
    ensures ReadsOn(c, 256, rest)
  {
    assert NonZeroBelow(c, 256) == NonZero(c) && EncEntries(c, 256) + rest == rest;
  }

  lemma ReadsOnAbsent(c: Words, d: Dimension, rest: Bytes)
    requires d !in c && ReadsOn(c, d + 1, rest)
    ensures ReadsOn(c, d, rest)
  {
    assert NonZeroBelow(c, d + 1) == NonZeroBelow(c, d);
    assert AcceptableFrom(c, d) == AcceptableFrom(c, d + 1);
  }

  lemma ReadsOnPresent(c: Words, d: Dimension, rest: Bytes)
    requires d in c && ReadsOn(c, d + 1, rest)
    ensures ReadsOn(c, d, rest)
  {
    EntryBack(c, d, rest);
    NonZeroStep(c, d);
    assert AcceptableFrom(c, d) == (Acceptable(c[d]) && AcceptableFrom(c, d + 1));
  }

  lemma {:induction false} ReadEntriesBack(c: Words, d: nat, rest: Bytes)
    requires d <= 256
    ensures ReadsOn(c, d, rest)
    decreases 256 - d
  {
    if d == 256 {
      ReadsOnEnd(c, rest);
    } else {
      ReadEntriesBack(c, d + 1, rest);
      if d in c {
        ReadsOnPresent(c, d, rest);
      } else {
        ReadsOnAbsent(c, d, rest);
      }
    }
  }

  // A written capacity is read back, without its zero entries, exactly when
  // setAmount accepts every entry; otherwise it is rejected.
  lemma CapacityRoundTrip(c: Words, rest: Bytes)
    ensures ReadCapacity(EncCapacity(c) + rest)
            == if AllAcceptable(c) then Some((NonZero(c), rest)) else None
  {
    SizeIsCount(c);
    assert EncCapacity(c) + rest == LE(|c|, 4) + (EncEntries(c, 0) + rest);
    GetPutU32(|c|, EncEntries(c, 0) + rest);
    ReadEntriesBack(c, 0, rest);
    assert NonZeroBelow(c, 0) == map[] && AcceptableFrom(c, 0) == AllAcceptable(c);
  }

  // --- Reservations and releases ---------------------------------------------------------

  // Reading can also raise: a change that is not finite, a fraction out of range.
  datatype Read<T> = Got(value: T, rest: Bytes) | Malformed | Raised

  datatype WireReservation = WireReservation(
    id: Word, generation: Word, start: Signed, end: Signed, strength: Byte, hold: Words, provenance: Byte)

  const REPORTED: Byte := 1
  const FORECAST: Byte := 5

  function At(c: Words, d: Dimension): Word {
    if d in c then c[d] else 0
  }

  // A change record with one entry, as `change` leaves it.
  function OneChange(w: Word): Words {
    map[ACCELERATOR_COUNT := PlusZero(w)]
  }

  function EncReservation(r: WireReservation): Bytes {
    LE(r.id, 8) + LE(r.generation, 8) + LE(ToWord(r.start), 8) + LE(ToWord(r.end), 8)
    + [r.strength] + LE(At(r.hold, ACCELERATOR_COUNT), 8)
  }

  function ReservationFields(s: Bytes): Option<((Word, Word, Signed, Signed, Byte, Word), Bytes)> {
    var (id, s1) :- GetU64(s);
    var (generation, s2) :- GetU64(s1);
    var (start, s3) :- GetI64(s2);
    var (end, s4) :- GetI64(s3);
    var (strength, s5) :- GetU8(s4);
    var (hold, s6) :- GetU64(s5);
    Some(((id, generation, start, end, strength, hold), s6))
  }

  function ReadReservation(s: Bytes): Read<WireReservation> {
    match ReservationFields(s)
    case None => Malformed
    case Some(((id, generation, start, end, strength, hold), rest)) =>
      if !(0 <= start < end) then Malformed
      else if !IsFinite(hold) then Raised
      else Got(WireReservation(id, generation, start, end, strength, OneChange(hold), REPORTED), rest)
  }

  // What survives of a reservation: all but the other dimensions of its hold and
  // its provenance.
  function Carried(r: WireReservation): WireReservation {
    r.(hold := OneChange(At(r.hold, ACCELERATOR_COUNT)), provenance := REPORTED)
  }

  lemma ReservationFieldsBack(r: WireReservation, rest: Bytes)
    ensures ReservationFields(EncReservation(r) + rest)
            == Some(((r.id, r.generation, r.start, r.end, r.strength, At(r.hold, ACCELERATOR_COUNT)), rest))
  {
    var s6 := rest;
    var s5 := LE(At(r.hold, ACCELERATOR_COUNT), 8) + s6;
    var s4 := [r.strength] + s5;
    var s3 := LE(ToWord(r.end), 8) + s4;
    var s2 := LE(ToWord(r.start), 8) + s3;
    var s1 := LE(r.generation, 8) + s2;
    assert EncReservation(r) + rest == LE(r.id, 8) + s1;
    GetPutU64(r.id, s1);
    GetPutU64(r.generation, s2);
    GetPutI64(r.start, s3);
    GetPutI64(r.end, s4);
    GetPutU8(r.strength, s5);
    GetPutU64(At(r.hold, ACCELERATOR_COUNT), s6);
  }

  // A written reservation is read back up to what it carries, exactly when its
  // interval is valid and its hold finite.
  lemma ReservationRoundTrip(r: WireReservation, rest: Bytes)
    ensures ReadReservation(EncReservation(r) + rest)
            == if !(0 <= r.start < r.end) then Malformed
               else if !IsFinite(At(r.hold, ACCELERATOR_COUNT)) then Raised
               else Got(Carried(r), rest)
  {
    ReservationFieldsBack(r, rest);
  }

  datatype WireRelease = WireRelease(
    sourceId: Word, time: Signed, earliest: Signed, latest: Signed, confidence: Word,
    release: Words, provenance: Byte)

  function EncRelease(e: WireRelease): Bytes {
    LE(e.sourceId, 8) + LE(ToWord(e.time), 8) + LE(ToWord(e.earliest), 8) + LE(ToWord(e.latest), 8)
    + LE(e.confidence, 8) + LE(At(e.release, ACCELERATOR_COUNT), 8)
  }

  function ReleaseFields(s: Bytes): Option<((Word, Signed, Signed, Signed, Word, Word), Bytes)> {
    var (sourceId, s1) :- GetU64(s);
    var (time, s2) :- GetI64(s1);
    var (earliest, s3) :- GetI64(s2);
    var (latest, s4) :- GetI64(s3);
    var (confidence, s5) :- GetU64(s4);
    var (release, s6) :- GetU64(s5);
    Some(((sourceId, time, earliest, latest, confidence, release), s6))
  }

  function ReadRelease(s: Bytes): Read<WireRelease> {
    match ReleaseFields(s)
    case None => Malformed
    case Some(((sourceId, time, earliest, latest, confidence, release), rest)) =>
      if !InUnit(confidence) || !IsFinite(release) then Raised
      else Got(WireRelease(sourceId, time, earliest, latest, confidence, OneChange(release), FORECAST), rest)
  }

  function CarriedRelease(e: WireRelease): WireRelease {
    e.(release := OneChange(At(e.release, ACCELERATOR_COUNT)), provenance := FORECAST)
  }

  lemma ReleaseFieldsBack(e: WireRelease, rest: Bytes)
    ensures ReleaseFields(EncRelease(e) + rest)
            == Some(((e.sourceId, e.time, e.earliest, e.latest, e.confidence,
                      At(e.release, ACCELERATOR_COUNT)), rest))
  {
    var s6 := rest;
    var s5 := LE(At(e.release, ACCELERATOR_COUNT), 8) + s6;
    var s4 := LE(e.confidence, 8) + s5;
    var s3 := LE(ToWord(e.latest), 8) + s4;
    var s2 := LE(ToWord(e.earliest), 8) + s3;
    var s1 := LE(ToWord(e.time), 8) + s2;
    assert EncRelease(e) + rest == LE(e.sourceId, 8) + s1;
    GetPutU64(e.sourceId, s1);
    GetPutI64(e.time, s2);
    GetPutI64(e.earliest, s3);
    GetPutI64(e.latest, s4);
    GetPutU64(e.confidence, s5);
    GetPutU64(At(e.release, ACCELERATOR_COUNT), s6);
  }

  lemma ReleaseRoundTrip(e: WireRelease, rest: Bytes)
    ensures ReadRelease(EncRelease(e) + rest)
            == if InUnit(e.confidence) && IsFinite(At(e.release, ACCELERATOR_COUNT))
               then Got(CarriedRelease(e), rest) else Raised
  {
    ReleaseFieldsBack(e, rest);
  }

  // --- Demands ------------------------------------------------------------------------------

  // The demand fields that feasibility reads and the codec does not write.
  datatype Unwritten = Unwritten(
    topologyGroupSize: Option<Word>, allowedClasses: seq<(Bytes, Bytes, Bytes)>,
    requiredCapability: Bytes, sloHeadroom: Word, maxFragmentation: Option<Word>)

  const DEFAULTS := Unwritten(None, [], [], 0, None)

  datatype WireDemand = WireDemand(
    id: Word, generation: Word, requirements: Words, minAccelerators: Word,
    requiresContiguousVram: bool, minContiguousVram: Word, more: Unwritten)

  function Flag(b: bool): Byte {
    if b then 1 else 0
  }

  function EncNeeds(d: WireDemand): Bytes {
    LE(d.minAccelerators, 8) + [Flag(d.requiresContiguousVram)] + LE(d.minContiguousVram, 8)
  }

  function ReadNeeds(s: Bytes): Option<((Word, bool, Word), Bytes)> {
    var (minAccelerators, s1) :- GetU64(s);
    var (contiguous, s2) :- GetU8(s1);
    var (minContiguous, s3) :- GetU64(s2);
    Some(((minAccelerators, contiguous != 0, minContiguous), s3))
  }

  lemma NeedsRoundTrip(d: WireDemand, rest: Bytes)
    ensures ReadNeeds(EncNeeds(d) + rest)
            == Some(((d.minAccelerators, d.requiresContiguousVram, d.minContiguousVram), rest))
  {
    var s2 := LE(d.minContiguousVram, 8) + rest;
    var s1 := [Flag(d.requiresContiguousVram)] + s2;
    assert EncNeeds(d) + rest == LE(d.minAccelerators, 8) + s1;
    GetPutU64(d.minAccelerators, s1);
    GetPutU8(Flag(d.requiresContiguousVram), s2);
    GetPutU64(d.minContiguousVram, rest);
  }

  function EncDemand(d: WireDemand): Bytes {
    LE(d.id, 8) + LE(d.generation, 8) + EncCapacity(d.requirements) + EncNeeds(d)
  }

  function ReadDemand(s: Bytes): Option<(WireDemand, Bytes)> {
    var (id, s1) :- GetU64(s);
    var (generation, s2) :- GetU64(s1);
    var (requirements, s3) :- ReadCapacity(s2);
    var ((minAccelerators, contiguous, minContiguous), s4) :- ReadNeeds(s3);
    Some((WireDemand(id, generation, requirements, minAccelerators, contiguous, minContiguous, DEFAULTS), s4))
  }

  // A written demand is read back up to the fields that are not written and its zero
  // requirements, exactly when its requirements are acceptable.
  lemma DemandRoundTrip(d: WireDemand, rest: Bytes)
    ensures ReadDemand(EncDemand(d) + rest)
            == if AllAcceptable(d.requirements)
               then Some((d.(requirements := NonZero(d.requirements), more := DEFAULTS), rest)) else None
  {
    var s3 := EncNeeds(d) + rest;
    var s2 := EncCapacity(d.requirements) + s3;
    Regroup4(LE(d.id, 8), LE(d.generation, 8), EncCapacity(d.requirements), EncNeeds(d), rest);
    GetPutU64(d.id, LE(d.generation, 8) + s2);
    GetPutU64(d.generation, s2);
    CapacityRoundTrip(d.requirements, s3);
    NeedsRoundTrip(d, rest);
  }

  // --- Resources ------------------------------------------------------------------------------

  datatype Identity = Identity(
    id: Word, generation: Word, fleetId: Word, nodeId: Word, deviceId: Word, worker: Word, bootId: Word,
    kind: Byte, health: Byte)

  datatype Capability = Capability(architecture: Bytes, className: Bytes, name: Bytes, markers: seq<Bytes>)

  datatype Shares = Shares(nominal: Words, free: Words, committed: Words, unavailable: Words)

  datatype Condition = Condition(drained: bool, maintenance: bool, provenance: Byte)

  datatype WireResource = WireResource(
    identity: Identity, capability: Capability, shares: Shares, condition: Condition,
    freeBlocks: seq<Word>, observedAt: Signed)

  const MAX_BLOCKS := 1000000

  function EncIdentity(i: Identity): Bytes {
    LE(i.id, 8) + LE(i.generation, 8) + LE(i.fleetId, 8) + LE(i.nodeId, 8) + LE(i.deviceId, 8)
    + LE(i.worker, 8) + LE(i.bootId, 8) + [i.kind] + [i.health]
  }

  function ReadIdentity(s: Bytes): Option<(Identity, Bytes)> {
    var (id, s1) :- GetU64(s);
    var (generation, s2) :- GetU64(s1);
    var (fleetId, s3) :- GetU64(s2);
    var (nodeId, s4) :- GetU64(s3);
    var (deviceId, s5) :- GetU64(s4);
    var (worker, s6) :- GetU64(s5);
    var (bootId, s7) :- GetU64(s6);
    var (kind, s8) :- GetU8(s7);
    var (health, s9) :- GetU8(s8);
    Some((Identity(id, generation, fleetId, nodeId, deviceId, worker, bootId, kind, health), s9))
  }

  lemma IdentityRoundTrip(i: Identity, rest: Bytes)
    ensures ReadIdentity(EncIdentity(i) + rest) == Some((i, rest))
  {
    var s8 := [i.health] + rest;
    var s7 := [i.kind] + s8;
    var s6 := LE(i.bootId, 8) + s7;
    var s5 := LE(i.worker, 8) + s6;
    var s4 := LE(i.deviceId, 8) + s5;
    var s3 := LE(i.nodeId, 8) + s4;
    var s2 := LE(i.fleetId, 8) + s3;
    var s1 := LE(i.generation, 8) + s2;
    assert EncIdentity(i) + rest == LE(i.id, 8) + s1;
    GetPutU64(i.id, s1);
    GetPutU64(i.generation, s2);
    GetPutU64(i.fleetId, s3);
    GetPutU64(i.nodeId, s4);
    GetPutU64(i.deviceId, s5);
    GetPutU64(i.worker, s6);
    GetPutU64(i.bootId, s7);
    GetPutU8(i.kind, s8);
    GetPutU8(i.health, rest);
  }

  function EncCapability(c: Capability): Bytes {
    PutBytes(c.architecture) + PutBytes(c.className) + PutBytes(c.name)
  }

  function ReadCapability(s: Bytes): Option<(Capability, Bytes)> {
    var (architecture, s1) :- GetBytes(s);
    var (className, s2) :- GetBytes(s1);
    var (name, s3) :- GetBytes(s2);
    Some((Capability(architecture, className, name, []), s3))
  }

  // Lengths travel in 32 bits.
  predicate Encodable(c: Capability) {
    |c.architecture| < TWO32 && |c.className| < TWO32 && |c.name| < TWO32
  }

  lemma CapabilityRoundTrip(c: Capability, rest: Bytes)
    requires Encodable(c)
    ensures ReadCapability(EncCapability(c) + rest) == Some((c.(markers := []), rest))
  {
    var s2 := PutBytes(c.name) + rest;
    var s1 := PutBytes(c.className) + s2;
    assert EncCapability(c) + rest == PutBytes(c.architecture) + s1;
    GetPutBytes(c.architecture, s1);
    GetPutBytes(c.className, s2);
    GetPutBytes(c.name, rest);
  }

  function EncShares(x: Shares): Bytes {
    EncCapacity(x.nominal) + EncCapacity(x.free) + EncCapacity(x.committed) + EncCapacity(x.unavailable)
  }

  function ReadShares(s: Bytes): Option<(Shares, Bytes)> {
    var (nominal, s1) :- ReadCapacity(s);
    var (free, s2) :- ReadCapacity(s1);
    var (committed, s3) :- ReadCapacity(s2);
    var (unavailable, s4) :- ReadCapacity(s3);
    Some((Shares(nominal, free, committed, unavailable), s4))
  }

  ghost predicate AcceptableShares(x: Shares) {
    AllAcceptable(x.nominal) && AllAcceptable(x.free) && AllAcceptable(x.committed) && AllAcceptable(x.unavailable)
  }

  function NonZeroShares(x: Shares): Shares {
    Shares(NonZero(x.nominal), NonZero(x.free), NonZero(x.committed), NonZero(x.unavailable))
  }

  lemma SharesRoundTrip(x: Shares, rest: Bytes)
    ensures ReadShares(EncShares(x) + rest)
            == if AcceptableShares(x) then Some((NonZeroShares(x), rest)) else None
  {
    var s3 := EncCapacity(x.unavailable) + rest;
    var s2 := EncCapacity(x.committed) + s3;
    var s1 := EncCapacity(x.free) + s2;
    Regroup4(EncCapacity(x.nominal), EncCapacity(x.free), EncCapacity(x.committed),
             EncCapacity(x.unavailable), rest);
    CapacityRoundTrip(x.nominal, s1);
    CapacityRoundTrip(x.free, s2);
    CapacityRoundTrip(x.committed, s3);
    CapacityRoundTrip(x.unavailable, rest);
  }

  function EncBlocks(blocks: seq<Word>): Bytes {
    if blocks == [] then [] else LE(blocks[0], 8) + EncBlocks(blocks[1..])
  }

  function ReadBlocks(s: Bytes, n: nat): Option<(seq<Word>, Bytes)> {
    if n == 0 then Some(([], s))
    else
      var (b, s1) :- GetU64(s);
      var (more, s2) :- ReadBlocks(s1, n - 1);
      Some(([b] + more, s2))
  }

  lemma {:induction false} BlocksRoundTrip(blocks: seq<Word>, rest: Bytes)
    ensures ReadBlocks(EncBlocks(blocks) + rest, |blocks|) == Some((blocks, rest))
  {
    if blocks == [] {
      assert EncBlocks(blocks) + rest == rest;
    } else {
      var tail := EncBlocks(blocks[1..]) + rest;
      assert EncBlocks(blocks) + rest == LE(blocks[0], 8) + tail;
      GetPutU64(blocks[0], tail);
      BlocksRoundTrip(blocks[1..], rest);
      assert [blocks[0]] + blocks[1..] == blocks;
    }
  }

  function EncCondition(c: Condition): Bytes {
    [Flag(c.drained)] + [Flag(c.maintenance)] + [c.provenance]
  }

  function ReadCondition(s: Bytes): Option<(Condition, Bytes)> {
    var (drained, s1) :- GetU8(s);
    var (maintenance, s2) :- GetU8(s1);
    var (provenance, s3) :- GetU8(s2);
    Some((Condition(drained != 0, maintenance != 0, provenance), s3))
  }

  lemma ConditionRoundTrip(c: Condition, rest: Bytes)
    ensures ReadCondition(EncCondition(c) + rest) == Some((c, rest))
  {
    var s2 := [c.provenance] + rest;
    var s1 := [Flag(c.maintenance)] + s2;
    assert EncCondition(c) + rest == [Flag(c.drained)] + s1;
    GetPutU8(Flag(c.drained), s1);
    GetPutU8(Flag(c.maintenance), s2);
    GetPutU8(c.provenance, rest);
  }

  function EncHead(r: WireResource): Bytes {
    EncIdentity(r.identity) + EncCapability(r.capability) + EncShares(r.shares) + EncCondition(r.condition)
  }

  function ReadHead(s: Bytes): Option<(WireResource, Bytes)> {
    var (identity, s1) :- ReadIdentity(s);
    var (capability, s2) :- ReadCapability(s1);
    var (shares, s3) :- ReadShares(s2);
    var (condition, s4) :- ReadCondition(s3);
    Some((WireResource(identity, capability, shares, condition, [], 0), s4))
  }

  lemma HeadRoundTrip(r: WireResource, rest: Bytes)
    requires Encodable(r.capability)
    ensures ReadHead(EncHead(r) + rest)
            == if AcceptableShares(r.shares)
               then Some((WireResource(r.identity, r.capability.(markers := []), NonZeroShares(r.shares),
                                       r.condition, [], 0), rest))
               else None
  {
    var s3 := EncCondition(r.condition) + rest;
    var s2 := EncShares(r.shares) + s3;
    var s1 := EncCapability(r.capability) + s2;
    Regroup4(EncIdentity(r.identity), EncCapability(r.capability), EncShares(r.shares),
             EncCondition(r.condition), rest);
    IdentityRoundTrip(r.identity, s1);
    CapabilityRoundTrip(r.capability, s2);
    SharesRoundTrip(r.shares, s3);
    ConditionRoundTrip(r.condition, rest);
  }

  function EncTail(blocks: seq<Word>): Bytes {
    LE(|blocks| % TWO32, 4) + EncBlocks(blocks)
  }

  function ReadTail(s: Bytes): Option<(seq<Word>, Bytes)> {
    var (n, s1) :- GetU32(s);
    if n > MAX_BLOCKS then None else ReadBlocks(s1, n)
  }

  lemma TailRoundTrip(blocks: seq<Word>, rest: Bytes)
    requires |blocks| < TWO32
    ensures ReadTail(EncTail(blocks) + rest) == if |blocks| <= MAX_BLOCKS then Some((blocks, rest)) else None
  {
    BlocksRoundTrip(blocks, rest);
    TailCount(|blocks|, EncBlocks(blocks), rest);
  }

  lemma TailCount(n: Word32, body: Bytes, rest: Bytes)
    ensures n % TWO32 == n && GetU32(LE(n % TWO32, 4) + body + rest) == Some((n, body + rest))
  {
    Regroup2(LE(n, 4), body, rest);
    GetPutU32(n, body + rest);
  }

  function EncResource(r: WireResource): Bytes {
    EncHead(r) + EncTail(r.freeBlocks)
  }

  function ReadResource(s: Bytes): Option<(WireResource, Bytes)> {
    var (head, s1) :- ReadHead(s);
    var (blocks, s2) :- ReadTail(s1);
    Some((head.(freeBlocks := blocks), s2))
  }

  // A written resource is read back up to its markers, its observation time and its
  // zero amounts, exactly when its amounts are acceptable and its blocks few enough.
  lemma ResourceRoundTrip(r: WireResource, rest: Bytes)
    requires Encodable(r.capability) && |r.freeBlocks| < TWO32
    ensures ReadResource(EncResource(r) + rest)
            == if AcceptableShares(r.shares) && |r.freeBlocks| <= MAX_BLOCKS
               then Some((WireResource(r.identity, r.capability.(markers := []), NonZeroShares(r.shares),
                                       r.condition, r.freeBlocks, 0), rest))
               else None
  {
    assert EncResource(r) + rest == EncHead(r) + (EncTail(r.freeBlocks) + rest);
    HeadRoundTrip(r, EncTail(r.freeBlocks) + rest);
    TailRoundTrip(r.freeBlocks, rest);
  }
}
