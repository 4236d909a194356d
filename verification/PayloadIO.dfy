/** The payload writers and readers over a byte buffer, proved against the encodings
    (include/capacity_fabric/protocol/payload.hpp). */
module PayloadIO {
  import opened Wrappers
  import opened Binary
  import opened Doubles
  import opened Payload
  import opened Capacities

  // --- Writers --------------------------------------------------------------------

  method WriteCapacity(w: BinaryWriter, c: Words)
    modifies w
    ensures w.buf == old(w.buf) + EncCapacity(c)
  {
    SizeIsCount(c);
    w.WriteU32(|c|);
    ghost var target := old(w.buf) + EncCapacity(c);
    assert Pending(w.buf, c, 0, target) by {
      Regroup3(old(w.buf), LE(|c|, 4), EncEntries(c, 0), []);
    }
    for d := 0 to 256
      invariant Pending(w.buf, c, d, target)
    {
      PendingNext(w.buf, c, d, target);
      WriteEntry(w, c, d);
    }
    assert w.buf + [] == w.buf;
  }

  method WriteEntry(w: BinaryWriter, c: Words, d: Dimension)
    modifies w
    ensures w.buf == old(w.buf) + Entry(c, d)
  {
    Regroup2(w.buf, [d], LE(if d in c then c[d] else 0, 8));
    if d in c {
      w.WriteU8(d);
      w.WriteU64(c[d]);
    } else {
      assert w.buf + [] == w.buf;
    }
  }

  function Entry(c: Words, d: Dimension): Bytes {
    if d in c then [d] + LE(c[d], 8) else []
  }

  // The entries from d on are still to be written.
  ghost predicate Pending(buf: Bytes, c: Words, d: nat, target: Bytes)
    requires d <= 256
  {
    buf + EncEntries(c, d) == target
  }

  lemma PendingNext(buf: Bytes, c: Words, d: nat, target: Bytes)
    requires d < 256 && Pending(buf, c, d, target)
    ensures Pending(buf + Entry(c, d), c, d + 1, target)
  {
    if d in c {
      Regroup3(buf, [d], LE(c[d], 8), EncEntries(c, d + 1));
      Regroup3(buf, Entry(c, d), EncEntries(c, d + 1), []);
    } else {
      assert buf + [] == buf;
    }
  }

  method WriteReservation(w: BinaryWriter, r: WireReservation)
    modifies w
    ensures w.buf == old(w.buf) + EncReservation(r)
  {
    w.WriteU64(r.id);
    w.WriteU64(r.generation);
    w.WriteI64(r.start);
    w.WriteI64(r.end);
    w.WriteU8(r.strength);
    w.WriteU64(At(r.hold, ACCELERATOR_COUNT));
    Regroup6(old(w.buf), LE(r.id, 8), LE(r.generation, 8), LE(ToWord(r.start), 8), LE(ToWord(r.end), 8),
             [r.strength], LE(At(r.hold, ACCELERATOR_COUNT), 8));
  }

  lemma Regroup6(s: Bytes, a: Bytes, b: Bytes, c: Bytes, d: Bytes, e: Bytes, f: Bytes)
    ensures s + a + b + c + d + e + f == s + (a + b + c + d + e + f)
  {
    assert s + a + b + c == s + (a + b + c);
    var t := a + b + c;
    assert s + t + d + e + f == s + (t + d + e + f);
  }

  method WriteRelease(w: BinaryWriter, e: WireRelease)
    modifies w
    ensures w.buf == old(w.buf) + EncRelease(e)
  {
    w.WriteU64(e.sourceId);
    w.WriteI64(e.time);
    w.WriteI64(e.earliest);
    w.WriteI64(e.latest);
    w.WriteU64(e.confidence);
    w.WriteU64(At(e.release, ACCELERATOR_COUNT));
    Regroup6(old(w.buf), LE(e.sourceId, 8), LE(ToWord(e.time), 8), LE(ToWord(e.earliest), 8),
             LE(ToWord(e.latest), 8), LE(e.confidence, 8), LE(At(e.release, ACCELERATOR_COUNT), 8));
  }

  method WriteDemand(w: BinaryWriter, d: WireDemand)
    modifies w
    ensures w.buf == old(w.buf) + EncDemand(d)
  {
    w.WriteU64(d.id);
    w.WriteU64(d.generation);
    WriteCapacity(w, d.requirements);
    w.WriteU64(d.minAccelerators);
    w.WriteU8(Flag(d.requiresContiguousVram));
    w.WriteU64(d.minContiguousVram);
    Regroup6(old(w.buf), LE(d.id, 8), LE(d.generation, 8), EncCapacity(d.requirements), LE(d.minAccelerators, 8),
             [Flag(d.requiresContiguousVram)], LE(d.minContiguousVram, 8));
    Regroup3(LE(d.id, 8) + LE(d.generation, 8) + EncCapacity(d.requirements), LE(d.minAccelerators, 8),
             [Flag(d.requiresContiguousVram)], LE(d.minContiguousVram, 8));
  }

  method WriteIdentity(w: BinaryWriter, i: Identity)
    modifies w
    ensures w.buf == old(w.buf) + EncIdentity(i)
  {
    w.WriteU64(i.id);
    w.WriteU64(i.generation);
    w.WriteU64(i.fleetId);
    w.WriteU64(i.nodeId);
    w.WriteU64(i.deviceId);
    w.WriteU64(i.worker);
    ghost var six := LE(i.id, 8) + LE(i.generation, 8) + LE(i.fleetId, 8) + LE(i.nodeId, 8) + LE(i.deviceId, 8)
                     + LE(i.worker, 8);
    Regroup6(old(w.buf), LE(i.id, 8), LE(i.generation, 8), LE(i.fleetId, 8), LE(i.nodeId, 8), LE(i.deviceId, 8),
             LE(i.worker, 8));
    w.WriteU64(i.bootId);
    w.WriteU8(i.kind);
    w.WriteU8(i.health);
    Regroup4(old(w.buf), six, LE(i.bootId, 8), [i.kind], [i.health]);
    Regroup3(six, LE(i.bootId, 8), [i.kind], [i.health]);
  }

  method WriteCapability(w: BinaryWriter, c: Capability)
    modifies w
    ensures w.buf == old(w.buf) + EncCapability(c)
  {
    w.WriteBytes(c.architecture);
    w.WriteBytes(c.className);
    w.WriteBytes(c.name);
    Regroup3(old(w.buf), PutBytes(c.architecture), PutBytes(c.className), PutBytes(c.name));
  }

  method WriteShares(w: BinaryWriter, x: Shares)
    modifies w
    ensures w.buf == old(w.buf) + EncShares(x)
  {
    WriteCapacity(w, x.nominal);
    WriteCapacity(w, x.free);
    WriteCapacity(w, x.committed);
    WriteCapacity(w, x.unavailable);
    Regroup4(old(w.buf), EncCapacity(x.nominal), EncCapacity(x.free), EncCapacity(x.committed),
             EncCapacity(x.unavailable));
    Regroup3(EncCapacity(x.nominal), EncCapacity(x.free), EncCapacity(x.committed), EncCapacity(x.unavailable));
  }

  lemma BlockNext(buf: Bytes, blocks: seq<Word>, i: nat)
    requires i < |blocks|
    ensures buf + EncBlocks(blocks[i..]) == buf + LE(blocks[i], 8) + EncBlocks(blocks[i + 1..])
  {
    assert blocks[i..][0] == blocks[i] && blocks[i..][1..] == blocks[i + 1..];
    Regroup2(buf, LE(blocks[i], 8), EncBlocks(blocks[i + 1..]));
  }

  method WriteBlocks(w: BinaryWriter, blocks: seq<Word>)
    modifies w
    ensures w.buf == old(w.buf) + EncTail(blocks)
  {
    w.WriteU32(|blocks| % TWO32);
    for i := 0 to |blocks|
      invariant w.buf + EncBlocks(blocks[i..]) == old(w.buf) + EncTail(blocks)
    {
      BlockNext(w.buf, blocks, i);
      w.WriteU64(blocks[i]);
    }
    assert blocks[|blocks|..] == [] && w.buf + [] == w.buf;
  }

  method WriteResource(w: BinaryWriter, r: WireResource)
    modifies w
    ensures w.buf == old(w.buf) + EncResource(r)
  {
    WriteIdentity(w, r.identity);
    WriteCapability(w, r.capability);
    WriteShares(w, r.shares);
    ghost var front := EncIdentity(r.identity) + EncCapability(r.capability) + EncShares(r.shares);
    Regroup3(old(w.buf), EncIdentity(r.identity), EncCapability(r.capability), EncShares(r.shares));
    WriteCondition(w, r.condition);
    WriteBlocks(w, r.freeBlocks);
    Regroup3(old(w.buf), front, EncCondition(r.condition), EncTail(r.freeBlocks));
  }

  method WriteCondition(w: BinaryWriter, c: Condition)
    modifies w
    ensures w.buf == old(w.buf) + EncCondition(c)
  {
    w.WriteU8(Flag(c.drained));
    w.WriteU8(Flag(c.maintenance));
    w.WriteU8(c.provenance);
    Regroup3(old(w.buf), [Flag(c.drained)], [Flag(c.maintenance)], [c.provenance]);
  }

  // --- Readers --------------------------------------------------------------------

  method ReadCapacityFrom(r: BinaryReader) returns (out: Option<Words>)
    requires r.Valid()
    modifies r
    ensures r.Valid()
    ensures out.Some? ==> ReadCapacity(old(r.Rest())) == Some((out.value, r.Rest()))
    ensures out.None? ==> ReadCapacity(old(r.Rest())).None?
  {
    var n := r.ReadU32();
    if n.None? || n.value > 256 { return None; }
    var c: Words := map[];
    ghost var start := r.Rest();
    for i := 0 to n.value
      invariant r.Valid()
      invariant ReadEntries(start, n.value, map[]) == ReadEntries(r.Rest(), n.value - i, c)
    {
      var d := r.ReadU8();
      if d.None? { return None; }
      var v := r.ReadU64();
      if v.None? { return None; }
      if !Acceptable(v.value) { return None; }
      c := if IsZero(v.value) then c - {d.value} else c[d.value := v.value];
    }
    out := Some(c);
  }

  method ReadReservationFrom(r: BinaryReader) returns (out: Read<WireReservation>)
    requires r.Valid()
    modifies r
    ensures r.Valid() && out == ReadReservation(old(r.Rest()))
    ensures out.Got? ==> out.rest == r.Rest()
  {
    var id := r.ReadU64();
    if id.None? { return Malformed; }
    var generation := r.ReadU64();
    if generation.None? { return Malformed; }
    var start := r.ReadI64();
    if start.None? { return Malformed; }
    var end := r.ReadI64();
    if end.None? { return Malformed; }
    var strength := r.ReadU8();
    if strength.None? { return Malformed; }
    var hold := r.ReadU64();
    if hold.None? { return Malformed; }
    if !(0 <= start.value < end.value) { return Malformed; }
    if !IsFinite(hold.value) { return Raised; }
    out := Got(WireReservation(id.value, generation.value, start.value, end.value, strength.value,
                               OneChange(hold.value), REPORTED), r.Rest());
  }

  method ReadReleaseFrom(r: BinaryReader) returns (out: Read<WireRelease>)
    requires r.Valid()
    modifies r
    ensures r.Valid() && out == ReadRelease(old(r.Rest()))
    ensures out.Got? ==> out.rest == r.Rest()
  {
    var sourceId := r.ReadU64();
    if sourceId.None? { return Malformed; }
    var time := r.ReadI64();
    if time.None? { return Malformed; }
    var earliest := r.ReadI64();
    if earliest.None? { return Malformed; }
    var latest := r.ReadI64();
    if latest.None? { return Malformed; }
    var confidence := r.ReadU64();
    if confidence.None? { return Malformed; }
    var release := r.ReadU64();
    if release.None? { return Malformed; }
    if !InUnit(confidence.value) || !IsFinite(release.value) { return Raised; }
    out := Got(WireRelease(sourceId.value, time.value, earliest.value, latest.value, confidence.value,
                           OneChange(release.value), FORECAST), r.Rest());
  }

  method ReadNeedsFrom(r: BinaryReader) returns (out: Option<((Word, bool, Word), Bytes)>)
    requires r.Valid()
    modifies r
    ensures r.Valid() && out == ReadNeeds(old(r.Rest()))
    ensures out.Some? ==> out.value.1 == r.Rest()
  {
    var minAccelerators := r.ReadU64();
    if minAccelerators.None? { return None; }
    var contiguous := r.ReadU8();
    if contiguous.None? { return None; }
    var minContiguous := r.ReadU64();
    if minContiguous.None? { return None; }
    out := Some(((minAccelerators.value, contiguous.value != 0, minContiguous.value), r.Rest()));
  }

  method ReadDemandFrom(r: BinaryReader) returns (out: Option<(WireDemand, Bytes)>)
    requires r.Valid()
    modifies r
    ensures r.Valid() && out == ReadDemand(old(r.Rest()))
    ensures out.Some? ==> out.value.1 == r.Rest()
  {
    var id := r.ReadU64();
    if id.None? { return None; }
    var generation := r.ReadU64();
    if generation.None? { return None; }
    var requirements := ReadCapacityFrom(r);
    if requirements.None? { return None; }
    var needs := ReadNeedsFrom(r);
    if needs.None? { return None; }
    var (minAccelerators, contiguous, minContiguous) := needs.value.0;
    out := Some((WireDemand(id.value, generation.value, requirements.value, minAccelerators, contiguous,
                            minContiguous, DEFAULTS), r.Rest()));
  }

  method ReadIdentityFrom(r: BinaryReader) returns (out: Option<(Identity, Bytes)>)
    requires r.Valid()
    modifies r
    ensures r.Valid() && out == ReadIdentity(old(r.Rest()))
    ensures out.Some? ==> out.value.1 == r.Rest()
  {
    var id := r.ReadU64();
    if id.None? { return None; }
    var generation := r.ReadU64();
    if generation.None? { return None; }
    var fleetId := r.ReadU64();
    if fleetId.None? { return None; }
    var nodeId := r.ReadU64();
    if nodeId.None? { return None; }
    var deviceId := r.ReadU64();
    if deviceId.None? { return None; }
    var worker := r.ReadU64();
    if worker.None? { return None; }
    var bootId := r.ReadU64();
    if bootId.None? { return None; }
    var kind := r.ReadU8();
    if kind.None? { return None; }
    var health := r.ReadU8();
    if health.None? { return None; }
    out := Some((Identity(id.value, generation.value, fleetId.value, nodeId.value, deviceId.value, worker.value,
                          bootId.value, kind.value, health.value), r.Rest()));
  }

  method ReadCapabilityFrom(r: BinaryReader) returns (out: Option<(Capability, Bytes)>)
    requires r.Valid()
    modifies r
    ensures r.Valid() && out == ReadCapability(old(r.Rest()))
    ensures out.Some? ==> out.value.1 == r.Rest()
  {
    var architecture := r.ReadBytes();
    if architecture.None? { return None; }
    var className := r.ReadBytes();
    if className.None? { return None; }
    var name := r.ReadBytes();
    if name.None? { return None; }
    out := Some((Capability(architecture.value, className.value, name.value, []), r.Rest()));
  }

  method ReadSharesFrom(r: BinaryReader) returns (out: Option<(Shares, Bytes)>)
    requires r.Valid()
    modifies r
    ensures r.Valid() && out == ReadShares(old(r.Rest()))
    ensures out.Some? ==> out.value.1 == r.Rest()
  {
    var nominal := ReadCapacityFrom(r);
    if nominal.None? { return None; }
    var free := ReadCapacityFrom(r);
    if free.None? { return None; }
    var committed := ReadCapacityFrom(r);
    if committed.None? { return None; }
    var unavailable := ReadCapacityFrom(r);
    if unavailable.None? { return None; }
    out := Some((Shares(nominal.value, free.value, committed.value, unavailable.value), r.Rest()));
  }

  method ReadConditionFrom(r: BinaryReader) returns (out: Option<(Condition, Bytes)>)
    requires r.Valid()
    modifies r
    ensures r.Valid() && out == ReadCondition(old(r.Rest()))
    ensures out.Some? ==> out.value.1 == r.Rest()
  {
    var drained := r.ReadU8();
    if drained.None? { return None; }
    var maintenance := r.ReadU8();
    if maintenance.None? { return None; }
    var provenance := r.ReadU8();
    if provenance.None? { return None; }
    out := Some((Condition(drained.value != 0, maintenance.value != 0, provenance.value), r.Rest()));
  }

  method ReadBlocksFrom(r: BinaryReader) returns (out: Option<(seq<Word>, Bytes)>)
    requires r.Valid()
    modifies r
    ensures r.Valid() && out == ReadTail(old(r.Rest()))
    ensures out.Some? ==> out.value.1 == r.Rest()
  {
    var n := r.ReadU32();
    if n.None? || n.value > MAX_BLOCKS { return None; }
    ghost var start := r.Rest();
    var blocks: seq<Word> := [];
    PrependedNothing(ReadBlocks(start, n.value));
    for i := 0 to n.value
      invariant r.Valid()
      invariant ReadBlocks(start, n.value) == Prepended(blocks, ReadBlocks(r.Rest(), n.value - i))
    {
      PrependedStep(blocks, r.Rest(), n.value - i);
      var b := r.ReadU64();
      if b.None? { return None; }
      blocks := blocks + [b.value];
    }
    assert blocks + [] == blocks;
    out := Some((blocks, r.Rest()));
  }

  // The blocks read so far before those still to come.
  function Prepended(front: seq<Word>, rest: Option<(seq<Word>, Bytes)>): Option<(seq<Word>, Bytes)> {
    match rest
    case None => None
    case Some((blocks, s)) => Some((front + blocks, s))
  }

  lemma PrependedNothing(rest: Option<(seq<Word>, Bytes)>)
    ensures Prepended([], rest) == rest
  {
    if rest.Some? {
      assert [] + rest.value.0 == rest.value.0;
    }
  }

  lemma PrependedStep(front: seq<Word>, s: Bytes, n: nat)
    requires n > 0
    ensures Prepended(front, ReadBlocks(s, n))
            == match GetU64(s)
               case None => None
               case Some((b, s1)) => Prepended(front + [b], ReadBlocks(s1, n - 1))
  {
    var got := GetU64(s);
    if got.Some? {
      var more := ReadBlocks(got.value.1, n - 1);
      if more.Some? {
        assert front + ([got.value.0] + more.value.0) == front + [got.value.0] + more.value.0;
      }
    }
  }

  method ReadResourceFrom(r: BinaryReader) returns (out: Option<(WireResource, Bytes)>)
    requires r.Valid()
    modifies r
    ensures r.Valid() && out == ReadResource(old(r.Rest()))
    ensures out.Some? ==> out.value.1 == r.Rest()
  {
    var identity := ReadIdentityFrom(r);
    if identity.None? { return None; }
    var capability := ReadCapabilityFrom(r);
    if capability.None? { return None; }
    var shares := ReadSharesFrom(r);
    if shares.None? { return None; }
    var condition := ReadConditionFrom(r);
    if condition.None? { return None; }
    var blocks := ReadBlocksFrom(r);
    if blocks.None? { return None; }
    out := Some((WireResource(identity.value.0, capability.value.0, shares.value.0, condition.value.0,
                              blocks.value.0, 0), r.Rest()));
  }
}
