/** Saving and loading as the code runs them: loops over one buffer
    (src/model/model.cpp, save and load). */
module PersistenceIO {
  import opened Wrappers
  import opened Binary
  import opened Checksum
  import opened Payload
  import opened PayloadIO
  import opened Persistence

  // --- Saving ---------------------------------------------------------------------

  method WriteDurable(w: BinaryWriter, r: DurableResource)
    modifies w
    ensures w.buf == old(w.buf) + EncDurable(r)
  {
    WriteIds(w, r);
    WriteCapability(w, r.capability);
    WriteNominal(w, r);
    Regroup3(old(w.buf), EncId(r), EncCapability(r.capability), EncNominal(r));
  }

  method WriteIds(w: BinaryWriter, r: DurableResource)
    modifies w
    ensures w.buf == old(w.buf) + EncId(r)
  {
    w.WriteU64(r.id);
    w.WriteU64(r.generation);
    w.WriteU64(r.fleetId);
    w.WriteU64(r.nodeId);
    w.WriteU64(r.deviceId);
    Regroup6(old(w.buf), LE(r.id, 8), LE(r.generation, 8), LE(r.fleetId, 8), LE(r.nodeId, 8), LE(r.deviceId, 8), []);
    assert w.buf + [] == w.buf && EncId(r) + [] == EncId(r);
  }

  method WriteNominal(w: BinaryWriter, r: DurableResource)
    modifies w
    ensures w.buf == old(w.buf) + EncNominal(r)
  {
    w.WriteU64(r.vram);
    w.WriteU64(r.accelerators);
    w.WriteU8(r.health);
    w.WriteU8(r.kind);
    Regroup4(old(w.buf), LE(r.vram, 8), LE(r.accelerators, 8), [r.health], [r.kind]);
    Regroup3(LE(r.vram, 8), LE(r.accelerators, 8), [r.health], [r.kind]);
  }

  method WriteForecast(w: BinaryWriter, f: Forecast)
    modifies w
    ensures w.buf == old(w.buf) + EncForecast(f)
  {
    w.WriteI64(f.at);
    w.WriteU64(f.expected);
    w.WriteU64(f.observed);
    Regroup3(old(w.buf), LE(ToWord(f.at), 8), LE(f.expected, 8), LE(f.observed, 8));
  }

  lemma ItemNext<T>(buf: Bytes, xs: seq<T>, i: nat, enc: T -> Bytes)
    requires i < |xs|
    ensures buf + EncItems(xs[i..], enc) == buf + enc(xs[i]) + EncItems(xs[i + 1..], enc)
  {
    assert xs[i..][0] == xs[i] && xs[i..][1..] == xs[i + 1..];
    assert buf + (enc(xs[i]) + EncItems(xs[i + 1..], enc)) == buf + enc(xs[i]) + EncItems(xs[i + 1..], enc);
  }

  method WriteResources(w: BinaryWriter, xs: seq<DurableResource>)
    modifies w
    ensures w.buf == old(w.buf) + EncMany(xs, EncDurable)
  {
    w.WriteU32(|xs| % TWO32);
    Regroup3(old(w.buf), LE(|xs| % TWO32, 4), EncItems(xs, EncDurable), []);
    ghost var target := w.buf + EncItems(xs, EncDurable);
    for i := 0 to |xs|
      invariant w.buf + EncItems(xs[i..], EncDurable) == target
    {
      ItemNext(w.buf, xs, i, EncDurable);
      WriteDurable(w, xs[i]);
    }
    assert w.buf + EncItems(xs[|xs|..], EncDurable) == w.buf;
  }

  method WriteReservations(w: BinaryWriter, xs: seq<WireReservation>)
    modifies w
    ensures w.buf == old(w.buf) + EncMany(xs, EncReservation)
  {
    w.WriteU32(|xs| % TWO32);
    Regroup3(old(w.buf), LE(|xs| % TWO32, 4), EncItems(xs, EncReservation), []);
    ghost var target := w.buf + EncItems(xs, EncReservation);
    for i := 0 to |xs|
      invariant w.buf + EncItems(xs[i..], EncReservation) == target
    {
      ItemNext(w.buf, xs, i, EncReservation);
      WriteReservation(w, xs[i]);
    }
    assert w.buf + EncItems(xs[|xs|..], EncReservation) == w.buf;
  }

  method WriteReleases(w: BinaryWriter, xs: seq<WireRelease>)
    modifies w
    ensures w.buf == old(w.buf) + EncMany(xs, EncRelease)
  {
    w.WriteU32(|xs| % TWO32);
    Regroup3(old(w.buf), LE(|xs| % TWO32, 4), EncItems(xs, EncRelease), []);
    ghost var target := w.buf + EncItems(xs, EncRelease);
    for i := 0 to |xs|
      invariant w.buf + EncItems(xs[i..], EncRelease) == target
    {
      ItemNext(w.buf, xs, i, EncRelease);
      WriteRelease(w, xs[i]);
    }
    assert w.buf + EncItems(xs[|xs|..], EncRelease) == w.buf;
  }

  method WriteHistory(w: BinaryWriter, xs: seq<Forecast>)
    modifies w
    ensures w.buf == old(w.buf) + EncMany(xs, EncForecast)
  {
    w.WriteU32(|xs| % TWO32);
    Regroup3(old(w.buf), LE(|xs| % TWO32, 4), EncItems(xs, EncForecast), []);
    ghost var target := w.buf + EncItems(xs, EncForecast);
    for i := 0 to |xs|
      invariant w.buf + EncItems(xs[i..], EncForecast) == target
    {
      ItemNext(w.buf, xs, i, EncForecast);
      WriteForecast(w, xs[i]);
    }
    assert w.buf + EncItems(xs[|xs|..], EncForecast) == w.buf;
  }

  method SaveFile(d: Durable) returns (bytes: Bytes)
    ensures bytes == Save(d)
  {
    var w := new BinaryWriter();
    w.WriteU64(d.epoch);
    assert w.buf == LE(d.epoch, 8);
    WriteResources(w, d.resources);
    WriteReservations(w, d.reservations);
    WriteReleases(w, d.releases);
    WriteHistory(w, d.history);
    var body := w.buf;
    assert body == EncBody(d);
    bytes := FrameBody(body);
  }

  // Magic, version, length, body and checksum.
  method FrameBody(body: Bytes) returns (bytes: Bytes)
    ensures bytes == FileOf(body)
  {
    var sum := Fnv1a(body, FNV_SEED);
    var hdr := new BinaryWriter();
    hdr.WriteU32(PERSIST_MAGIC);
    hdr.WriteU32(PERSIST_VERSION);
    hdr.WriteU32((|body| + 8) % TWO32);
    ghost var prelude := Prelude((|body| + 8) % TWO32);
    assert hdr.buf == prelude;
    hdr.buf := hdr.buf + body;
    hdr.WriteU64(sum);
    BehindPrelude(prelude, body, LE(sum, 8));
    bytes := hdr.buf;
  }

  lemma BehindPrelude(prelude: Bytes, body: Bytes, sum: Bytes)
    ensures prelude + body + sum == prelude + (body + sum)
  {
  }

  // --- Loading --------------------------------------------------------------------

  method ReadIdsFrom(r: BinaryReader) returns (out: Option<((Word, Word, Word, Word, Word), Bytes)>)
    requires r.Valid()
    modifies r
    ensures r.Valid() && out == IdFields(old(r.Rest()))
    ensures out.Some? ==> out.value.1 == r.Rest()
  {
    var id := r.ReadU64();
    if id.None? { return None; }
    var generation := r.ReadU64();
    if generation.None? { return None; }
    var fleetId := r.ReadU64();
    if fleetId.None? { return None; }
    var nodeId := r.ReadU64();
    if nodeId.None? { return None; }
    var deviceId := r.ReadU64();
    if deviceId.None? { return None; }
    out := Some(((id.value, generation.value, fleetId.value, nodeId.value, deviceId.value), r.Rest()));
  }

  method ReadNominalFrom(r: BinaryReader) returns (out: Option<((Word, Word, Byte, Byte), Bytes)>)
    requires r.Valid()
    modifies r
    ensures r.Valid() && out == NominalFields(old(r.Rest()))
    ensures out.Some? ==> out.value.1 == r.Rest()
  {
    var vram := r.ReadU64();
    if vram.None? { return None; }
    var accelerators := r.ReadU64();
    if accelerators.None? { return None; }
    var health := r.ReadU8();
    if health.None? { return None; }
    var kind := r.ReadU8();
    if kind.None? { return None; }
    out := Some(((vram.value, accelerators.value, health.value, kind.value), r.Rest()));
  }

  method ReadDurableFrom(r: BinaryReader) returns (out: Read<DurableResource>)
    requires r.Valid()
    modifies r
    ensures r.Valid() && out == ReadDurable(old(r.Rest()))
    ensures out.Got? ==> out.rest == r.Rest()
  {
    var ids := ReadIdsFrom(r);
    if ids.None? { return Malformed; }
    var capability := ReadCapabilityFrom(r);
    if capability.None? { return Malformed; }
    var nominal := ReadNominalFrom(r);
    if nominal.None? { return Malformed; }
    var (id, generation, fleetId, nodeId, deviceId) := ids.value.0;
    var (vram, accelerators, health, kind) := nominal.value.0;
    out := Got(DurableResource(id, generation, fleetId, nodeId, deviceId, capability.value.0, vram, accelerators,
                               health, kind), r.Rest());
  }

  method ReadForecastFrom(r: BinaryReader) returns (out: Read<Forecast>)
    requires r.Valid()
    modifies r
    ensures r.Valid() && out == ReadForecast(old(r.Rest()))
    ensures out.Got? ==> out.rest == r.Rest()
  {
    var at := r.ReadI64();
    if at.None? { return Malformed; }
    var expected := r.ReadU64();
    if expected.None? { return Malformed; }
    var observed := r.ReadU64();
    if observed.None? { return Malformed; }
    out := Got(Whole(Forecast(at.value, expected.value, observed.value)), r.Rest());
  }

  // The items read so far before those still to come.
  function Joined<T>(front: seq<T>, m: Many<T>): Many<T> {
    Many(front + m.items, m.end)
  }

  // Reading all still needs n items from s, after those in front.
  ghost predicate Reading<T(!new)>(all: Many<T>, front: seq<T>, s: Bytes, n: nat, read: Bytes -> Read<T>) {
    all == Joined(front, ReadMany(s, n, read))
  }

  lemma ReadingStarts<T(!new)>(s: Bytes, n: nat, read: Bytes -> Read<T>)
    ensures Reading(ReadMany(s, n, read), [], s, n, read)
  {
    var m := ReadMany(s, n, read);
    assert [] + m.items == m.items;
  }

  lemma ReadingNext<T(!new)>(all: Many<T>, front: seq<T>, s: Bytes, n: nat, read: Bytes -> Read<T>, got: Read<T>)
    requires n > 0 && Reading(all, front, s, n, read) && got == read(s)
    ensures match got
            case Malformed => all == Many(front, Malformed)
            case Raised => all == Many(front, Raised)
            case Got(x, rest) => Reading(all, front + [x], rest, n - 1, read)
  {
    assert front + [] == front;
    if got.Got? {
      var more := ReadMany(got.rest, n - 1, read).items;
      assert front + ([got.value] + more) == front + [got.value] + more;
    }
  }

  lemma ReadingEnds<T(!new)>(all: Many<T>, front: seq<T>, s: Bytes, read: Bytes -> Read<T>)
    requires Reading(all, front, s, 0, read)
    ensures all == Many(front, Got((), s))
  {
    assert front + [] == front;
  }

  method ReadResources(r: BinaryReader) returns (m: Option<Many<DurableResource>>)
    requires r.Valid()
    modifies r
    ensures r.Valid() && m == ReadSection(old(r.Rest()), ReadDurable)
    ensures m.Some? && m.value.end.Got? ==> m.value.end.rest == r.Rest()
  {
    var n := r.ReadU32();
    if n.None? || n.value > MAX_RECORDS { return None; }
    var many := ReadResourcesItems(r, n.value);
    m := Some(many);
  }

  method ReadResourcesItems(r: BinaryReader, n: nat) returns (m: Many<DurableResource>)
    requires r.Valid()
    modifies r
    ensures r.Valid() && m == ReadMany(old(r.Rest()), n, ReadDurable)
    ensures m.end.Got? ==> m.end.rest == r.Rest()
  {
    var items: seq<DurableResource> := [];
    ghost var all := ReadMany(r.Rest(), n, ReadDurable);
    ReadingStarts(r.Rest(), n, ReadDurable);
    for i := 0 to n
      invariant r.Valid() && Reading(all, items, r.Rest(), n - i, ReadDurable)
    {
      ghost var s := r.Rest();
      var x := ReadDurableFrom(r);
      ReadingNext(all, items, s, n - i, ReadDurable, x);
      if !x.Got? { return Many(items, if x.Raised? then Raised else Malformed); }
      items := items + [x.value];
    }
    ReadingEnds(all, items, r.Rest(), ReadDurable);
    m := Many(items, Got((), r.Rest()));
  }

  method ReadReservations(r: BinaryReader) returns (m: Option<Many<WireReservation>>)
    requires r.Valid()
    modifies r
    ensures r.Valid() && m == ReadSection(old(r.Rest()), ReadReservation)
    ensures m.Some? && m.value.end.Got? ==> m.value.end.rest == r.Rest()
  {
    var n := r.ReadU32();
    if n.None? || n.value > MAX_RECORDS { return None; }
    var many := ReadReservationsItems(r, n.value);
    m := Some(many);
  }

  method ReadReservationsItems(r: BinaryReader, n: nat) returns (m: Many<WireReservation>)
    requires r.Valid()
    modifies r
    ensures r.Valid() && m == ReadMany(old(r.Rest()), n, ReadReservation)
    ensures m.end.Got? ==> m.end.rest == r.Rest()
  {
    var items: seq<WireReservation> := [];
    ghost var all := ReadMany(r.Rest(), n, ReadReservation);
    ReadingStarts(r.Rest(), n, ReadReservation);
    for i := 0 to n
      invariant r.Valid() && Reading(all, items, r.Rest(), n - i, ReadReservation)
    {
      ghost var s := r.Rest();
      var x := ReadReservationFrom(r);
      ReadingNext(all, items, s, n - i, ReadReservation, x);
      if !x.Got? { return Many(items, if x.Raised? then Raised else Malformed); }
      items := items + [x.value];
    }
    ReadingEnds(all, items, r.Rest(), ReadReservation);
    m := Many(items, Got((), r.Rest()));
  }

  method ReadReleases(r: BinaryReader) returns (m: Option<Many<WireRelease>>)
    requires r.Valid()
    modifies r
    ensures r.Valid() && m == ReadSection(old(r.Rest()), ReadRelease)
    ensures m.Some? && m.value.end.Got? ==> m.value.end.rest == r.Rest()
  {
    var n := r.ReadU32();
    if n.None? || n.value > MAX_RECORDS { return None; }
    var many := ReadReleasesItems(r, n.value);
    m := Some(many);
  }

  method ReadReleasesItems(r: BinaryReader, n: nat) returns (m: Many<WireRelease>)
    requires r.Valid()
    modifies r
    ensures r.Valid() && m == ReadMany(old(r.Rest()), n, ReadRelease)
    ensures m.end.Got? ==> m.end.rest == r.Rest()
  {
    var items: seq<WireRelease> := [];
    ghost var all := ReadMany(r.Rest(), n, ReadRelease);
    ReadingStarts(r.Rest(), n, ReadRelease);
    for i := 0 to n
      invariant r.Valid() && Reading(all, items, r.Rest(), n - i, ReadRelease)
    {
      ghost var s := r.Rest();
      var x := ReadReleaseFrom(r);
      ReadingNext(all, items, s, n - i, ReadRelease, x);
      if !x.Got? { return Many(items, if x.Raised? then Raised else Malformed); }
      items := items + [x.value];
    }
    ReadingEnds(all, items, r.Rest(), ReadRelease);
    m := Many(items, Got((), r.Rest()));
  }

  method ReadHistory(r: BinaryReader) returns (m: Option<Many<Forecast>>)
    requires r.Valid()
    modifies r
    ensures r.Valid() && m == ReadSection(old(r.Rest()), ReadForecast)
    ensures m.Some? && m.value.end.Got? ==> m.value.end.rest == r.Rest()
  {
    var n := r.ReadU32();
    if n.None? || n.value > MAX_RECORDS { return None; }
    var many := ReadHistoryItems(r, n.value);
    m := Some(many);
  }

  method ReadHistoryItems(r: BinaryReader, n: nat) returns (m: Many<Forecast>)
    requires r.Valid()
    modifies r
    ensures r.Valid() && m == ReadMany(old(r.Rest()), n, ReadForecast)
    ensures m.end.Got? ==> m.end.rest == r.Rest()
  {
    var items: seq<Forecast> := [];
    ghost var all := ReadMany(r.Rest(), n, ReadForecast);
    ReadingStarts(r.Rest(), n, ReadForecast);
    for i := 0 to n
      invariant r.Valid() && Reading(all, items, r.Rest(), n - i, ReadForecast)
    {
      ghost var s := r.Rest();
      var x := ReadForecastFrom(r);
      ReadingNext(all, items, s, n - i, ReadForecast, x);
      if !x.Got? { return Many(items, if x.Raised? then Raised else Malformed); }
      items := items + [x.value];
    }
    ReadingEnds(all, items, r.Rest(), ReadForecast);
    m := Many(items, Got((), r.Rest()));
  }

  // The sections are read in turn; the first that fails ends the load where it is.
  method LoadSections(r: BinaryReader, l0: Loaded) returns (l: Loaded)
    requires r.Valid()
    modifies r
    ensures l == LoadResources(old(r.Rest()), l0)
  {
    l := l0;
    var resources := ReadResources(r);
    if resources.None? { return l.(status := Rejected); }
    l := l.(resources := Some(resources.value.items), status := StatusOf(resources.value.end));
    if !resources.value.end.Got? { return; }
    var reservations := ReadReservations(r);
    if reservations.None? { return l.(status := Rejected); }
    l := l.(reservations := Some(reservations.value.items), status := StatusOf(reservations.value.end));
    if !reservations.value.end.Got? { return; }
    var releases := ReadReleases(r);
    if releases.None? { return l.(status := Rejected); }
    l := l.(releases := Some(releases.value.items), status := StatusOf(releases.value.end));
    if !releases.value.end.Got? { return; }
    var history := ReadHistory(r);
    if history.None? { return l.(status := Rejected); }
    l := l.(history := Some(history.value.items), status := StatusOf(history.value.end));
    if history.value.end.Got? && r.pos != |r.data| { l := l.(status := Rejected); }
  }

  method UnframeFile(bytes: Bytes) returns (body: Option<Bytes>)
    ensures body == Unframe(bytes)
  {
    if |bytes| > MAX_FILE { return None; }
    var br := new BinaryReader(bytes);
    var magic := br.ReadU32();
    if magic.None? || magic.value != PERSIST_MAGIC { return None; }
    var version := br.ReadU32();
    if version.None? || version.value != PERSIST_VERSION { return None; }
    var len := br.ReadU32();
    if len.None? || len.value > |bytes| || |bytes| != 12 + len.value || len.value < 8 { return None; }
    body := Unseal(br.Rest());
  }

  method Unseal(payload: Bytes) returns (body: Option<Bytes>)
    requires |payload| >= 8
    ensures var n := |payload| - 8;
            body == if Fnv(payload[..n], FNV_SEED) != FromLE(payload[n..]) then None else Some(payload[..n])
  {
    var n := |payload| - 8;
    var expected := Frames.ReadAt(payload, n, 8);
    assert payload[n..] == payload[n..n + 8];
    var actual := Fnv1a(payload[..n], FNV_SEED);
    if actual != expected { return None; }
    body := Some(payload[..n]);
  }

  method LoadFile(bytes: Bytes) returns (l: Loaded)
    ensures l == Load(bytes)
  {
    var body := UnframeFile(bytes);
    if body.None? { return UNTOUCHED; }
    var r := new BinaryReader(body.value);
    var epoch := r.ReadU64();
    if epoch.None? { return UNTOUCHED; }
    l := LoadSections(r, UNTOUCHED.(epoch := Some(epoch.value)));
  }
}
