/** Exactly which bytes a load accepts: those that a save can have written
    (src/model/model.cpp, save and load). */
module LoadExact {
  import opened Wrappers
  import opened Binary
  import opened Doubles
  import opened Checksum
  import opened Payload
  import opened Capacities
  import opened Persistence
  import Frames

  // --- What was read had been written -----------------------------------------------------

  lemma ReadU64Was(s: Bytes)
    ensures GetU64(s).Some? ==> var (w, rest) := GetU64(s).value; s == LE(w, 8) + rest
  {
    if GetU64(s).Some? {
      FromLERoundTrip(s[..8]);
      assert s == s[..8] + s[8..];
    }
  }

  lemma ReadI64Was(s: Bytes)
    ensures GetI64(s).Some? ==> var (i, rest) := GetI64(s).value; s == LE(ToWord(i), 8) + rest
  {
    ReadU64Was(s);
  }

  lemma ReadU32Was(s: Bytes)
    ensures GetU32(s).Some? ==> var (w, rest) := GetU32(s).value; s == LE(w, 4) + rest
  {
    if GetU32(s).Some? {
      FromLERoundTrip(s[..4]);
      assert s == s[..4] + s[4..];
    }
  }

  lemma ReadU8Was(s: Bytes)
    ensures GetU8(s).Some? ==> var (b, rest) := GetU8(s).value; s == [b] + rest
  {
  }

  lemma ReadBytesWas(s: Bytes)
    ensures GetBytes(s).Some? ==> var (b, rest) := GetBytes(s).value; |b| < TWO32 && s == PutBytes(b) + rest
  {
    if GetBytes(s).Some? {
      ReadU32Was(s);
      var (n, rest) := GetU32(s).value;
      if n <= |rest| {
        assert rest == rest[..n] + rest[n..];
        Prefixed(n, rest[..n]);
        Regroup2(LE(n, 4), rest[..n], rest[n..]);
      }
    }
  }

  lemma Prefixed(n: Word32, b: Bytes)
    requires |b| == n
    ensures PutBytes(b) == LE(n, 4) + b
  {
    assert n % TWO32 == n;
  }

  lemma IdWas(s: Bytes)
    ensures IdFields(s).Some? ==>
              var ((id, generation, fleetId, nodeId, deviceId), rest) := IdFields(s).value;
              s == LE(id, 8) + LE(generation, 8) + LE(fleetId, 8) + LE(nodeId, 8) + LE(deviceId, 8) + rest
  {
    if IdFields(s).Some? {
      ReadU64Was(s);
      var (id, s1) := GetU64(s).value;
      ReadU64Was(s1);
      var (generation, s2) := GetU64(s1).value;
      ReadU64Was(s2);
      var (fleetId, s3) := GetU64(s2).value;
      ReadU64Was(s3);
      var (nodeId, s4) := GetU64(s3).value;
      ReadU64Was(s4);
      var (deviceId, s5) := GetU64(s4).value;
      Flat5(LE(id, 8), LE(generation, 8), LE(fleetId, 8), LE(nodeId, 8), LE(deviceId, 8), s5);
    }
  }

  lemma Flat5(a: Bytes, b: Bytes, c: Bytes, d: Bytes, e: Bytes, rest: Bytes)
    ensures a + (b + (c + (d + (e + rest)))) == a + b + c + d + e + rest
  {
    Regroup4(a, b, c, d, e + rest);
    assert (a + b + c + d) + (e + rest) == a + b + c + d + e + rest;
  }

  lemma CapabilityWas(s: Bytes)
    ensures ReadCapability(s).Some? ==>
              var (c, rest) := ReadCapability(s).value; Encodable(c) && s == EncCapability(c) + rest
  {
    if ReadCapability(s).Some? {
      ReadBytesWas(s);
      var (a, s1) := GetBytes(s).value;
      ReadBytesWas(s1);
      var (b, s2) := GetBytes(s1).value;
      ReadBytesWas(s2);
      var (c, s3) := GetBytes(s2).value;
      Regroup3(PutBytes(a), PutBytes(b), PutBytes(c), s3);
    }
  }

  lemma NominalWas(s: Bytes)
    ensures NominalFields(s).Some? ==>
              var ((vram, accelerators, health, kind), rest) := NominalFields(s).value;
              s == LE(vram, 8) + LE(accelerators, 8) + [health] + [kind] + rest
  {
    if NominalFields(s).Some? {
      ReadU64Was(s);
      var (vram, s1) := GetU64(s).value;
      ReadU64Was(s1);
      var (accelerators, s2) := GetU64(s1).value;
      ReadU8Was(s2);
      var (health, s3) := GetU8(s2).value;
      ReadU8Was(s3);
      var (kind, s4) := GetU8(s3).value;
      Regroup4(LE(vram, 8), LE(accelerators, 8), [health], [kind], s4);
    }
  }

  // --- Records ------------------------------------------------------------------------------

  // What a reader accepts is the encoding of a fit record, and the rest.
  ghost predicate AcceptsWritten<T(!new)>(enc: T -> Bytes, read: Bytes -> Read<T>, fit: T -> bool) {
    forall s :: read(s).Got? ==> WasWritten(s, read(s).rest, enc, fit)
  }

  ghost predicate WasWritten<T(!new)>(s: Bytes, rest: Bytes, enc: T -> Bytes, fit: T -> bool) {
    exists x :: fit(x) && s == enc(x) + rest
  }

  predicate FitResource(r: DurableResource) {
    Encodable(r.capability)
  }

  predicate FitReservation(r: WireReservation) {
    0 <= r.start < r.end && IsFinite(Payload.At(r.hold, ACCELERATOR_COUNT))
  }

  predicate FitRelease(e: WireRelease) {
    InUnit(e.confidence) && IsFinite(Payload.At(e.release, ACCELERATOR_COUNT))
  }

  predicate FitForecast(f: Forecast) {
    true
  }

  lemma ResourceWas(s: Bytes)
    ensures ReadDurable(s).Got? ==> WasWritten(s, ReadDurable(s).rest, EncDurable, FitResource)
  {
    if ReadDurable(s).Got? {
      IdWas(s);
      var (_, s1) := IdFields(s).value;
      CapabilityWas(s1);
      var (_, s2) := ReadCapability(s1).value;
      NominalWas(s2);
      var r, rest := ReadDurable(s).value, ReadDurable(s).rest;
      Regroup3(EncId(r), EncCapability(r.capability), EncNominal(r), rest);
      assert s == EncDurable(r) + rest && FitResource(r);
    }
  }

  lemma ReservationWas(s: Bytes)
    ensures ReadReservation(s).Got? ==> WasWritten(s, ReadReservation(s).rest, EncReservation, FitReservation)
  {
    if ReadReservation(s).Got? {
      ReservationFieldsWas(s);
      var ((id, generation, start, end, strength, hold), rest) := ReservationFields(s).value;
      var r := WireReservation(id, generation, start, end, strength, map[ACCELERATOR_COUNT := hold], REPORTED);
      assert Payload.At(r.hold, ACCELERATOR_COUNT) == hold;
      assert s == EncReservation(r) + rest && FitReservation(r);
    }
  }

  lemma ReservationFieldsWas(s: Bytes)
    ensures ReservationFields(s).Some? ==>
              var ((id, generation, start, end, strength, hold), rest) := ReservationFields(s).value;
              s == LE(id, 8) + LE(generation, 8) + LE(ToWord(start), 8) + LE(ToWord(end), 8) + [strength]
                   + LE(hold, 8) + rest
  {
    if ReservationFields(s).Some? {
      ReadU64Was(s);
      var (id, s1) := GetU64(s).value;
      ReadU64Was(s1);
      var (generation, s2) := GetU64(s1).value;
      ReadI64Was(s2);
      var (start, s3) := GetI64(s2).value;
      ReadI64Was(s3);
      var (end, s4) := GetI64(s3).value;
      ReadU8Was(s4);
      var (strength, s5) := GetU8(s4).value;
      ReadU64Was(s5);
      var (hold, s6) := GetU64(s5).value;
      Flat6(LE(id, 8), LE(generation, 8), LE(ToWord(start), 8), LE(ToWord(end), 8), [strength], LE(hold, 8), s6);
    }
  }

  lemma Flat6(a: Bytes, b: Bytes, c: Bytes, d: Bytes, e: Bytes, f: Bytes, rest: Bytes)
    ensures a + (b + (c + (d + (e + (f + rest))))) == a + b + c + d + e + f + rest
  {
    Flat5(a, b, c, d, e, f + rest);
    assert (a + b + c + d + e) + (f + rest) == a + b + c + d + e + f + rest;
  }

  lemma ReleaseWas(s: Bytes)
    ensures ReadRelease(s).Got? ==> WasWritten(s, ReadRelease(s).rest, EncRelease, FitRelease)
  {
    if ReadRelease(s).Got? {
      ReleaseFieldsWas(s);
      var ((sourceId, time, earliest, latest, confidence, release), rest) := ReleaseFields(s).value;
      var e := WireRelease(sourceId, time, earliest, latest, confidence, map[ACCELERATOR_COUNT := release], FORECAST);
      assert Payload.At(e.release, ACCELERATOR_COUNT) == release;
      assert s == EncRelease(e) + rest && FitRelease(e);
    }
  }

  lemma ReleaseFieldsWas(s: Bytes)
    ensures ReleaseFields(s).Some? ==>
              var ((sourceId, time, earliest, latest, confidence, release), rest) := ReleaseFields(s).value;
              s == LE(sourceId, 8) + LE(ToWord(time), 8) + LE(ToWord(earliest), 8) + LE(ToWord(latest), 8)
                   + LE(confidence, 8) + LE(release, 8) + rest
  {
    if ReleaseFields(s).Some? {
      ReadU64Was(s);
      var (sourceId, s1) := GetU64(s).value;
      ReadI64Was(s1);
      var (time, s2) := GetI64(s1).value;
      ReadI64Was(s2);
      var (earliest, s3) := GetI64(s2).value;
      ReadI64Was(s3);
      var (latest, s4) := GetI64(s3).value;
      ReadU64Was(s4);
      var (confidence, s5) := GetU64(s4).value;
      ReadU64Was(s5);
      var (release, s6) := GetU64(s5).value;
      Flat6(LE(sourceId, 8), LE(ToWord(time), 8), LE(ToWord(earliest), 8), LE(ToWord(latest), 8),
            LE(confidence, 8), LE(release, 8), s6);
    }
  }

  lemma ForecastWas(s: Bytes)
    ensures ReadForecast(s).Got? ==> WasWritten(s, ReadForecast(s).rest, EncForecast, FitForecast)
  {
    if ReadForecast(s).Got? {
      ReadI64Was(s);
      var (at, s1) := GetI64(s).value;
      ReadU64Was(s1);
      var (expected, s2) := GetU64(s1).value;
      ReadU64Was(s2);
      var (observed, s3) := GetU64(s2).value;
      Regroup3(LE(ToWord(at), 8), LE(expected, 8), LE(observed, 8), s3);
      assert s == EncForecast(Forecast(at, expected, observed)) + s3 && FitForecast(Forecast(at, expected, observed));
    }
  }

  // --- Sections -------------------------------------------------------------------------------

  // s is a section of fit records, and the rest.
  ghost predicate IsSection<T(!new)>(s: Bytes, rest: Bytes, xs: seq<T>, enc: T -> Bytes, fit: T -> bool) {
    |xs| <= MAX_RECORDS && (forall x | x in xs :: fit(x)) && s == EncMany(xs, enc) + rest
  }

  lemma {:induction false} ItemsWere<T(!new)>(s: Bytes, n: nat, enc: T -> Bytes, read: Bytes -> Read<T>, fit: T -> bool)
    returns (xs: seq<T>)
    requires AcceptsWritten(enc, read, fit) && ReadMany(s, n, read).end.Got?
    ensures |xs| == n && (forall x | x in xs :: fit(x))
    ensures s == EncItems(xs, enc) + ReadMany(s, n, read).end.rest
    decreases n
  {
    if n == 0 {
      xs := [];
      assert EncItems(xs, enc) + s == s;
    } else {
      assert read(s).Got?;
      assert WasWritten(s, read(s).rest, enc, fit);
      var x :| fit(x) && s == enc(x) + read(s).rest;
      var more := ItemsWere(read(s).rest, n - 1, enc, read, fit);
      xs := [x] + more;
      assert xs[0] == x && xs[1..] == more;
      Regroup2(enc(x), EncItems(more, enc), ReadMany(s, n, read).end.rest);
    }
  }

  lemma SectionWas<T(!new)>(s: Bytes, enc: T -> Bytes, read: Bytes -> Read<T>, fit: T -> bool) returns (xs: seq<T>)
    requires AcceptsWritten(enc, read, fit)
    requires ReadSection(s, read).Some? && ReadSection(s, read).value.end.Got?
    ensures IsSection(s, ReadSection(s, read).value.end.rest, xs, enc, fit)
  {
    ReadU32Was(s);
    var (n, items) := GetU32(s).value;
    xs := ItemsWere(items, n, enc, read, fit);
    var rest := ReadMany(items, n, read).end.rest;
    Regroup2(LE(n, 4), EncItems(xs, enc), rest);
    assert |xs| % TWO32 == n;
  }

  lemma AllAccept()
    ensures AcceptsWritten(EncDurable, ReadDurable, FitResource)
    ensures AcceptsWritten(EncReservation, ReadReservation, FitReservation)
    ensures AcceptsWritten(EncRelease, ReadRelease, FitRelease)
    ensures AcceptsWritten(EncForecast, ReadForecast, FitForecast)
  {
    forall s ensures ReadDurable(s).Got? ==> WasWritten(s, ReadDurable(s).rest, EncDurable, FitResource) {
      ResourceWas(s);
    }
    forall s
      ensures ReadReservation(s).Got? ==> WasWritten(s, ReadReservation(s).rest, EncReservation, FitReservation)
    {
      ReservationWas(s);
    }
    forall s ensures ReadRelease(s).Got? ==> WasWritten(s, ReadRelease(s).rest, EncRelease, FitRelease) {
      ReleaseWas(s);
    }
    forall s ensures ReadForecast(s).Got? ==> WasWritten(s, ReadForecast(s).rest, EncForecast, FitForecast) {
      ForecastWas(s);
    }
  }

  // --- The body and the file --------------------------------------------------------------------

  lemma HistoryWas(s: Bytes, l: Loaded) returns (xs: seq<Forecast>)
    requires LoadHistory(s, l).status.Ok?
    ensures IsSection(s, [], xs, EncForecast, FitForecast)
  {
    AllAccept();
    xs := SectionWas(s, EncForecast, ReadForecast, FitForecast);
  }

  lemma ReleasesWere(s: Bytes, l: Loaded) returns (xs: seq<WireRelease>, rest: Bytes, next: Loaded)
    requires LoadReleases(s, l).status.Ok?
    ensures IsSection(s, rest, xs, EncRelease, FitRelease) && LoadHistory(rest, next).status.Ok?
  {
    AllAccept();
    xs := SectionWas(s, EncRelease, ReadRelease, FitRelease);
    var many := ReadSection(s, ReadRelease).value;
    rest, next := many.end.rest, l.(releases := Some(many.items), status := StatusOf(many.end));
  }

  lemma ReservationsWere(s: Bytes, l: Loaded) returns (xs: seq<WireReservation>, rest: Bytes, next: Loaded)
    requires LoadReservations(s, l).status.Ok?
    ensures IsSection(s, rest, xs, EncReservation, FitReservation) && LoadReleases(rest, next).status.Ok?
  {
    AllAccept();
    xs := SectionWas(s, EncReservation, ReadReservation, FitReservation);
    var many := ReadSection(s, ReadReservation).value;
    rest, next := many.end.rest, l.(reservations := Some(many.items), status := StatusOf(many.end));
  }

  lemma ResourcesWere(s: Bytes, l: Loaded) returns (xs: seq<DurableResource>, rest: Bytes, next: Loaded)
    requires LoadResources(s, l).status.Ok?
    ensures IsSection(s, rest, xs, EncDurable, FitResource) && LoadReservations(rest, next).status.Ok?
  {
    AllAccept();
    xs := SectionWas(s, EncDurable, ReadDurable, FitResource);
    var many := ReadSection(s, ReadDurable).value;
    rest, next := many.end.rest, l.(resources := Some(many.items), status := StatusOf(many.end));
  }

  lemma BodyWas(body: Bytes) returns (d: Durable)
    requires LoadBody(body).status.Ok?
    ensures Loadable(d) && body == EncBody(d)
  {
    ReadU64Was(body);
    var (epoch, s1) := GetU64(body).value;
    var resources, s2, l2 := ResourcesWere(s1, UNTOUCHED.(epoch := Some(epoch)));
    var reservations, s3, l3 := ReservationsWere(s2, l2);
    var releases, s4, l4 := ReleasesWere(s3, l3);
    var history := HistoryWas(s4, l4);
    d := Durable(epoch, resources, reservations, releases, history);
    BodyJoins(d, body, s1, s2, s3, s4);
  }

  lemma BodyJoins(d: Durable, body: Bytes, s1: Bytes, s2: Bytes, s3: Bytes, s4: Bytes)
    requires body == LE(d.epoch, 8) + s1
    requires IsSection(s1, s2, d.resources, EncDurable, FitResource)
    requires IsSection(s2, s3, d.reservations, EncReservation, FitReservation)
    requires IsSection(s3, s4, d.releases, EncRelease, FitRelease)
    requires IsSection(s4, [], d.history, EncForecast, FitForecast)
    ensures Loadable(d) && body == EncBody(d)
  {
    var h := EncMany(d.history, EncForecast);
    assert s4 == h;
    Regroup4(LE(d.epoch, 8), EncMany(d.resources, EncDurable), EncMany(d.reservations, EncReservation),
             EncMany(d.releases, EncRelease), h);
  }

  lemma FileWas(bytes: Bytes)
    requires Unframe(bytes).Some?
    ensures |bytes| <= MAX_FILE && bytes == FileOf(Unframe(bytes).value)
  {
    UnframeParts(bytes);
    var n := |bytes|;
    var body := bytes[12..n - 8];
    assert bytes[12..] == body + bytes[n - 8..];
    SealedWas(bytes[12..], body, bytes[n - 8..]);
    HeaderWas(bytes, n - 12);
    FileJoins(bytes, body);
  }

  lemma SealedWas(sealed: Bytes, body: Bytes, sum: Bytes)
    requires sealed == body + sum && |sum| == 8 && Fnv(body, FNV_SEED) == FromLE(sum)
    ensures sealed == Frames.Sealed(body)
  {
    FromLERoundTrip(sum);
  }

  lemma FileJoins(bytes: Bytes, body: Bytes)
    requires 20 <= |bytes| <= MAX_FILE && |body| == |bytes| - 20
    requires bytes[12..] == Frames.Sealed(body) && bytes[..12] == Prelude(|bytes| - 12)
    ensures bytes == FileOf(body)
  {
    SmallFile(body);
    assert bytes == bytes[..12] + bytes[12..];
  }

  lemma HeaderWas(bytes: Bytes, len: Word32)
    requires HasHeader(bytes, len)
    ensures bytes[..12] == Prelude(len)
  {
    FromLERoundTrip(bytes[..4]);
    FromLERoundTrip(bytes[4..8]);
    FromLERoundTrip(bytes[8..12]);
    assert bytes[..12] == bytes[..4] + bytes[4..8] + bytes[8..12];
  }

  // A load succeeds exactly on the files, within the read limit, that a save of some state
  // writes: no others, and all of these.
  lemma LoadsExactlySaved(bytes: Bytes)
    ensures Load(bytes).status.Ok?
            <==> |bytes| <= MAX_FILE && exists d :: Loadable(d) && bytes == Save(d)
  {
    if Load(bytes).status.Ok? {
      FileWas(bytes);
      var d := BodyWas(Unframe(bytes).value);
      assert bytes == Save(d);
    }
    if |bytes| <= MAX_FILE && exists d :: Loadable(d) && bytes == Save(d) {
      var d :| Loadable(d) && bytes == Save(d);
      SealedTail(EncBody(d));
      SaveLoad(d);
    }
  }
}
