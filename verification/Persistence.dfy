/** The durable file (src/model/model.cpp, save and load).

    header: magic, version, length of the rest; then the body and its checksum. */
module Persistence {
  import opened Wrappers
  import opened Binary
  import opened Doubles
  import opened Checksum
  import opened Payload
  import opened Capacities
  import Frames

  const PERSIST_MAGIC: Word32 := 0x43464231
  const PERSIST_VERSION: Word32 := 1
  const MAX_RECORDS := 1000000
  const MAX_FILE := 64 * 1024 * 1024

  // --- What is durable -----------------------------------------------------------

  // A resource without its dynamic evidence: VRAM and accelerators are the nominal
  // amounts cut to whole units.
  datatype DurableResource = DurableResource(
    id: Word, generation: Word, fleetId: Word, nodeId: Word, deviceId: Word,
    capability: Capability, vram: Word, accelerators: Word, health: Byte, kind: Byte)

  datatype Forecast = Forecast(at: Signed, expected: Word, observed: Word)

  datatype Durable = Durable(
    epoch: Word, resources: seq<DurableResource>, reservations: seq<WireReservation>,
    releases: seq<WireRelease>, history: seq<Forecast>)

  function EncId(r: DurableResource): Bytes {
    LE(r.id, 8) + LE(r.generation, 8) + LE(r.fleetId, 8) + LE(r.nodeId, 8) + LE(r.deviceId, 8)
  }

  function EncNominal(r: DurableResource): Bytes {
    LE(r.vram, 8) + LE(r.accelerators, 8) + [r.health] + [r.kind]
  }

  function EncDurable(r: DurableResource): Bytes {
    EncId(r) + EncCapability(r.capability) + EncNominal(r)
  }

  function EncForecast(f: Forecast): Bytes {
    LE(ToWord(f.at), 8) + LE(f.expected, 8) + LE(f.observed, 8)
  }

  function EncMany<T>(xs: seq<T>, enc: T -> Bytes): Bytes {
    LE(|xs| % TWO32, 4) + EncItems(xs, enc)
  }

  function EncItems<T>(xs: seq<T>, enc: T -> Bytes): Bytes {
    if xs == [] then [] else enc(xs[0]) + EncItems(xs[1..], enc)
  }

  function EncBody(d: Durable): Bytes {
    LE(d.epoch, 8) + EncMany(d.resources, EncDurable) + EncMany(d.reservations, EncReservation)
    + EncMany(d.releases, EncRelease) + EncMany(d.history, EncForecast)
  }

  // A payload behind the magic, the version and its length.
  function Framed(payload: Bytes): Bytes {
    Prelude(|payload| % TWO32) + payload
  }

  function FileOf(body: Bytes): Bytes {
    Framed(Frames.Sealed(body))
  }

  function Save(d: Durable): Bytes {
    FileOf(EncBody(d))
  }

  // --- Loading --------------------------------------------------------------------

  datatype Status = Ok | Rejected | Threw

  // How far a load got: a part that is None was not touched.
  datatype Loaded = Loaded(
    status: Status, epoch: Option<Word>, resources: Option<seq<DurableResource>>,
    reservations: Option<seq<WireReservation>>, releases: Option<seq<WireRelease>>,
    history: Option<seq<Forecast>>)

  const UNTOUCHED := Loaded(Rejected, None, None, None, None, None)

  // The items read before the end, and how the reading ended.
  datatype Many<T> = Many(items: seq<T>, end: Read<()>)

  function ReadMany<T>(s: Bytes, n: nat, read: Bytes -> Read<T>): Many<T>
    decreases n
  {
    if n == 0 then Many([], Got((), s))
    else
      match read(s)
      case Malformed => Many([], Malformed)
      case Raised => Many([], Raised)
      case Got(x, rest) =>
        var more := ReadMany(rest, n - 1, read);
        Many([x] + more.items, more.end)
  }

  function FromOption<T>(o: Option<(T, Bytes)>): Read<T> {
    match o
    case None => Malformed
    case Some((x, rest)) => Got(x, rest)
  }

  function IdFields(s: Bytes): Option<((Word, Word, Word, Word, Word), Bytes)> {
    var (id, s1) :- GetU64(s);
    var (generation, s2) :- GetU64(s1);
    var (fleetId, s3) :- GetU64(s2);
    var (nodeId, s4) :- GetU64(s3);
    var (deviceId, s5) :- GetU64(s4);
    Some(((id, generation, fleetId, nodeId, deviceId), s5))
  }

  function NominalFields(s: Bytes): Option<((Word, Word, Byte, Byte), Bytes)> {
    var (vram, s1) :- GetU64(s);
    var (accelerators, s2) :- GetU64(s1);
    var (health, s3) :- GetU8(s2);
    var (kind, s4) :- GetU8(s3);
    Some(((vram, accelerators, health, kind), s4))
  }

  function DurableFields(s: Bytes): Option<(DurableResource, Bytes)> {
    var ((id, generation, fleetId, nodeId, deviceId), s1) :- IdFields(s);
    var (capability, s2) :- ReadCapability(s1);
    var ((vram, accelerators, health, kind), s3) :- NominalFields(s2);
    Some((DurableResource(id, generation, fleetId, nodeId, deviceId, capability, vram, accelerators, health, kind),
          s3))
  }

  function ReadDurable(s: Bytes): Read<DurableResource> {
    FromOption(DurableFields(s))
  }

  // Amounts come back as whole counts.
  function ForecastFields(s: Bytes): Option<(Forecast, Bytes)> {
    var (at, s1) :- GetI64(s);
    var (expected, s2) :- GetU64(s1);
    var (observed, s3) :- GetU64(s2);
    Some((Forecast(at, Truncated(expected), Truncated(observed)), s3))
  }

  function ReadForecast(s: Bytes): Read<Forecast> {
    FromOption(ForecastFields(s))
  }

  function StatusOf(end: Read<()>): Status {
    match end
    case Got(_, _) => Ok
    case Malformed => Rejected
    case Raised => Threw
  }

  // One counted section: None when the count is missing or too large.
  function ReadSection<T>(s: Bytes, read: Bytes -> Read<T>): Option<Many<T>> {
    match GetU32(s)
    case None => None
    case Some((n, rest)) => if n > MAX_RECORDS then None else Some(ReadMany(rest, n, read))
  }

  function LoadHistory(s: Bytes, l: Loaded): Loaded {
    match ReadSection(s, ReadForecast)
    case None => l.(status := Rejected)
    case Some(Many(items, end)) =>
      l.(history := Some(items),
         status := if end.Got? && end.rest != [] then Rejected else StatusOf(end))
  }

  function LoadReleases(s: Bytes, l: Loaded): Loaded {
    match ReadSection(s, ReadRelease)
    case None => l.(status := Rejected)
    case Some(Many(items, end)) =>
      var l1 := l.(releases := Some(items), status := StatusOf(end));
      if end.Got? then LoadHistory(end.rest, l1) else l1
  }

  function LoadReservations(s: Bytes, l: Loaded): Loaded {
    match ReadSection(s, ReadReservation)
    case None => l.(status := Rejected)
    case Some(Many(items, end)) =>
      var l1 := l.(reservations := Some(items), status := StatusOf(end));
      if end.Got? then LoadReleases(end.rest, l1) else l1
  }

  function LoadResources(s: Bytes, l: Loaded): Loaded {
    match ReadSection(s, ReadDurable)
    case None => l.(status := Rejected)
    case Some(Many(items, end)) =>
      var l1 := l.(resources := Some(items), status := StatusOf(end));
      if end.Got? then LoadReservations(end.rest, l1) else l1
  }

  function LoadBody(body: Bytes): Loaded {
    match GetU64(body)
    case None => UNTOUCHED
    case Some((epoch, rest)) => LoadResources(rest, UNTOUCHED.(epoch := Some(epoch)))
  }

  // The body of a well-framed file.
  function Unframe(bytes: Bytes): Option<Bytes> {
    if |bytes| > MAX_FILE then None
    else
      var (magic, s1) :- GetU32(bytes);
      if magic != PERSIST_MAGIC then None
      else
        var (version, s2) :- GetU32(s1);
        if version != PERSIST_VERSION then None
        else
          var (len, payload) :- GetU32(s2);
          if len > |bytes| || |bytes| != 12 + len || len < 8 then None
          else
            var body := payload[..len - 8];
            if Fnv(body, FNV_SEED) != FromLE(payload[len - 8..]) then None else Some(body)
  }

  function Load(bytes: Bytes): Loaded {
    match Unframe(bytes)
    case None => UNTOUCHED
    case Some(body) => LoadBody(body)
  }

  // A load that succeeds has replaced every part.
  lemma OkLoadsAll(bytes: Bytes)
    ensures Load(bytes).status.Ok? ==>
              && Load(bytes).epoch.Some? && Load(bytes).resources.Some? && Load(bytes).reservations.Some?
              && Load(bytes).releases.Some? && Load(bytes).history.Some?
  {
  }

  // --- Every corruption of a saved file is noticed before anything changes -------------

  // bytes starts with the magic, the version and this length.
  ghost predicate HasHeader(bytes: Bytes, len: Word32) {
    && |bytes| >= 12
    && FromLE(bytes[..4]) == PERSIST_MAGIC && FromLE(bytes[4..8]) == PERSIST_VERSION
    && FromLE(bytes[8..12]) == len
  }

  lemma UnframeParts(bytes: Bytes)
    ensures Unframe(bytes).Some? ==>
              && 20 <= |bytes| <= MAX_FILE && HasHeader(bytes, |bytes| - 12)
              && Unframe(bytes) == Some(bytes[12..|bytes| - 8])
    ensures Unframe(bytes).Some? <==>
              && 20 <= |bytes| <= MAX_FILE && HasHeader(bytes, |bytes| - 12)
              && Fnv(bytes[12..|bytes| - 8], FNV_SEED) == FromLE(bytes[|bytes| - 8..])
  {
    if |bytes| >= 12 {
      assert bytes[4..][..4] == bytes[4..8] && bytes[4..][4..] == bytes[8..];
      assert bytes[8..][..4] == bytes[8..12] && bytes[8..][4..] == bytes[12..];
      if |bytes| >= 20 {
        assert bytes[12..][..|bytes| - 20] == bytes[12..|bytes| - 8];
        assert bytes[12..][|bytes| - 20..] == bytes[|bytes| - 8..];
      }
    }
  }

  function Prelude(len: Word32): (h: Bytes)
    ensures |h| == 12
  {
    LE(PERSIST_MAGIC, 4) + LE(PERSIST_VERSION, 4) + LE(len, 4)
  }

  lemma FramedFacts(payload: Bytes)
    requires |payload| < TWO32
    ensures var f := Framed(payload);
            |f| == |payload| + 12 && HasHeader(f, |payload|) && f[12..] == payload
  {
    var len: Word32 := |payload|;
    assert Framed(payload) == Prelude(len) + payload by { assert len % TWO32 == len; }
    PreludeFacts(len);
    Behind(Prelude(len), len, payload);
  }

  lemma PreludeFacts(len: Word32)
    ensures HasHeader(Prelude(len), len)
  {
    ThreeWords(LE(PERSIST_MAGIC, 4), LE(PERSIST_VERSION, 4), LE(len, 4));
    HeaderIs(Prelude(len), len);
  }

  lemma Behind(h: Bytes, len: Word32, payload: Bytes)
    requires |h| == 12 && HasHeader(h, len)
    ensures HasHeader(h + payload, len) && (h + payload)[12..] == payload
  {
    var f := h + payload;
    assert f[..4] == h[..4] && f[4..8] == h[4..8] && f[8..12] == h[8..12];
  }

  lemma HeaderIs(f: Bytes, len: Word32)
    requires |f| >= 12 && f[..4] == LE(PERSIST_MAGIC, 4) && f[4..8] == LE(PERSIST_VERSION, 4)
    requires f[8..12] == LE(len, 4)
    ensures HasHeader(f, len)
  {
    PowerSizes();
    LERoundTrip(PERSIST_MAGIC, 4);
    LERoundTrip(PERSIST_VERSION, 4);
    LERoundTrip(len, 4);
  }

  lemma ThreeWords(a: Bytes, b: Bytes, c: Bytes)
    requires |a| == 4 && |b| == 4 && |c| == 4
    ensures var h := a + b + c;
            h[..4] == a && h[4..8] == b && h[8..12] == c
  {
  }

  lemma SealedTail(body: Bytes)
    ensures var p := Frames.Sealed(body);
            |p| == |body| + 8 && p[..|body|] == body && FromLE(p[|body|..]) == Fnv(body, FNV_SEED)
  {
    PowerSizes();
    LERoundTrip(Fnv(body, FNV_SEED), 8);
    assert Frames.Sealed(body)[|body|..] == LE(Fnv(body, FNV_SEED), 8);
  }

  // What is accepted of a framed payload: a sealed body within the read limit.
  lemma UnframeFramed(payload: Bytes, body: Bytes)
    requires 8 <= |payload| < TWO32 && body == payload[..|payload| - 8]
    ensures Unframe(Framed(payload))
            == if |payload| + 12 <= MAX_FILE && Fnv(body, FNV_SEED) == FromLE(payload[|payload| - 8..])
               then Some(body) else None
  {
    var f := Framed(payload);
    FramedFacts(payload);
    UnframeParts(f);
    assert f[12..|f| - 8] == f[12..][..|payload| - 8] && f[|f| - 8..] == f[12..][|payload| - 8..];
  }

  // A saved file is accepted, and gives its body back, exactly within the read limit.
  lemma UnframeFile(body: Bytes)
    requires |body| + 8 < TWO32
    ensures Unframe(FileOf(body)) == if |body| + 20 <= MAX_FILE then Some(body) else None
  {
    SealedTail(body);
    UnframeFramed(Frames.Sealed(body), body);
  }

  // One changed byte, anywhere in any saved file; a file over the limit is not read at all.
  lemma OneByteRefused(body: Bytes, i: nat, x: Byte)
    requires i < |FileOf(body)| && x != FileOf(body)[i]
    ensures Load(FileOf(body)[i := x]) == UNTOUCHED
  {
    if |body| + 8 < TWO32 {
      SmallFileByteRefused(body, i, x);
    }
  }

  lemma SmallFileByteRefused(body: Bytes, i: nat, x: Byte)
    requires |body| + 8 < TWO32 && i < |FileOf(body)| && x != FileOf(body)[i]
    ensures Load(FileOf(body)[i := x]) == UNTOUCHED
  {
    var p := Frames.Sealed(body);
    SealedTail(body);
    FramedFacts(p);
    assert Unframe(Framed(p)[i := x]).None? by {
      if i < 12 {
        HeaderByteRefused(Framed(p), |p|, i, x);
      } else {
        assert Framed(p)[12..] == p;
        Frames.SealBroken(body, i - 12, x);
        var q := p[i - 12 := x];
        assert Framed(p)[i := x] == Framed(q);
        UnframeFramed(q, q[..|body|]);
      }
    }
  }

  lemma HeaderByteRefused(f: Bytes, len: Word32, i: nat, x: Byte)
    requires i < 12 && |f| == len + 12 && x != f[i] && HasHeader(f, len)
    ensures Unframe(f[i := x]).None?
  {
    var c := f[i := x];
    UnframeParts(c);
    if i < 4 {
      assert c[..4] == f[..4][i := x];
      Frames.WordChanged(f[..4], i, x);
    } else if i < 8 {
      assert c[4..8] == f[4..8][i - 4 := x];
      Frames.WordChanged(f[4..8], i - 4, x);
    } else {
      assert c[8..12] == f[8..12][i - 8 := x];
      Frames.WordChanged(f[8..12], i - 8, x);
    }
  }

  // A cut or extended file is taken for a file exactly when its length field wrapped round
  // and, by chance, what is left carries that length and a matching checksum.
  lemma OtherLengthReadIff(body: Bytes, bytes: Bytes)
    requires bytes != FileOf(body) && (bytes <= FileOf(body) || FileOf(body) <= bytes)
    ensures Unframe(bytes).Some?
            <==> && |body| + 8 >= TWO32
                 && 20 <= |bytes| <= MAX_FILE && |bytes| == 12 + (|body| + 8) % TWO32
                 && Fnv(bytes[12..|bytes| - 8], FNV_SEED) == FromLE(bytes[|bytes| - 8..])
  {
    SizesDiffer(body, bytes);
    if |bytes| >= 12 {
      SharedHeader(body, bytes);
      Wrap(|body| + 8, 0);
      ReadOfOtherSize(bytes, |body|, (|body| + 8) % TWO32);
    } else {
      UnframeParts(bytes);
    }
  }

  lemma SizesDiffer(body: Bytes, bytes: Bytes)
    requires bytes != FileOf(body) && (bytes <= FileOf(body) || FileOf(body) <= bytes)
    ensures |FileOf(body)| == |body| + 20 != |bytes|
  {
    SealedTail(body);
  }

  lemma ReadOfOtherSize(bytes: Bytes, n: nat, len: Word32)
    requires HasHeader(bytes, len) && |bytes| != n + 20 && (n + 8 < TWO32 ==> len == n + 8)
    ensures Unframe(bytes).Some?
            <==> && n + 8 >= TWO32
                 && 20 <= |bytes| <= MAX_FILE && |bytes| == 12 + len
                 && Fnv(bytes[12..|bytes| - 8], FNV_SEED) == FromLE(bytes[|bytes| - 8..])
  {
    ReadIff(bytes, len);
  }

  lemma Wrap(n: nat, len: Word32)
    ensures n < TWO32 ==> n % TWO32 == n
    ensures n == TWO32 + len ==> n % TWO32 == len
  {
  }

  // Bytes with a header are read exactly when the header tells their length and the
  // checksum is right.
  lemma ReadIff(bytes: Bytes, len: Word32)
    requires HasHeader(bytes, len)
    ensures Unframe(bytes).Some?
            <==> && 20 <= |bytes| <= MAX_FILE && |bytes| == 12 + len
                 && Fnv(bytes[12..|bytes| - 8], FNV_SEED) == FromLE(bytes[|bytes| - 8..])
  {
    UnframeParts(bytes);
  }

  lemma SharedHeader(body: Bytes, bytes: Bytes)
    requires |bytes| >= 12 && (bytes <= FileOf(body) || FileOf(body) <= bytes)
    ensures HasHeader(bytes, (|body| + 8) % TWO32)
  {
    var len: Word32 := |Frames.Sealed(body)| % TWO32;
    SealedTail(body);
    PreludeFacts(len);
    assert bytes[..12] == FileOf(body)[..12] == Prelude(len);
    assert bytes == Prelude(len) + bytes[12..];
    Behind(Prelude(len), len, bytes[12..]);
  }

  // So every extension is refused, and every truncation of a file whose length fits its
  // 32-bit field.
  lemma OtherLengthRefused(body: Bytes, bytes: Bytes)
    requires bytes != FileOf(body) && (bytes <= FileOf(body) || FileOf(body) <= bytes)
    requires |body| + 8 < TWO32 || FileOf(body) <= bytes
    ensures Load(bytes) == UNTOUCHED
  {
    OtherLengthReadIff(body, bytes);
    SealedTail(body);
  }

  // A file of more than 4 GiB can be cut so that a part of its body is read as a file: where
  // the body starts like a sealed body itself.
  lemma CutFileIsRead(front: Bytes, rest: Bytes)
    requires |front| + 20 <= MAX_FILE && |rest| + 8 == TWO32
    ensures var f := FileOf(Frames.Sealed(front) + rest);
            |f| >= |front| + 20 && f[..|front| + 20] == FileOf(front) && Unframe(f[..|front| + 20]) == Some(front)
  {
    SealedTail(front);
    var sealed := Frames.Sealed(front);
    Wrap(|sealed + rest| + 8, |sealed|);
    CutOfLong(sealed, rest);
    SmallFile(front);
    UnframeFile(front);
  }

  // Such a state: one resource with a very long text, whose id is the checksum of the epoch
  // and the count before it.
  function LongState(epoch: Word): Durable {
    var sum := Fnv(LE(epoch, 8) + LE(1, 4), FNV_SEED);
    var text := seq(TWO32 - 82, i => 0);
    Durable(epoch, [DurableResource(sum, 0, 0, 0, 0, Capability(text, [], [], []), 0, 0, 0, 0)], [], [], [])
  }

  lemma LongBody(epoch: Word)
    ensures var front := LE(epoch, 8) + LE(1, 4);
            && |EncBody(LongState(epoch))| == TWO32 + 12
            && EncBody(LongState(epoch))[..20] == Frames.Sealed(front)
  {
    var d := LongState(epoch);
    var r := d.resources[0];
    assert EncItems(d.resources[1..], EncDurable) == [];
    assert EncItems(d.resources, EncDurable) == EncDurable(r);
    assert |EncDurable(r)| == 70 + |r.capability.architecture|;
    LongFront(LE(epoch, 8), LE(1, 4), LE(r.id, 8), EncDurable(r), EncBody(d));
  }

  lemma LongFront(epoch: Bytes, count: Bytes, id: Bytes, item: Bytes, body: Bytes)
    requires |epoch| == 8 && |count| == 4 && |id| == 8 && id <= item && epoch + (count + item) <= body
    ensures body[..20] == epoch + count + id
  {
    assert body[..20] == (epoch + (count + item))[..20];
  }

  // A state that can be saved and of whose file the first 32 bytes are read as a file: the
  // load takes the epoch over and drops every resource before it fails.
  lemma CutSavedFileIsRead(epoch: Word)
    ensures var l := Load(Save(LongState(epoch))[..32]);
            l.status == Rejected && l.epoch == Some(epoch) && l.resources == Some([])
  {
    var d, front := LongState(epoch), LE(epoch, 8) + LE(1, 4);
    var body := EncBody(d);
    LongBody(epoch);
    assert body == Frames.Sealed(front) + body[20..];
    CutFileIsRead(front, body[20..]);
    GetPutU64(epoch, LE(1, 4));
    GetPutU32(1, []);
    assert LE(1, 4) + [] == LE(1, 4);
  }

  lemma SmallFile(body: Bytes)
    requires |body| + 8 < TWO32
    ensures FileOf(body) == Prelude(|body| + 8) + Frames.Sealed(body)
  {
    SealedTail(body);
    Wrap(|body| + 8, 0);
  }

  lemma CutOfLong(sealed: Bytes, rest: Bytes)
    requires |sealed| < TWO32 && (|sealed + rest| + 8) % TWO32 == |sealed|
    ensures |FileOf(sealed + rest)| >= 12 + |sealed|
    ensures FileOf(sealed + rest)[..12 + |sealed|] == Prelude(|sealed|) + sealed
  {
    var body := sealed + rest;
    var sum := LE(Fnv(body, FNV_SEED), 8);
    SealedTail(body);
    Regroup2(sealed, rest, sum);
    CutAfter(Prelude(|sealed|), sealed, rest + sum);
  }

  lemma CutAfter(h: Bytes, a: Bytes, b: Bytes)
    ensures (h + (a + b))[..|h| + |a|] == h + a
  {
  }

  // --- Saving and loading again -----------------------------------------------------------

  // A reader that gets back what the encoder wrote, through norm.
  ghost predicate ReadsBack<T(!new)>(x: T, enc: T -> Bytes, read: Bytes -> Read<T>, norm: T -> T) {
    forall rest: Bytes :: read(enc(x) + rest) == Got(norm(x), rest)
  }

  function Mapped<T, U>(xs: seq<T>, f: T -> U): (r: seq<U>)
    ensures |r| == |xs| && forall i | 0 <= i < |xs| :: r[i] == f(xs[i])
  {
    seq(|xs|, i requires 0 <= i < |xs| => f(xs[i]))
  }

  lemma {:induction false} ItemsRoundTrip<T(!new)>(xs: seq<T>, enc: T -> Bytes, read: Bytes -> Read<T>,
                                                   norm: T -> T, rest: Bytes)
    requires forall x | x in xs :: ReadsBack(x, enc, read, norm)
    ensures ReadMany(EncItems(xs, enc) + rest, |xs|, read) == Many(Mapped(xs, norm), Got((), rest))
  {
    if xs == [] {
      assert EncItems(xs, enc) + rest == rest;
    } else {
      var tail := EncItems(xs[1..], enc) + rest;
      assert EncItems(xs, enc) + rest == enc(xs[0]) + tail;
      assert xs[0] in xs && ReadsBack(xs[0], enc, read, norm);
      ItemsRoundTrip(xs[1..], enc, read, norm, rest);
    }
  }

  lemma SectionRoundTrip<T(!new)>(xs: seq<T>, enc: T -> Bytes, read: Bytes -> Read<T>, norm: T -> T, rest: Bytes)
    requires |xs| <= MAX_RECORDS && forall x | x in xs :: ReadsBack(x, enc, read, norm)
    ensures ReadSection(EncMany(xs, enc) + rest, read) == Some(Many(Mapped(xs, norm), Got((), rest)))
  {
    CountBack(|xs|, EncItems(xs, enc), rest);
    ItemsRoundTrip(xs, enc, read, norm, rest);
  }

  lemma CountBack(n: nat, items: Bytes, rest: Bytes)
    requires n <= MAX_RECORDS
    ensures GetU32(LE(n % TWO32, 4) + items + rest) == Some((n, items + rest))
  {
    assert LE(n, 4) + items + rest == LE(n, 4) + (items + rest);
    GetPutU32(n, items + rest);
  }

  function Unmarked(r: DurableResource): DurableResource {
    r.(capability := r.capability.(markers := []))
  }

  function Whole(f: Forecast): Forecast {
    Forecast(f.at, Truncated(f.expected), Truncated(f.observed))
  }

  lemma IdBack(r: DurableResource, rest: Bytes)
    ensures IdFields(EncId(r) + rest) == Some(((r.id, r.generation, r.fleetId, r.nodeId, r.deviceId), rest))
  {
    var s4 := LE(r.deviceId, 8) + rest;
    var s3 := LE(r.nodeId, 8) + s4;
    var s2 := LE(r.fleetId, 8) + s3;
    var s1 := LE(r.generation, 8) + s2;
    assert EncId(r) + rest == LE(r.id, 8) + s1;
    GetPutU64(r.id, s1);
    GetPutU64(r.generation, s2);
    GetPutU64(r.fleetId, s3);
    GetPutU64(r.nodeId, s4);
    GetPutU64(r.deviceId, rest);
  }

  lemma NominalBack(r: DurableResource, rest: Bytes)
    ensures NominalFields(EncNominal(r) + rest) == Some(((r.vram, r.accelerators, r.health, r.kind), rest))
  {
    var s3 := [r.kind] + rest;
    var s2 := [r.health] + s3;
    var s1 := LE(r.accelerators, 8) + s2;
    assert EncNominal(r) + rest == LE(r.vram, 8) + s1;
    GetPutU64(r.vram, s1);
    GetPutU64(r.accelerators, s2);
    GetPutU8(r.health, s3);
    GetPutU8(r.kind, rest);
  }

  lemma DurableBack(r: DurableResource)
    requires Encodable(r.capability)
    ensures ReadsBack(r, EncDurable, ReadDurable, Unmarked)
  {
    forall rest: Bytes ensures ReadDurable(EncDurable(r) + rest) == Got(Unmarked(r), rest) {
      var s2 := EncNominal(r) + rest;
      Regroup3(EncId(r), EncCapability(r.capability), EncNominal(r), rest);
      IdBack(r, EncCapability(r.capability) + s2);
      CapabilityRoundTrip(r.capability, s2);
      NominalBack(r, rest);
    }
  }

  lemma ForecastBack(f: Forecast)
    ensures ReadsBack(f, EncForecast, ReadForecast, Whole)
  {
    forall rest: Bytes ensures ReadForecast(EncForecast(f) + rest) == Got(Whole(f), rest) {
      var s2 := LE(f.observed, 8) + rest;
      var s1 := LE(f.expected, 8) + s2;
      assert EncForecast(f) + rest == LE(ToWord(f.at), 8) + s1;
      GetPutI64(f.at, s1);
      GetPutU64(f.expected, s2);
      GetPutU64(f.observed, rest);
    }
  }

  // What a loadable state must satisfy, record by record.
  predicate Loadable(d: Durable) {
    && |d.resources| <= MAX_RECORDS && |d.reservations| <= MAX_RECORDS
    && |d.releases| <= MAX_RECORDS && |d.history| <= MAX_RECORDS
    && (forall r | r in d.resources :: Encodable(r.capability))
    && (forall r | r in d.reservations :: 0 <= r.start < r.end && IsFinite(At(r.hold, ACCELERATOR_COUNT)))
    && (forall e | e in d.releases :: InUnit(e.confidence) && IsFinite(At(e.release, ACCELERATOR_COUNT)))
  }

  // What a load recovers of a saved state.
  function Recovered(d: Durable): Durable {
    Durable(d.epoch, Mapped(d.resources, Unmarked), Mapped(d.reservations, Carried),
            Mapped(d.releases, CarriedRelease), Mapped(d.history, Whole))
  }

  function AllLoaded(d: Durable): Loaded {
    Loaded(Ok, Some(d.epoch), Some(d.resources), Some(d.reservations), Some(d.releases), Some(d.history))
  }

  lemma RecordsReadBack(d: Durable)
    requires Loadable(d)
    ensures forall r | r in d.resources :: ReadsBack(r, EncDurable, ReadDurable, Unmarked)
    ensures forall r | r in d.reservations :: ReadsBack(r, EncReservation, ReadReservation, Carried)
    ensures forall e | e in d.releases :: ReadsBack(e, EncRelease, ReadRelease, CarriedRelease)
    ensures forall f | f in d.history :: ReadsBack(f, EncForecast, ReadForecast, Whole)
  {
    forall r | r in d.resources ensures ReadsBack(r, EncDurable, ReadDurable, Unmarked) {
      DurableBack(r);
    }
    forall r | r in d.reservations ensures ReadsBack(r, EncReservation, ReadReservation, Carried) {
      forall rest: Bytes ensures ReadReservation(EncReservation(r) + rest) == Got(Carried(r), rest) {
        ReservationRoundTrip(r, rest);
      }
    }
    forall e | e in d.releases ensures ReadsBack(e, EncRelease, ReadRelease, CarriedRelease) {
      forall rest: Bytes ensures ReadRelease(EncRelease(e) + rest) == Got(CarriedRelease(e), rest) {
        ReleaseRoundTrip(e, rest);
      }
    }
    forall f | f in d.history ensures ReadsBack(f, EncForecast, ReadForecast, Whole) {
      ForecastBack(f);
    }
  }

  lemma HistoryBack(d: Durable, l: Loaded)
    requires Loadable(d)
    ensures LoadHistory(EncMany(d.history, EncForecast), l)
            == l.(status := Ok, history := Some(Mapped(d.history, Whole)))
  {
    RecordsReadBack(d);
    SectionRoundTrip(d.history, EncForecast, ReadForecast, Whole, []);
    assert EncMany(d.history, EncForecast) + [] == EncMany(d.history, EncForecast);
  }

  lemma ReleasesBack(d: Durable, rest: Bytes, l: Loaded)
    requires Loadable(d)
    ensures LoadReleases(EncMany(d.releases, EncRelease) + rest, l)
            == LoadHistory(rest, l.(status := Ok, releases := Some(Mapped(d.releases, CarriedRelease))))
  {
    RecordsReadBack(d);
    SectionRoundTrip(d.releases, EncRelease, ReadRelease, CarriedRelease, rest);
  }

  lemma ReservationsBack(d: Durable, rest: Bytes, l: Loaded)
    requires Loadable(d)
    ensures LoadReservations(EncMany(d.reservations, EncReservation) + rest, l)
            == LoadReleases(rest, l.(status := Ok, reservations := Some(Mapped(d.reservations, Carried))))
  {
    RecordsReadBack(d);
    SectionRoundTrip(d.reservations, EncReservation, ReadReservation, Carried, rest);
  }

  lemma ResourcesBack(d: Durable, rest: Bytes, l: Loaded)
    requires Loadable(d)
    ensures LoadResources(EncMany(d.resources, EncDurable) + rest, l)
            == LoadReservations(rest, l.(status := Ok, resources := Some(Mapped(d.resources, Unmarked))))
  {
    RecordsReadBack(d);
    SectionRoundTrip(d.resources, EncDurable, ReadDurable, Unmarked, rest);
  }

  lemma BodyRoundTrip(d: Durable)
    requires Loadable(d)
    ensures LoadBody(EncBody(d)) == AllLoaded(Recovered(d))
  {
    var s4 := EncMany(d.history, EncForecast);
    var s3 := EncMany(d.releases, EncRelease) + s4;
    var s2 := EncMany(d.reservations, EncReservation) + s3;
    Regroup4(LE(d.epoch, 8), EncMany(d.resources, EncDurable), EncMany(d.reservations, EncReservation),
             EncMany(d.releases, EncRelease), s4);
    GetPutU64(d.epoch, EncMany(d.resources, EncDurable) + s2);
    var l0 := UNTOUCHED.(epoch := Some(d.epoch));
    ResourcesBack(d, s2, l0);
    var l1 := l0.(status := Ok, resources := Some(Mapped(d.resources, Unmarked)));
    ReservationsBack(d, s3, l1);
    var l2 := l1.(reservations := Some(Mapped(d.reservations, Carried)));
    ReleasesBack(d, s4, l2);
    HistoryBack(d, l2.(releases := Some(Mapped(d.releases, CarriedRelease))));
  }

  // --- A load that raises ----------------------------------------------------------------

  // The first reservation's hold is not finite.
  ghost predicate RaisesAtFirst(d: Durable) {
    && |d.resources| <= MAX_RECORDS && (forall r | r in d.resources :: Encodable(r.capability))
    && 0 < |d.reservations| <= MAX_RECORDS
    && 0 <= d.reservations[0].start < d.reservations[0].end
    && !IsFinite(At(d.reservations[0].hold, ACCELERATOR_COUNT))
  }

  lemma RaisedSection(d: Durable, rest: Bytes)
    requires RaisesAtFirst(d)
    ensures ReadSection(EncMany(d.reservations, EncReservation) + rest, ReadReservation) == Some(Many([], Raised))
  {
    var rs := d.reservations;
    var more := EncItems(rs[1..], EncReservation) + rest;
    CountBack(|rs|, EncItems(rs, EncReservation), rest);
    assert EncItems(rs, EncReservation) + rest == EncReservation(rs[0]) + more;
    ReservationRoundTrip(rs[0], more);
  }

  lemma ResourcesBeforeRaise(d: Durable, rest: Bytes, l: Loaded)
    requires RaisesAtFirst(d)
    ensures LoadResources(EncMany(d.resources, EncDurable) + rest, l)
            == LoadReservations(rest, l.(status := Ok, resources := Some(Mapped(d.resources, Unmarked))))
  {
    forall r | r in d.resources ensures ReadsBack(r, EncDurable, ReadDurable, Unmarked) {
      DurableBack(r);
    }
    SectionRoundTrip(d.resources, EncDurable, ReadDurable, Unmarked, rest);
  }

  // What a load that raises there has replaced: the epoch, the resources, and the
  // reservations by none.
  function RaisedHalfWay(d: Durable): Loaded {
    Loaded(Threw, Some(d.epoch), Some(Mapped(d.resources, Unmarked)), Some([]), None, None)
  }

  lemma RaisedLoad(d: Durable)
    requires RaisesAtFirst(d)
    ensures |EncBody(d)| + 20 <= MAX_FILE ==> Load(Save(d)) == RaisedHalfWay(d)
  {
    RaisedBody(d);
    if |EncBody(d)| + 20 <= MAX_FILE {
      FileLoads(EncBody(d));
    }
  }

  lemma RaisedBody(d: Durable)
    requires RaisesAtFirst(d)
    ensures LoadBody(EncBody(d)) == RaisedHalfWay(d)
  {
    var s3 := EncMany(d.releases, EncRelease) + EncMany(d.history, EncForecast);
    var s2 := EncMany(d.reservations, EncReservation) + s3;
    Regroup4(LE(d.epoch, 8), EncMany(d.resources, EncDurable), EncMany(d.reservations, EncReservation),
             EncMany(d.releases, EncRelease), EncMany(d.history, EncForecast));
    GetPutU64(d.epoch, EncMany(d.resources, EncDurable) + s2);
    ResourcesBeforeRaise(d, s2, UNTOUCHED.(epoch := Some(d.epoch)));
    RaisedSection(d, s3);
  }

  // --- A load that succeeds ----------------------------------------------------------------

  // Loading a saved file recovers exactly the durable projection.
  lemma SaveLoad(d: Durable)
    requires Loadable(d)
    ensures |EncBody(d)| + 20 <= MAX_FILE ==> Load(Save(d)) == AllLoaded(Recovered(d))
  {
    BodyRoundTrip(d);
    if |EncBody(d)| + 20 <= MAX_FILE {
      FileLoads(EncBody(d));
    }
  }

  lemma FileLoads(body: Bytes)
    requires |body| + 20 <= MAX_FILE
    ensures Load(FileOf(body)) == LoadBody(body)
  {
    UnframeFile(body);
  }

  // Amounts that survive unchanged: no negative zero, and whole forecast amounts.
  predicate Exact(d: Durable) {
    && (forall r | r in d.reservations :: At(r.hold, ACCELERATOR_COUNT) != NEGATIVE_ZERO)
    && (forall e | e in d.releases :: At(e.release, ACCELERATOR_COUNT) != NEGATIVE_ZERO)
    && (forall f | f in d.history :: Whole(f) == f)
  }

  // Two sequences of equally long encodings are the same exactly when each encoding is.
  lemma {:induction false} SameItemsIff<T>(xs: seq<T>, enc: T -> Bytes, norm: T -> T)
    requires forall x | x in xs :: |enc(norm(x))| == |enc(x)|
    ensures |EncItems(Mapped(xs, norm), enc)| == |EncItems(xs, enc)|
    ensures EncItems(Mapped(xs, norm), enc) == EncItems(xs, enc) <==> forall x | x in xs :: enc(norm(x)) == enc(x)
  {
    if xs != [] {
      assert xs[0] in xs && forall x | x in xs[1..] :: x in xs;
      SameItemsIff(xs[1..], enc, norm);
      assert Mapped(xs, norm)[1..] == Mapped(xs[1..], norm);
      AlignedIff(enc(norm(xs[0])), EncItems(Mapped(xs[1..], norm), enc), enc(xs[0]), EncItems(xs[1..], enc));
      assert forall x | x in xs :: x == xs[0] || x in xs[1..];
    }
  }

  lemma AlignedIff(a: Bytes, b: Bytes, c: Bytes, d: Bytes)
    requires |a| == |c|
    ensures a + b == c + d <==> a == c && b == d
  {
    if a + b == c + d {
      assert a == (a + b)[..|a|] && c == (c + d)[..|c|];
      assert b == (a + b)[|a|..] && d == (c + d)[|c|..];
    }
  }

  lemma SameManyIff<T>(xs: seq<T>, enc: T -> Bytes, norm: T -> T)
    requires forall x | x in xs :: |enc(norm(x))| == |enc(x)|
    ensures |EncMany(Mapped(xs, norm), enc)| == |EncMany(xs, enc)|
    ensures EncMany(Mapped(xs, norm), enc) == EncMany(xs, enc) <==> forall x | x in xs :: enc(norm(x)) == enc(x)
  {
    SameItemsIff(xs, enc, norm);
    var n := LE(|xs| % TWO32, 4);
    AlignedIff(n, EncItems(Mapped(xs, norm), enc), n, EncItems(xs, enc));
  }

  lemma WordSameIff(v: Word, w: Word)
    ensures LE(v, 8) == LE(w, 8) <==> v == w
  {
    PowerSizes();
    LERoundTrip(v, 8);
    LERoundTrip(w, 8);
  }

  lemma ReservationSameIff(r: WireReservation)
    ensures |EncReservation(Carried(r))| == |EncReservation(r)|
    ensures EncReservation(Carried(r)) == EncReservation(r) <==> At(r.hold, ACCELERATOR_COUNT) != NEGATIVE_ZERO
  {
    var w := At(r.hold, ACCELERATOR_COUNT);
    var head := LE(r.id, 8) + LE(r.generation, 8) + LE(ToWord(r.start), 8) + LE(ToWord(r.end), 8) + [r.strength];
    assert EncReservation(r) == head + LE(w, 8) && EncReservation(Carried(r)) == head + LE(PlusZero(w), 8);
    AlignedIff(head, LE(PlusZero(w), 8), head, LE(w, 8));
    WordSameIff(PlusZero(w), w);
  }

  lemma ReleaseSameIff(e: WireRelease)
    ensures |EncRelease(CarriedRelease(e))| == |EncRelease(e)|
    ensures EncRelease(CarriedRelease(e)) == EncRelease(e) <==> At(e.release, ACCELERATOR_COUNT) != NEGATIVE_ZERO
  {
    var w := At(e.release, ACCELERATOR_COUNT);
    var head := LE(e.sourceId, 8) + LE(ToWord(e.time), 8) + LE(ToWord(e.earliest), 8) + LE(ToWord(e.latest), 8)
                + LE(e.confidence, 8);
    assert EncRelease(e) == head + LE(w, 8) && EncRelease(CarriedRelease(e)) == head + LE(PlusZero(w), 8);
    AlignedIff(head, LE(PlusZero(w), 8), head, LE(w, 8));
    WordSameIff(PlusZero(w), w);
  }

  lemma ForecastSameIff(f: Forecast)
    ensures |EncForecast(Whole(f))| == |EncForecast(f)|
    ensures EncForecast(Whole(f)) == EncForecast(f) <==> Whole(f) == f
  {
    var g, at := Whole(f), LE(ToWord(f.at), 8);
    AlignedIff(at + LE(g.expected, 8), LE(g.observed, 8), at + LE(f.expected, 8), LE(f.observed, 8));
    AlignedIff(at, LE(g.expected, 8), at, LE(f.expected, 8));
    WordSameIff(g.expected, f.expected);
    WordSameIff(g.observed, f.observed);
  }

  lemma ReservationsSameIff(rs: seq<WireReservation>)
    ensures var (a, b) := (EncMany(Mapped(rs, Carried), EncReservation), EncMany(rs, EncReservation));
            |a| == |b| && (a == b <==> forall r | r in rs :: At(r.hold, ACCELERATOR_COUNT) != NEGATIVE_ZERO)
  {
    forall r | r in rs ensures |EncReservation(Carried(r))| == |EncReservation(r)| &&
      (EncReservation(Carried(r)) == EncReservation(r) <==> At(r.hold, ACCELERATOR_COUNT) != NEGATIVE_ZERO)
    {
      ReservationSameIff(r);
    }
    SameManyIff(rs, EncReservation, Carried);
  }

  lemma ReleasesSameIff(es: seq<WireRelease>)
    ensures var (a, b) := (EncMany(Mapped(es, CarriedRelease), EncRelease), EncMany(es, EncRelease));
            |a| == |b| && (a == b <==> forall e | e in es :: At(e.release, ACCELERATOR_COUNT) != NEGATIVE_ZERO)
  {
    forall e | e in es ensures |EncRelease(CarriedRelease(e))| == |EncRelease(e)| &&
      (EncRelease(CarriedRelease(e)) == EncRelease(e) <==> At(e.release, ACCELERATOR_COUNT) != NEGATIVE_ZERO)
    {
      ReleaseSameIff(e);
    }
    SameManyIff(es, EncRelease, CarriedRelease);
  }

  lemma HistorySameIff(fs: seq<Forecast>)
    ensures var (a, b) := (EncMany(Mapped(fs, Whole), EncForecast), EncMany(fs, EncForecast));
            |a| == |b| && (a == b <==> forall f | f in fs :: Whole(f) == f)
  {
    forall f | f in fs ensures |EncForecast(Whole(f))| == |EncForecast(f)| &&
      (EncForecast(Whole(f)) == EncForecast(f) <==> Whole(f) == f)
    {
      ForecastSameIff(f);
    }
    SameManyIff(fs, EncForecast, Whole);
  }

  lemma BodySameIff(d: Durable)
    ensures |EncBody(Recovered(d))| == |EncBody(d)|
    ensures EncBody(Recovered(d)) == EncBody(d) <==> Exact(d)
  {
    ResourcesSame(d.resources);
    ReservationsSameIff(d.reservations);
    ReleasesSameIff(d.releases);
    HistorySameIff(d.history);
    var r := Recovered(d);
    PartsSameIff(LE(d.epoch, 8) + EncMany(d.resources, EncDurable),
                 EncMany(r.reservations, EncReservation), EncMany(r.releases, EncRelease),
                 EncMany(r.history, EncForecast),
                 EncMany(d.reservations, EncReservation), EncMany(d.releases, EncRelease),
                 EncMany(d.history, EncForecast));
  }

  // Markers are not written.
  lemma ResourcesSame(rs: seq<DurableResource>)
    ensures EncMany(Mapped(rs, Unmarked), EncDurable) == EncMany(rs, EncDurable)
  {
    SameManyIff(rs, EncDurable, Unmarked);
  }

  lemma PartsSameIff(front: Bytes, a: Bytes, b: Bytes, c: Bytes, x: Bytes, y: Bytes, z: Bytes)
    requires |a| == |x| && |b| == |y|
    ensures front + a + b + c == front + x + y + z <==> a == x && b == y && c == z
  {
    AlignedIff(front + a + b, c, front + x + y, z);
    AlignedIff(front + a, b, front + x, y);
    AlignedIff(front, a, front, x);
  }

  // Saving the recovered state again gives the same file, byte for byte, if and only
  // if every recovered amount survives unchanged.
  lemma SaveAgainIff(d: Durable)
    ensures Save(Recovered(d)) == Save(d) <==> Exact(d)
  {
    BodySameIff(d);
    var a, b := EncBody(Recovered(d)), EncBody(d);
    var h := Prelude(|Frames.Sealed(b)| % TWO32);
    AlignedIff(h, Frames.Sealed(a), h, Frames.Sealed(b));
    AlignedIff(a, LE(Fnv(a, FNV_SEED), 8), b, LE(Fnv(b, FNV_SEED), 8));
  }
}
