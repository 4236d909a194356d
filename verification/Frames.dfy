/** The framed protocol (src/protocol/protocol.cpp, include/capacity_fabric/protocol/protocol.hpp). */
module Frames {
  import opened Wrappers
  import opened Binary
  import opened Checksum

  const FRAME_MAGIC: Word32 := 0x43524643
  const FRAME_VERSION: Byte := 1
  const MAX_PAYLOAD := 4 * 1024 * 1024
  const SEQ_OFFSET := 7
  const LEN_OFFSET := 11
  const HEADER_LEN := 15
  const CHECKSUM_LEN := 8

  // The type is an 8-bit enumeration that a decoder takes from any byte.
  datatype Message = Message(kind: Byte, seqNo: Word32, payload: seq<Byte>) {
    predicate Bounded() {
      |payload| <= MAX_PAYLOAD
    }
  }

  datatype FrameError = BadMagic | UnsupportedVersion | Oversized | Truncated | CheckMismatch

  datatype Verdict = Frame(msg: Message, consumed: nat) | Fault(err: FrameError)

  function Header(kind: Byte, flags: Byte, seqNo: Word32, len: nat): (h: seq<Byte>)
    ensures |h| == HEADER_LEN
  {
    LE(FRAME_MAGIC, 4) + [FRAME_VERSION, kind, flags] + LE(seqNo, 4) + LE(len, 4)
  }

  function Sealed(body: seq<Byte>): seq<Byte> {
    body + LE(Fnv(body, FNV_SEED), CHECKSUM_LEN)
  }

  function Encode(m: Message): seq<Byte> {
    Sealed(Header(m.kind, 0, m.seqNo, |m.payload|) + m.payload)
  }

  method EncodeFrame(m: Message) returns (r: Option<seq<Byte>>)
    ensures r == if m.Bounded() then Some(Encode(m)) else None
  {
    if |m.payload| > MAX_PAYLOAD { return None; }
    var out := new BinaryWriter();
    WriteHeader(out, m.kind, m.seqNo, |m.payload|);
    out.buf := out.buf + m.payload;
    var sum := Fnv1a(out.buf, FNV_SEED);
    out.WriteU64(sum);
    r := Some(out.buf);
  }

  method WriteHeader(out: BinaryWriter, kind: Byte, seqNo: Word32, len: Word32)
    requires out.buf == []
    modifies out
    ensures out.buf == Header(kind, 0, seqNo, len)
  {
    out.WriteU32(FRAME_MAGIC);
    out.WriteU8(FRAME_VERSION);
    out.WriteU8(kind);
    out.WriteU8(0);
    ThreeBytes(LE(FRAME_MAGIC, 4), FRAME_VERSION, kind, 0);
    out.WriteU32(seqNo);
    out.WriteU32(len);
  }

  lemma ThreeBytes(a: seq<Byte>, x: Byte, y: Byte, z: Byte)
    ensures [] + a + [x] + [y] + [z] == a + [x, y, z]
  {
  }

  function Decode(b: seq<Byte>): Verdict {
    if |b| < HEADER_LEN then Fault(Truncated)
    else if FromLE(b[..4]) != FRAME_MAGIC then Fault(BadMagic)
    else if b[4] != FRAME_VERSION then Fault(UnsupportedVersion)
    else
      var len := FromLE(b[LEN_OFFSET..HEADER_LEN]);
      if len > MAX_PAYLOAD then Fault(Oversized)
      else
        var end := HEADER_LEN + len;
        if |b| < end + CHECKSUM_LEN then Fault(Truncated)
        else if Fnv(b[..end], FNV_SEED) != FromLE(b[end..end + CHECKSUM_LEN]) then Fault(CheckMismatch)
        else
          Seq32(b[SEQ_OFFSET..LEN_OFFSET]);
          Frame(Message(b[5], FromLE(b[SEQ_OFFSET..LEN_OFFSET]), b[HEADER_LEN..end]), end + CHECKSUM_LEN)
  }

  lemma Seq32(b: seq<Byte>)
    requires |b| == 4
    ensures FromLE(b) < TWO32 && LE(FromLE(b), 4) == b
  {
    FromLERoundTrip(b);
    PowerSizes();
  }

  // The or-shift loop over n bytes at an offset.
  method ReadAt(b: seq<Byte>, off: nat, n: nat) returns (v: nat)
    requires off + n <= |b|
    ensures v == FromLE(b[off..off + n])
  {
    v := 0;
    var place: nat := 1;
    for i := 0 to n
      invariant v == FromLE(b[off..off + i]) && place == Pow256(i)
    {
      FromLENext(b[off..off + i], b[off + i]);
      assert b[off..off + i + 1] == b[off..off + i] + [b[off + i]];
      v := v + b[off + i] * place;
      place := place * 256;
    }
  }

  method DecodeFrame(b: seq<Byte>) returns (v: Verdict)
    ensures v == Decode(b)
  {
    if |b| < HEADER_LEN { return Fault(Truncated); }
    var magic := ReadAt(b, 0, 4);
    if magic != FRAME_MAGIC { return Fault(BadMagic); }
    if b[4] != FRAME_VERSION { return Fault(UnsupportedVersion); }
    var len := ReadAt(b, LEN_OFFSET, 4);
    if len > MAX_PAYLOAD { return Fault(Oversized); }
    var end := HEADER_LEN + len;
    if |b| < end + CHECKSUM_LEN { return Fault(Truncated); }
    var expected := ReadAt(b, end, CHECKSUM_LEN);
    var actual := Fnv1a(b[..end], FNV_SEED);
    if actual != expected { return Fault(CheckMismatch); }
    var seqNo := ReadAt(b, SEQ_OFFSET, 4);
    Seq32(b[SEQ_OFFSET..LEN_OFFSET]);
    v := Frame(Message(b[5], seqNo, b[HEADER_LEN..end]), end + CHECKSUM_LEN);
  }

  // --- One frame ---------------------------------------------------------------------

  lemma HeaderFields(kind: Byte, flags: Byte, seqNo: Word32, len: Word32)
    ensures var h := Header(kind, flags, seqNo, len);
            && FromLE(h[..4]) == FRAME_MAGIC && h[4] == FRAME_VERSION && h[5] == kind && h[6] == flags
            && FromLE(h[SEQ_OFFSET..LEN_OFFSET]) == seqNo && FromLE(h[LEN_OFFSET..HEADER_LEN]) == len
  {
    var h := Header(kind, flags, seqNo, len);
    PowerSizes();
    assert h[..4] == LE(FRAME_MAGIC, 4) && h[SEQ_OFFSET..LEN_OFFSET] == LE(seqNo, 4);
    assert h[LEN_OFFSET..HEADER_LEN] == LE(len, 4);
    LERoundTrip(FRAME_MAGIC, 4);
    LERoundTrip(seqNo, 4);
    LERoundTrip(len, 4);
  }

  // b starts like the encoding of m does, at least through the header.
  lemma StartsLikeFrame(m: Message, b: seq<Byte>)
    requires m.Bounded() && HEADER_LEN <= |b| && b[..HEADER_LEN] == Encode(m)[..HEADER_LEN]
    ensures FromLE(b[..4]) == FRAME_MAGIC && b[4] == FRAME_VERSION && b[5] == m.kind
    ensures FromLE(b[SEQ_OFFSET..LEN_OFFSET]) == m.seqNo
    ensures FromLE(b[LEN_OFFSET..HEADER_LEN]) == |m.payload|
    ensures |Encode(m)| == HEADER_LEN + |m.payload| + CHECKSUM_LEN
  {
    var h := Header(m.kind, 0, m.seqNo, |m.payload|);
    assert b[..HEADER_LEN] == h;
    HeaderFields(m.kind, 0, m.seqNo, |m.payload|);
    assert b[..4] == h[..4] && b[SEQ_OFFSET..LEN_OFFSET] == h[SEQ_OFFSET..LEN_OFFSET];
    assert b[LEN_OFFSET..HEADER_LEN] == h[LEN_OFFSET..HEADER_LEN];
  }

  // Decoding an encoding followed by anything gives the message back.
  lemma DecodeEncode(m: Message, more: seq<Byte>)
    requires m.Bounded()
    ensures Decode(Encode(m) + more) == Frame(m, |Encode(m)|)
  {
    var b, h := Encode(m) + more, Header(m.kind, 0, m.seqNo, |m.payload|);
    var sum := Fnv(h + m.payload, FNV_SEED);
    Sliced(h, m.payload, LE(sum, CHECKSUM_LEN), more);
    StartsLikeFrame(m, b);
    PowerSizes();
    LERoundTrip(sum, CHECKSUM_LEN);
  }

  lemma Sliced(h: seq<Byte>, payload: seq<Byte>, sum: seq<Byte>, more: seq<Byte>)
    requires |h| == HEADER_LEN && |sum| == CHECKSUM_LEN
    ensures var (b, end) := (h + payload + sum + more, HEADER_LEN + |payload|);
            && b[..HEADER_LEN] == h && b[..end] == h + payload && b[HEADER_LEN..end] == payload
            && b[end..end + CHECKSUM_LEN] == sum
  {
  }

  // A proper prefix of an encoding is only ever truncated.
  lemma ProperPrefixTruncated(m: Message, b: seq<Byte>)
    requires m.Bounded()
    ensures b < Encode(m) ==> Decode(b) == Fault(Truncated)
  {
    if b < Encode(m) && |b| >= HEADER_LEN {
      assert b[..HEADER_LEN] == Encode(m)[..HEADER_LEN];
      StartsLikeFrame(m, b);
    }
  }

  // Appending bytes never changes a verdict that was not Truncated.
  lemma VerdictStable(b: seq<Byte>, more: seq<Byte>)
    requires Decode(b) != Fault(Truncated)
    ensures Decode(b + more) == Decode(b)
  {
    var c := b + more;
    assert c[..4] == b[..4] && c[LEN_OFFSET..HEADER_LEN] == b[LEN_OFFSET..HEADER_LEN];
    assert c[SEQ_OFFSET..LEN_OFFSET] == b[SEQ_OFFSET..LEN_OFFSET];
    var len := FromLE(b[LEN_OFFSET..HEADER_LEN]);
    var end := HEADER_LEN + len;
    if len <= MAX_PAYLOAD && |b| >= end + CHECKSUM_LEN {
      assert c[..end] == b[..end] && c[HEADER_LEN..end] == b[HEADER_LEN..end];
      assert c[end..end + CHECKSUM_LEN] == b[end..end + CHECKSUM_LEN];
    }
  }

  // Re-encoding a decoded frame gives the consumed bytes exactly when its
  // reserved flags byte is zero.
  lemma ReencodeIff(b: seq<Byte>)
    requires Decode(b).Frame?
    ensures var v := Decode(b);
            && HEADER_LEN <= v.consumed <= |b| && v.msg.Bounded()
            && (Encode(v.msg) == b[..v.consumed] <==> b[6] == 0)
  {
    var v := Decode(b);
    var end := v.consumed - CHECKSUM_LEN;
    DecodedBytes(b);
    if b[6] != 0 {
      assert Encode(v.msg)[6] == 0 && b[..v.consumed][6] == b[6];
    }
  }

  // What a decoded frame says of the bytes it came from.
  lemma FrameFields(b: seq<Byte>)
    requires Decode(b).Frame?
    ensures var (m, end) := (Decode(b).msg, Decode(b).consumed - CHECKSUM_LEN);
            && HEADER_LEN + |m.payload| == end <= |b| - CHECKSUM_LEN && m.Bounded()
            && FromLE(b[..4]) == FRAME_MAGIC && b[4] == FRAME_VERSION && b[5] == m.kind
            && FromLE(b[SEQ_OFFSET..LEN_OFFSET]) == m.seqNo && FromLE(b[LEN_OFFSET..HEADER_LEN]) == |m.payload|
            && m.payload == b[HEADER_LEN..end] && Fnv(b[..end], FNV_SEED) == FromLE(b[end..end + CHECKSUM_LEN])
  {
  }

  // The bytes of a decoded frame, rebuilt from what was decoded and the flags.
  lemma DecodedBytes(b: seq<Byte>)
    requires Decode(b).Frame?
    ensures var v := Decode(b);
            && HEADER_LEN + CHECKSUM_LEN <= v.consumed <= |b| && v.msg.Bounded()
            && b[..v.consumed] == Sealed(Header(v.msg.kind, b[6], v.msg.seqNo, |v.msg.payload|) + v.msg.payload)
  {
    var v := Decode(b);
    FrameFields(b);
    HeaderRebuilt(b[..HEADER_LEN], b, v.msg.seqNo, |v.msg.payload|);
    Rebuilt(b, b[..HEADER_LEN], v.msg.payload, v.consumed - CHECKSUM_LEN);
  }

  lemma Rebuilt(b: seq<Byte>, h: seq<Byte>, payload: seq<Byte>, end: nat)
    requires HEADER_LEN <= end <= |b| - CHECKSUM_LEN && h == b[..HEADER_LEN] && payload == b[HEADER_LEN..end]
    requires Fnv(b[..end], FNV_SEED) == FromLE(b[end..end + CHECKSUM_LEN])
    ensures b[..end + CHECKSUM_LEN] == Sealed(h + payload)
  {
    Joined(b, HEADER_LEN, end);
    Joined(b, end, end + CHECKSUM_LEN);
    FromLERoundTrip(b[end..end + CHECKSUM_LEN]);
  }

  lemma Joined(b: seq<Byte>, m: nat, n: nat)
    requires m <= n <= |b|
    ensures b[..m] + b[m..n] == b[..n]
  {
  }

  lemma HeaderRebuilt(h: seq<Byte>, b: seq<Byte>, seqNo: Word32, len: Word32)
    requires |b| >= HEADER_LEN && h == b[..HEADER_LEN]
    requires FromLE(b[..4]) == FRAME_MAGIC && b[4] == FRAME_VERSION
    requires FromLE(b[SEQ_OFFSET..LEN_OFFSET]) == seqNo && FromLE(b[LEN_OFFSET..HEADER_LEN]) == len
    ensures h == Header(b[5], b[6], seqNo, len)
  {
    Seq32(b[..4]);
    Seq32(b[SEQ_OFFSET..LEN_OFFSET]);
    Seq32(b[LEN_OFFSET..HEADER_LEN]);
    assert h == b[..4] + [b[4], b[5], b[6]] + b[SEQ_OFFSET..LEN_OFFSET] + b[LEN_OFFSET..HEADER_LEN];
  }

  // One changed byte of a frame: outside the length field every change is caught,
  // and what it is caught as depends only on where it is.
  lemma OneByteCaught(m: Message, i: nat, x: Byte, more: seq<Byte>)
    requires m.Bounded() && !(LEN_OFFSET <= i < HEADER_LEN)
    ensures i < |Encode(m)| && x != Encode(m)[i] ==>
              Decode(Encode(m)[i := x] + more)
              == Fault(if i < 4 then BadMagic else if i == 4 then UnsupportedVersion else CheckMismatch)
  {
    var e := Encode(m);
    if i < |e| && x != e[i] {
      if i < 4 {
        BrokenMagic(m, i, x, more);
      } else {
        BrokenFrame(m, i, x, more);
      }
    }
  }

  lemma BrokenMagic(m: Message, i: nat, x: Byte, more: seq<Byte>)
    requires m.Bounded() && i < 4 && x != Encode(m)[i]
    ensures Decode(Encode(m)[i := x] + more) == Fault(BadMagic)
  {
    var e := Encode(m);
    var c := e[i := x] + more;
    StartsLikeFrame(m, e);
    WordChanged(e[..4], i, x);
    assert c[..4] == e[..4][i := x];
  }

  lemma BrokenFrame(m: Message, i: nat, x: Byte, more: seq<Byte>)
    requires m.Bounded() && 4 <= i < |Encode(m)| && x != Encode(m)[i]
    requires !(LEN_OFFSET <= i < HEADER_LEN)
    ensures Decode(Encode(m)[i := x] + more) == Fault(if i == 4 then UnsupportedVersion else CheckMismatch)
  {
    var body := Header(m.kind, 0, m.seqNo, |m.payload|) + m.payload;
    StartsLikeFrame(m, Encode(m));
    BrokenSeal(Encode(m), |m.payload|, i, x, more);
    if i > 4 {
      SealBroken(body, i, x);
    }
  }

  lemma BrokenSeal(e: seq<Byte>, len: nat, i: nat, x: Byte, more: seq<Byte>)
    requires len <= MAX_PAYLOAD && |e| == HEADER_LEN + len + CHECKSUM_LEN && 4 <= i < |e| && x != e[i]
    requires FromLE(e[..4]) == FRAME_MAGIC && e[4] == FRAME_VERSION
    requires FromLE(e[LEN_OFFSET..HEADER_LEN]) == len && !(LEN_OFFSET <= i < HEADER_LEN)
    ensures i == 4 ==> Decode(e[i := x] + more) == Fault(UnsupportedVersion)
    ensures var (c, end) := (e[i := x], HEADER_LEN + len);
            i > 4 && Fnv(c[..end], FNV_SEED) != FromLE(c[end..]) ==> Decode(c + more) == Fault(CheckMismatch)
  {
    var c, end := e[i := x] + more, HEADER_LEN + len;
    assert c[..4] == e[..4] && c[LEN_OFFSET..HEADER_LEN] == e[LEN_OFFSET..HEADER_LEN];
    assert c[..end] == e[i := x][..end] && c[end..end + CHECKSUM_LEN] == e[i := x][end..];
  }

  // Changing one byte of sealed bytes breaks the seal.
  lemma SealBroken(body: seq<Byte>, i: nat, x: Byte)
    requires i < |Sealed(body)| && x != Sealed(body)[i]
    ensures var c := Sealed(body)[i := x];
            Fnv(c[..|body|], FNV_SEED) != FromLE(c[|body|..])
  {
    var e, n := Sealed(body), |body|;
    var c := e[i := x];
    PowerSizes();
    LERoundTrip(Fnv(body, FNV_SEED), CHECKSUM_LEN);
    if i < n {
      assert c[..n] == body[i := x] && c[n..] == LE(Fnv(body, FNV_SEED), CHECKSUM_LEN);
      OneByteDetected(body, i, x, FNV_SEED);
    } else {
      assert c[..n] == body && c[n..] == LE(Fnv(body, FNV_SEED), CHECKSUM_LEN)[i - n := x];
      WordChanged(LE(Fnv(body, FNV_SEED), CHECKSUM_LEN), i - n, x);
    }
  }

  lemma WordChanged(b: seq<Byte>, i: nat, x: Byte)
    requires i < |b| && x != b[i]
    ensures FromLE(b[i := x]) != FromLE(b)
  {
    FromLERoundTrip(b);
    FromLERoundTrip(b[i := x]);
    assert b[i := x][i] != b[i];
  }

  // --- Many frames in arbitrary chunks -----------------------------------------------------

  // What a pop returns, and the bytes it leaves.
  function Pop(buf: seq<Byte>): (Verdict, seq<Byte>) {
    var v := Decode(buf);
    match v
    case Frame(_, n) => if n <= |buf| then (v, buf[n..]) else (v, [])
    case Fault(e) => (v, if e == Truncated then buf else [])
  }

  class FrameBuffer {
    var buf: seq<Byte>

    constructor ()
      ensures buf == []
    {
      buf := [];
    }

    method Append(data: seq<Byte>)
      modifies this
      ensures buf == old(buf) + data
    {
      buf := buf + data;
    }

    method PopFrame() returns (v: Verdict)
      modifies this
      ensures (v, buf) == Pop(old(buf))
    {
      v := DecodeFrame(buf);
      match v
      case Fault(e) =>
        if e == BadMagic || e == UnsupportedVersion || e == Oversized || e == CheckMismatch {
          buf := [];
        }
      case Frame(_, n) =>
        ReencodeIff(buf);
        buf := buf[n..];
    }
  }

  // One use of the buffer.
  datatype Op = Append(data: seq<Byte>) | PopOne

  datatype Receiver = Receiver(buf: seq<Byte>, popped: seq<Message>, faults: seq<FrameError>)

  function After(r: Receiver, op: Op): Receiver {
    match op
    case Append(data) => r.(buf := r.buf + data)
    case PopOne => Taken(r, Pop(r.buf).0, Pop(r.buf).1)
  }

  function Taken(r: Receiver, v: Verdict, rest: seq<Byte>): Receiver {
    match v
    case Frame(m, _) => Receiver(rest, r.popped + [m], r.faults)
    case Fault(e) => Receiver(rest, r.popped, r.faults + [e])
  }

  function Run(ops: seq<Op>): Receiver {
    if ops == [] then Receiver([], [], [])
    else After(Run(ops[..|ops| - 1]), ops[|ops| - 1])
  }

  function Delivered(ops: seq<Op>): seq<Byte> {
    if ops == [] then []
    else
      var rest := Delivered(ops[..|ops| - 1]);
      if ops[|ops| - 1].Append? then rest + ops[|ops| - 1].data else rest
  }

  function Flat<T>(xs: seq<T>, f: T -> seq<Byte>): seq<Byte> {
    if xs == [] then [] else Flat(xs[..|xs| - 1], f) + f(xs[|xs| - 1])
  }

  lemma {:induction false} FlatSplit<T>(xs: seq<T>, k: nat, f: T -> seq<Byte>)
    requires k <= |xs|
    ensures Flat(xs, f) == Flat(xs[..k], f) + Flat(xs[k..], f)
  {
    if k == |xs| {
      assert xs[..k] == xs && xs[k..] == [];
    } else {
      var n := |xs| - 1;
      FlatSplit(xs[..n], k, f);
      assert xs[..n][..k] == xs[..k] && xs[..n][k..] == xs[k..][..n - k];
    }
  }

  // The front of what is still to come.
  lemma FlatNext<T>(xs: seq<T>, k: nat, f: T -> seq<Byte>)
    requires k < |xs|
    ensures Flat(xs[..k + 1], f) == Flat(xs[..k], f) + f(xs[k])
    ensures Flat(xs, f) == Flat(xs[..k], f) + f(xs[k]) + Flat(xs[k + 1..], f)
  {
    FlatSplit(xs, k + 1, f);
    assert xs[..k + 1][..k] == xs[..k];
  }

  // The encodings of the messages, one after the other.
  function Stream(msgs: seq<Message>): seq<Byte> {
    Flat(msgs, Encode)
  }

  ghost predicate AllBounded(msgs: seq<Message>) {
    forall m | m in msgs :: m.Bounded()
  }

  // The receiver has popped the first messages of the stream and holds exactly
  // the bytes delivered after them.
  ghost predicate InStep(r: Receiver, delivered: seq<Byte>, msgs: seq<Message>) {
    && |r.popped| <= |msgs|
    && r.popped == msgs[..|r.popped|]
    && delivered == Stream(r.popped) + r.buf
    && forall e | e in r.faults :: e == Truncated
  }

  // A pop on the front of a stream takes its first message once it is complete.
  lemma PopFront(buf: seq<Byte>, m: Message, later: seq<Byte>)
    requires m.Bounded() && buf <= Encode(m) + later
    ensures Pop(buf) == if |buf| < |Encode(m)| then (Fault(Truncated), buf)
                        else (Frame(m, |Encode(m)|), buf[|Encode(m)|..])
  {
    var e := Encode(m);
    if |buf| >= |e| {
      assert buf == e + buf[|e|..];
      DecodeEncode(m, buf[|e|..]);
    } else {
      assert buf < e;
      ProperPrefixTruncated(m, buf);
    }
  }

  lemma SplitFront(delivered: seq<Byte>, past: seq<Byte>, buf: seq<Byte>, e: seq<Byte>, later: seq<Byte>)
    requires delivered == past + buf && delivered <= past + e + later
    ensures buf <= e + later
    ensures |buf| >= |e| ==> delivered == past + e + buf[|e|..]
    ensures past + e <= delivered <==> |buf| >= |e|
  {
    assert buf == delivered[|past|..];
    assert e + later == (past + e + later)[|past|..];
    if |buf| >= |e| {
      assert buf == e + buf[|e|..];
    }
  }

  // The next message is ready when all its bytes are delivered.
  ghost predicate NextReady(r: Receiver, delivered: seq<Byte>, msgs: seq<Message>) {
    |r.popped| < |msgs| && Stream(msgs[..|r.popped| + 1]) <= delivered
  }

  lemma TakenKeepsStep(r: Receiver, delivered: seq<Byte>, msgs: seq<Message>, e: seq<Byte>,
                       v: Verdict, rest: seq<Byte>)
    requires |r.popped| < |msgs| && delivered <= Stream(msgs) && InStep(r, delivered, msgs)
    requires e == Encode(msgs[|r.popped|])
    requires (v, rest) == if |r.buf| < |e| then (Fault(Truncated), r.buf)
                          else (Frame(msgs[|r.popped|], |e|), r.buf[|e|..])
    ensures InStep(Taken(r, v, rest), delivered, msgs)
    ensures v.Frame? <==> NextReady(r, delivered, msgs)
  {
    var k := |r.popped|;
    FlatNext(msgs, k, Encode);
    SplitFront(delivered, Stream(r.popped), r.buf, e, Flat(msgs[k + 1..], Encode));
    if |r.buf| >= |e| {
      FrameKeepsStep(r, delivered, msgs, e);
    }
  }

  lemma FrameKeepsStep(r: Receiver, delivered: seq<Byte>, msgs: seq<Message>, e: seq<Byte>)
    requires |r.popped| < |msgs| && |r.buf| >= |e| && InStep(r, delivered, msgs)
    requires Stream(msgs[..|r.popped| + 1]) == Stream(r.popped) + e
    requires delivered == Stream(r.popped) + e + r.buf[|e|..]
    ensures InStep(Receiver(r.buf[|e|..], r.popped + [msgs[|r.popped|]], r.faults), delivered, msgs)
  {
    assert msgs[..|r.popped| + 1] == r.popped + [msgs[|r.popped|]];
  }

  // A pop takes the next message exactly when it is ready.
  lemma PopKeepsStep(r: Receiver, delivered: seq<Byte>, msgs: seq<Message>)
    requires AllBounded(msgs) && delivered <= Stream(msgs) && InStep(r, delivered, msgs)
    ensures InStep(After(r, PopOne), delivered, msgs)
    ensures |After(r, PopOne).popped| == |r.popped| + if NextReady(r, delivered, msgs) then 1 else 0
  {
    var k := |r.popped|;
    if k == |msgs| {
      assert msgs[..k] == msgs && r.buf == [];
    } else {
      assert msgs[k] in msgs;
      var later := Flat(msgs[k + 1..], Encode);
      assert r.buf <= Encode(msgs[k]) + later by {
        FlatNext(msgs, k, Encode);
        SplitFront(delivered, Stream(r.popped), r.buf, Encode(msgs[k]), later);
      }
      PopFront(r.buf, msgs[k], later);
      TakenKeepsStep(r, delivered, msgs, Encode(msgs[k]), Pop(r.buf).0, Pop(r.buf).1);
    }
  }

  lemma AppendKeepsStep(r: Receiver, delivered: seq<Byte>, data: seq<Byte>, msgs: seq<Message>)
    requires InStep(r, delivered, msgs)
    ensures InStep(After(r, Append(data)), delivered + data, msgs)
  {
    Reassociate(Stream(r.popped), r.buf, data);
  }

  lemma Reassociate(a: seq<Byte>, b: seq<Byte>, c: seq<Byte>)
    ensures a + b + c == a + (b + c)
  {
  }

  // Whatever the chunks and however appends and pops interleave: the messages come
  // out in order, nothing is lost, and the only fault ever seen is Truncated.
  lemma {:induction false} StreamInOrder(ops: seq<Op>, msgs: seq<Message>)
    requires AllBounded(msgs)
    ensures Delivered(ops) <= Stream(msgs) ==> InStep(Run(ops), Delivered(ops), msgs)
  {
    if ops != [] && Delivered(ops) <= Stream(msgs) {
      var init, op := ops[..|ops| - 1], ops[|ops| - 1];
      assert Delivered(init) <= Stream(msgs);
      StreamInOrder(init, msgs);
      if op.PopOne? {
        PopKeepsStep(Run(init), Delivered(init), msgs);
      } else {
        AppendKeepsStep(Run(init), Delivered(init), op.data, msgs);
      }
    }
  }

  function Pops(n: nat): seq<Op> {
    if n == 0 then [] else Pops(n - 1) + [PopOne]
  }

  // All the bytes are delivered and, n pops after p messages, every pop has yielded one
  // message until none was missing.
  ghost predicate Progress(r: Receiver, p: nat, n: nat, msgs: seq<Message>) {
    InStep(r, Stream(msgs), msgs) && |r.popped| == if p + n < |msgs| then p + n else |msgs|
  }

  lemma ProgressPop(r: Receiver, p: nat, n: nat, msgs: seq<Message>)
    requires AllBounded(msgs) && Progress(r, p, n, msgs)
    ensures Progress(After(r, PopOne), p, n + 1, msgs)
  {
    PopKeepsStep(r, Stream(msgs), msgs);
    if |r.popped| < |msgs| {
      FlatSplit(msgs, |r.popped| + 1, Encode);
    }
  }

  lemma ProgressStarts(ops: seq<Op>, msgs: seq<Message>)
    requires AllBounded(msgs) && Delivered(ops) == Stream(msgs)
    ensures Progress(Run(ops), |Run(ops).popped|, 0, msgs)
  {
    StreamInOrder(ops, msgs);
  }

  // Run, one pop later.
  lemma PopAfter(ops: seq<Op>, n: nat)
    requires n > 0
    ensures Run(ops + Pops(n)) == After(Run(ops + Pops(n - 1)), PopOne)
  {
    var before := ops + Pops(n - 1);
    assert ops + Pops(n) == before + [PopOne];
    assert (before + [PopOne])[..|before|] == before;
  }

  // Once everything is delivered, every pop yields a message until none is missing.
  lemma {:induction false} StreamComplete(ops: seq<Op>, msgs: seq<Message>, n: nat)
    requires AllBounded(msgs) && Delivered(ops) == Stream(msgs)
    ensures Progress(Run(ops + Pops(n)), |Run(ops).popped|, n, msgs)
  {
    if n == 0 {
      ProgressStarts(ops, msgs);
      assert ops + [] == ops;
    } else {
      StreamComplete(ops, msgs, n - 1);
      ProgressAfter(ops, |Run(ops).popped|, n, msgs);
    }
  }

  lemma ProgressAfter(ops: seq<Op>, p: nat, n: nat, msgs: seq<Message>)
    requires n > 0 && AllBounded(msgs) && Progress(Run(ops + Pops(n - 1)), p, n - 1, msgs)
    ensures Progress(Run(ops + Pops(n)), p, n, msgs)
  {
    ProgressPop(Run(ops + Pops(n - 1)), p, n - 1, msgs);
    PopAfter(ops, n);
  }

  // All the messages, in order, and nothing left over.
  lemma StreamDelivered(ops: seq<Op>, msgs: seq<Message>, n: nat)
    requires AllBounded(msgs) && Delivered(ops) == Stream(msgs) && n >= |msgs|
    ensures Run(ops + Pops(n)).popped == msgs && Run(ops + Pops(n)).buf == []
  {
    StreamComplete(ops, msgs, n);
    AllPopped(Run(ops + Pops(n)), msgs);
  }

  lemma AllPopped(r: Receiver, msgs: seq<Message>)
    requires InStep(r, Stream(msgs), msgs) && |r.popped| == |msgs|
    ensures r.popped == msgs && r.buf == []
  {
    assert msgs[..|msgs|] == msgs;
  }
}
