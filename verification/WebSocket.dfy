/** The frame reader and writer of extmod/moduwebsocket.c over a stream that
    delivers and takes bytes in arbitrary pieces (sections 5.2 and 5.3 of RFC 6455). */
module WebSocket {
  import opened Bytes
  import opened Seqs
  import opened Streams

  // ----- Frames on the wire

  /** A complete frame: its two header bytes, the extended length and masking
      key when present, and the payload before masking. */
  datatype Frame = Frame(b0: Byte, b1: Byte, ext: seq<Byte>, key: seq<Byte>, payload: seq<Byte>)

  /** `b0 & 0x0f`. */
  function Opcode(b0: Byte): Byte { b0 % 16 }

  /** `b1 & 0x7f`. */
  function ShortLength(b1: Byte): Byte { b1 % 128 }

  /** `b1 & 0x80`. */
  predicate HasKey(b1: Byte) { b1 >= 128 }

  predicate IsControl(f: Frame) { Opcode(f.b0) >= 8 }

  const CLOSE: Byte := 8

  function Length16(hi: Byte, lo: Byte): nat {
    hi as int * 0x100 + lo
  }

  /** FIN is set, and the length is not a 64-bit one and matches the payload. */
  predicate FrameOk(f: Frame) {
    && f.b0 >= 0x80
    && ShortLength(f.b1) != 127
    && |f.ext| == (if ShortLength(f.b1) == 126 then 2 else 0)
    && |f.key| == (if HasKey(f.b1) then 4 else 0)
    && |f.payload| == (if ShortLength(f.b1) == 126 then Length16(f.ext[0], f.ext[1]) else ShortLength(f.b1))
  }

  const NO_MASK: seq<Byte> := [0, 0, 0, 0]

  function MaskOf(f: Frame): (m: seq<Byte>)
    requires FrameOk(f)
    ensures |m| == 4
  {
    if f.key == [] then NO_MASK else f.key
  }

  /** Section 5.3: octet i is combined with octet i mod 4 of the key. */
  function Masked(payload: seq<Byte>, mask: seq<Byte>): (s: seq<Byte>)
    requires |mask| == 4
    ensures |s| == |payload|
  {
    seq(|payload|, i requires 0 <= i < |payload| => Xor(payload[i], mask[i % 4]))
  }

  function Body(f: Frame): (s: seq<Byte>)
    requires FrameOk(f)
    ensures |s| == |f.payload|
  {
    Masked(f.payload, MaskOf(f))
  }

  function Wire(f: Frame): (s: seq<Byte>)
    requires FrameOk(f)
  {
    [f.b0, f.b1] + (f.ext + f.key + Body(f))
  }

  predicate FramesOk(fs: seq<Frame>) { forall i :: 0 <= i < |fs| ==> FrameOk(fs[i]) }

  function WireAll(fs: seq<Frame>): (s: seq<Byte>)
    requires FramesOk(fs)
  {
    if fs == [] then [] else Wire(fs[0]) + WireAll(fs[1..])
  }

  /** The bytes a reader should see: control frames contribute nothing. */
  function Plain(fs: seq<Frame>): seq<Byte> {
    if fs == [] then [] else DataOf(fs[0], 0) + Plain(fs[1..])
  }

  /** What a frame has for the reader from `done` on. */
  function DataOf(f: Frame, done: nat): seq<Byte> {
    if IsControl(f) || done > |f.payload| then [] else f.payload[done..]
  }

  /** No control frame has more than one byte of payload. */
  ghost predicate Quiet(fs: seq<Frame>) { forall i :: 0 <= i < |fs| ==> Small(fs[i]) }

  predicate Small(f: Frame) { IsControl(f) ==> |f.payload| <= 1 }

  // ----- The reader's state machine

  datatype State = FrameHeader | FrameOpt | Payload | Control

  /** The fields of mp_obj_websocket_t that drive reading; `held` is what has
      been collected in the header buffer. */
  datatype Reader = Reader(
    state: State, toRecv: nat, held: seq<Byte>, msgSz: nat, mask: seq<Byte>, maskPos: nat,
    wsFlags: Byte, lastFlags: Byte)

  /** Position in the incoming frames: those not yet finished, and how much of
      the first one's payload has been delivered. */
  datatype Progress = Progress(rest: seq<Frame>, done: nat)

  /** The payload bytes still to be delivered. */
  function Pending(g: Progress): seq<Byte> {
    if g.rest == [] then [] else DataOf(g.rest[0], g.done) + Plain(g.rest[1..])
  }

  ghost predicate HeaderInv(r: Reader, g: Progress, ahead: seq<Byte>)
    requires FramesOk(g.rest)
  {
    && g.done == 0 && r.maskPos == 0 && |r.held| + r.toRecv == 2
    && r.held + ahead == WireAll(g.rest)
  }

  ghost predicate OptInv(r: Reader, g: Progress, ahead: seq<Byte>)
    requires FramesOk(g.rest)
  {
    && g.done == 0 && r.maskPos == 0 && g.rest != []
    && (var f := g.rest[0];
        && |r.held| + r.toRecv == |f.ext| + |f.key| > 0
        && r.lastFlags == f.b0 && r.mask == NO_MASK && r.msgSz == ShortLength(f.b1)
        && r.held + ahead == f.ext + f.key + (Body(f) + WireAll(g.rest[1..])))
  }

  ghost predicate PayloadInv(r: Reader, g: Progress, ahead: seq<Byte>)
    requires FramesOk(g.rest)
  {
    && r.toRecv == 0 && r.held == [] && g.rest != []
    && (var f := g.rest[0];
        && r.state == (if IsControl(f) then Control else Payload)
        && r.lastFlags == f.b0 && r.mask == MaskOf(f)
        && g.done + r.msgSz == |f.payload| && r.maskPos == g.done % 256
        && ahead == Body(f)[g.done..] + WireAll(g.rest[1..]))
  }

  /** What holds at the top of the read loop, whatever was delivered so far. */
  ghost predicate Inv(r: Reader, g: Progress, ahead: seq<Byte>) {
    && FramesOk(g.rest) && |r.mask| == 4
    && match r.state
       case FrameHeader => HeaderInv(r, g, ahead)
       case FrameOpt => OptInv(r, g, ahead)
       case Payload => PayloadInv(r, g, ahead)
       case Control => PayloadInv(r, g, ahead)
  }

  /** The header buffer of six bytes never overflows. */
  lemma BufferFits(r: Reader, g: Progress, ahead: seq<Byte>)
    requires Inv(r, g, ahead)
    ensures |r.held| + r.toRecv <= 6
  {
  }

  /** At the top of the loop a fixed-size field is always awaited. */
  predicate Waiting(r: Reader) {
    r.state.FrameHeader? || r.state.FrameOpt? ==> r.toRecv > 0
  }

  /** Between calls a payload has bytes left. */
  predicate Resting(r: Reader) {
    Waiting(r) && (r.state.Payload? || r.state.Control? ==> r.msgSz > 0)
  }

  lemma SplitEq<T>(a: seq<T>, b: seq<T>, c: seq<T>, d: seq<T>)
    requires a + b == c + d && |a| == |c|
    ensures a == c && b == d
  {
    assert a == (a + b)[..|a|] && c == (c + d)[..|c|];
    assert b == (a + b)[|a|..] && d == (c + d)[|c|..];
  }

  /** Bytes received into the header buffer. */
  function Filled(r: Reader, data: seq<Byte>): Reader
    requires |data| <= r.toRecv
  {
    r.(held := r.held + data, toRecv := r.toRecv - |data|)
  }

  lemma FilledInv(r: Reader, g: Progress, data: seq<Byte>, ahead: seq<Byte>)
    requires Inv(r, g, data + ahead) && |data| <= r.toRecv && r.toRecv > 0
    ensures Inv(Filled(r, data), g, ahead)
  {
    hide WireAll, Body, FrameOk;
    Assoc(r.held, data, ahead);
  }

  /** A wire of whole frames never ends inside a fixed-size field or a payload. */
  lemma EndMeansDone(r: Reader, g: Progress)
    requires Inv(r, g, [])
    requires r.toRecv > 0 || (!r.state.FrameHeader? && !r.state.FrameOpt? && r.msgSz > 0)
    ensures g.rest == [] && Pending(g) == []
  {
  }

  /** The FRAME_HEADER case. */
  function AfterHeader(r: Reader): Reader
    requires r.state.FrameHeader? && |r.held| == 2
  {
    var b0, b1 := r.held[0], r.held[1];
    Reader(
      if FieldBytes(b1) != 0 then FrameOpt else BodyState(b0),
      FieldBytes(b1), [], ShortLength(b1), NO_MASK, r.maskPos, DataFlags(r.wsFlags, b0), b0)
  }

  /** Size of the extended length and the masking key. */
  function FieldBytes(b1: Byte): nat {
    (if ShortLength(b1) == 126 then 2 else 0) + (if HasKey(b1) then 4 else 0)
  }

  function BodyState(b0: Byte): State {
    if Opcode(b0) >= 8 then Control else Payload
  }

  /** A continuation frame keeps the previous frame type. */
  function DataFlags(wsFlags: Byte, b0: Byte): Byte {
    if Opcode(b0) == 0 then wsFlags % 16 + b0 / 16 * 16 else b0
  }

  lemma WireSplit(g: Progress)
    requires FramesOk(g.rest) && g.rest != []
    ensures var f := g.rest[0];
      WireAll(g.rest) == [f.b0, f.b1] + (f.ext + f.key + (Body(f) + WireAll(g.rest[1..])))
  {
  }

  /** The two collected bytes are the header of the next frame. */
  lemma HeaderBytes(r: Reader, g: Progress, ahead: seq<Byte>) returns (f: Frame)
    requires Inv(r, g, ahead) && r.state.FrameHeader? && r.toRecv == 0
    ensures g.rest != [] && f == g.rest[0] && FrameOk(f) && r.held == [f.b0, f.b1]
    ensures ahead == f.ext + f.key + (Body(f) + WireAll(g.rest[1..]))
  {
    hide WireAll, Body;
    assert |r.held + ahead| >= 2;
    EmptyWire(g.rest);
    f := g.rest[0];
    assert FrameOk(f);
    WireSplit(g);
    SplitEq(r.held, ahead, [f.b0, f.b1], f.ext + f.key + (Body(f) + WireAll(g.rest[1..])));
  }

  lemma AfterHeaderInv(r: Reader, g: Progress, ahead: seq<Byte>)
    requires Inv(r, g, ahead) && r.state.FrameHeader? && r.toRecv == 0
    ensures Inv(AfterHeader(r), g, ahead) && !AfterHeader(r).state.FrameHeader? && Waiting(AfterHeader(r))
  {
    hide WireAll, Body, Length16;
    var f := HeaderBytes(r, g, ahead);
    var tail := WireAll(g.rest[1..]);
    assert [] + ahead == ahead;
    if f.ext == [] && f.key == [] {
      assert f.ext + f.key + (Body(f) + tail) == Body(f)[0..] + tail;
    }
  }

  lemma EmptyWire(fs: seq<Frame>)
    requires FramesOk(fs)
    ensures fs == [] ==> WireAll(fs) == []
  {
  }

  /** The FRAME_OPT case. */
  function AfterOpt(r: Reader): Reader
    requires r.state.FrameOpt? && |r.held| in {2, 4, 6} && |r.mask| == 4
  {
    var n := |r.held|;
    Reader(
      BodyState(r.lastFlags), 0, [],
      if n % 4 == 2 then Length16(r.held[0], r.held[1]) else r.msgSz,
      if n >= 4 then r.held[n - 4..] else r.mask, r.maskPos, r.wsFlags, r.lastFlags)
  }

  lemma OptLength(r: Reader, g: Progress, ahead: seq<Byte>)
    requires Inv(r, g, ahead) && r.state.FrameOpt?
    ensures |r.held| + r.toRecv in {2, 4, 6}
  {
  }

  lemma AfterOptInv(r: Reader, g: Progress, ahead: seq<Byte>)
    requires Inv(r, g, ahead) && r.state.FrameOpt? && r.toRecv == 0
    ensures |r.held| in {2, 4, 6} && Inv(AfterOpt(r), g, ahead) && Waiting(AfterOpt(r))
  {
    hide WireAll, Body;
    OptLength(r, g, ahead);
    var f := g.rest[0];
    assert FrameOk(f);
    SplitEq(r.held, ahead, f.ext + f.key, Body(f) + WireAll(g.rest[1..]));
    var n := |r.held|;
    if n % 4 == 2 {
      assert r.held[0] == f.ext[0] && r.held[1] == f.ext[1];
    }
    if n >= 4 {
      assert r.held[n - 4..] == f.key;
    }
    assert Body(f)[0..] == Body(f);
  }

  /** Unmasking `data` from position `maskPos` on. */
  function Unmask(data: seq<Byte>, mask: seq<Byte>, maskPos: nat): (s: seq<Byte>)
    requires |mask| == 4
    ensures |s| == |data|
  {
    seq(|data|, i requires 0 <= i < |data| => Xor(data[i], mask[(maskPos + i) % 4]))
  }

  /** `data` of the payload was delivered. */
  function AfterPayload(r: Reader, n: nat): Reader
    requires n <= r.msgSz
  {
    if n == r.msgSz then r.(state := FrameHeader, toRecv := 2, maskPos := 0, held := [], msgSz := 0)
    else r.(msgSz := r.msgSz - n, maskPos := (r.maskPos + n) % 256)
  }

  function Delivered(g: Progress, n: nat): Progress
    requires g.rest != []
  {
    if g.done + n == |g.rest[0].payload| then Progress(g.rest[1..], 0) else g.(done := g.done + n)
  }

  lemma MaskIndex(k: nat, i: nat)
    ensures (k % 256 + i) % 4 == (k + i) % 4
  {
    var q, m := k / 256, k % 256 + i;
    assert k + i == 4 * (64 * q) + m;
    FourMore(64 * q, m);
  }

  lemma FourMore(a: nat, b: nat)
    ensures (4 * a + b) % 4 == b % 4
  {
  }

  lemma UnmaskOne(payload: seq<Byte>, mask: seq<Byte>, done: nat, n: nat, i: nat)
    requires |mask| == 4 && done + n <= |payload| && i < n
    ensures Unmask(Masked(payload, mask)[done..done + n], mask, done % 256)[i] == payload[done + i]
  {
    var k := (done + i) % 4;
    assert (done % 256 + i) % 4 == k by { MaskIndex(done, i); }
    var masked := Masked(payload, mask);
    assert masked[done + i] == Xor(payload[done + i], mask[k]);
    var chunk := masked[done..done + n];
    assert chunk[i] == masked[done + i];
    XorTwice(payload[done + i], mask[k]);
  }

  /** A chunk of a masked payload, unmasked from the saved position. */
  lemma UnmaskChunk(f: Frame, done: nat, n: nat)
    requires FrameOk(f) && done + n <= |f.payload|
    ensures Unmask(Body(f)[done..done + n], MaskOf(f), done % 256) == f.payload[done..done + n]
  {
    hide Masked, Unmask, MaskOf, FrameOk;
    var u := Unmask(Body(f)[done..done + n], MaskOf(f), done % 256);
    var p := f.payload[done..done + n];
    forall i | 0 <= i < n ensures u[i] == p[i] {
      UnmaskOne(f.payload, MaskOf(f), done, n, i);
    }
  }

  /** Reading part of a payload: the bytes, after unmasking, are the next ones of the
      frame, and for a data frame the next pending ones. */
  lemma PayloadChunk(r: Reader, g: Progress, data: seq<Byte>, ahead: seq<Byte>)
    requires Inv(r, g, data + ahead) && (r.state.Payload? || r.state.Control?) && |data| <= r.msgSz
    ensures Inv(AfterPayload(r, |data|), Delivered(g, |data|), ahead)
    ensures g.done + |data| <= |g.rest[0].payload|
    ensures Unmask(data, r.mask, r.maskPos) == g.rest[0].payload[g.done..g.done + |data|]
    ensures Pending(g)
      == (if r.state.Control? then [] else Unmask(data, r.mask, r.maskPos)) + Pending(Delivered(g, |data|))
  {
    hide WireAll, Body, Plain, Pending, Unmask, FrameOk, MaskOf;
    var f, n := g.rest[0], |data|;
    assert FrameOk(f);
    ChunkOfBody(f, g, data, ahead);
    UnmaskChunk(f, g.done, n);
    PendingSplit(g, n);
    if n < r.msgSz {
      WrapSum(g.done, n);
    } else {
      assert Body(f)[g.done + n..] == [];
      assert [] + WireAll(g.rest[1..]) == WireAll(g.rest[1..]);
      assert [] + ahead == ahead;
    }
  }

  lemma WrapSum(a: nat, n: nat)
    ensures (a % 256 + n) % 256 == (a + n) % 256
  {
  }

  lemma ChunkOfBody(f: Frame, g: Progress, data: seq<Byte>, ahead: seq<Byte>)
    requires FramesOk(g.rest) && g.rest != [] && f == g.rest[0] && FrameOk(f)
    requires g.done + |data| <= |f.payload|
    requires data + ahead == Body(f)[g.done..] + WireAll(g.rest[1..])
    ensures data == Body(f)[g.done..g.done + |data|]
    ensures ahead == Body(f)[g.done + |data|..] + WireAll(g.rest[1..])
  {
    hide WireAll;
    var n, b := |data|, Body(f);
    assert b[g.done..] == b[g.done..g.done + n] + b[g.done + n..];
    Assoc(b[g.done..g.done + n], b[g.done + n..], WireAll(g.rest[1..]));
    SplitEq(data, ahead, b[g.done..g.done + n], b[g.done + n..] + WireAll(g.rest[1..]));
  }

  lemma PendingSplit(g: Progress, n: nat)
    requires g.rest != [] && g.done + n <= |g.rest[0].payload|
    ensures Pending(g)
      == (if IsControl(g.rest[0]) then [] else g.rest[0].payload[g.done..g.done + n]) + Pending(Delivered(g, n))
  {
    hide Plain;
    var f := g.rest[0];
    if g.done + n == |f.payload| {
      PendingStart(g.rest[1..]);
    }
    if !IsControl(f) {
      CutPayload(f.payload, g.done, n, Plain(g.rest[1..]));
    }
  }

  lemma CutPayload(p: seq<Byte>, done: nat, n: nat, rest: seq<Byte>)
    requires done + n <= |p|
    ensures p[done..] + rest == p[done..done + n] + (p[done + n..] + rest)
    ensures done + n == |p| ==> p[done + n..] + rest == rest
  {
    assert p[done..] == p[done..done + n] + p[done + n..];
    Assoc(p[done..done + n], p[done + n..], rest);
  }

  lemma PendingStart(fs: seq<Frame>)
    ensures Pending(Progress(fs, 0)) == Plain(fs)
  {
  }

  // ----- Writing

  const STREAM_ERROR: int := -1

  /** The reply to a close frame, itself sent as a message. */
  const CLOSE_REPLY: seq<Byte> := [0x88, 0]

  function Header(opts: Byte, size: nat): (h: seq<Byte>)
    requires size < 0x1_0000
  {
    [0x80 + opts % 16] + (if size < 126 then [size] else [126, size / 0x100, size % 0x100])
  }

  /** The frame for `data` under the option byte `opts`. */
  function WrittenBytes(opts: Byte, data: seq<Byte>): (s: seq<Byte>)
    requires |data| < 0x1_0000
  {
    Header(opts, |data|) + data
  }

  /** BLOCKING_WRITE. */
  predicate Blocking(opts: Byte) { opts >= 0x80 }

  /** What one websocket_write puts on the stream, its result, error and the answers left. */
  datatype Sent = Sent(bytes: seq<Byte>, n: int, err: nat, answers: seq<Answer>)

  /** websocket_write: the header, then the data unless the header reported an error. */
  function Writing(opts: Byte, blocking: bool, answers: seq<Answer>, data: seq<Byte>): Sent
    requires |data| < 0x1_0000
  {
    var header := Header(opts, |data|);
    var waits := blocking || Blocking(opts);
    var h := Rw(answers, waits, |header|);
    if h.err != 0 then Sent(header[..h.done], STREAM_ERROR, h.err, h.answers)
    else
      var d := Rw(h.answers, waits, |data|);
      Sent(header[..h.done] + data[..d.done], if d.err != 0 then STREAM_ERROR else d.done, d.err, d.answers)
  }

  /** The stream takes the header and then the data. */
  predicate Taken(opts: Byte, blocking: bool, answers: seq<Answer>, size: nat)
    requires size < 0x1_0000
  {
    var waits, k := blocking || Blocking(opts), |Header(opts, size)|;
    Flows(answers, waits, k) && Flows(Rw(answers, waits, k).answers, waits, size)
  }

  /** The whole frame goes out exactly when the stream refuses nothing on the way, and
      then the write reports all of the data. */
  lemma WholeIffTaken(opts: Byte, blocking: bool, answers: seq<Answer>, data: seq<Byte>)
    requires |data| < 0x1_0000
    ensures (Writing(opts, blocking, answers, data).bytes == WrittenBytes(opts, data))
      <==> Taken(opts, blocking, answers, |data|)
    ensures Taken(opts, blocking, answers, |data|) ==> Writing(opts, blocking, answers, data).n == |data|
  {
    var header := Header(opts, |data|);
    var waits := blocking || Blocking(opts);
    var h := Rw(answers, waits, |header|);
    RwWhole(answers, waits, |header|);
    RwWhole(h.answers, waits, |data|);
    hide Rw, Flows, Header;
    if Taken(opts, blocking, answers, |data|) {
      assert header[..|header|] == header && data[..|data|] == data;
    } else {
      assert |Writing(opts, blocking, answers, data).bytes| < |header| + |data|;
    }
  }

  /** The header is cut short without an error, and then the data is taken. */
  predicate Torn(opts: Byte, blocking: bool, answers: seq<Answer>, size: nat)
    requires size < 0x1_0000
  {
    var waits, k := blocking || Blocking(opts), |Header(opts, size)|;
    Stops(answers, waits, k, false) && Flows(Rw(answers, waits, k).answers, waits, size)
  }

  /** A write reports all of the data without an error, but has not sent the frame, exactly
      when its header was torn. */
  lemma LiesIffTorn(opts: Byte, blocking: bool, answers: seq<Answer>, data: seq<Byte>)
    requires |data| < 0x1_0000
    ensures var w := Writing(opts, blocking, answers, data);
      (w.n == |data| && w.err == 0 && w.bytes != WrittenBytes(opts, data)) <==> Torn(opts, blocking, answers, |data|)
  {
    var waits, k := blocking || Blocking(opts), |Header(opts, |data|)|;
    WholeIffTaken(opts, blocking, answers, data);
    RwStops(answers, waits, k, 0);
    RwWhole(Rw(answers, waits, k).answers, waits, |data|);
    RwWhole(answers, waits, k);
    hide Rw, Flows, Stops, Header, WrittenBytes;
  }

  /** A blocking write to a stream that is only slow is whole. */
  lemma BlockingTaken(opts: Byte, blocking: bool, answers: seq<Answer>, data: seq<Byte>)
    requires |data| < 0x1_0000 && Blocking(opts) && Healthy(answers)
    ensures Taken(opts, blocking, answers, |data|)
    ensures Healthy(Writing(opts, blocking, answers, data).answers)
  {
    var k := |Header(opts, |data|)|;
    HealthyFlows(answers, k);
    HealthyFlows(Rw(answers, true, k).answers, |data|);
    RwWhole(answers, true, k);
    hide Rw, Flows, Header, Healthy;
  }

  /** Without it a header cut short by a would-block is not noticed: the data follows and
      the write reports all of it, but the frame has lost its length byte. */
  lemma TornHeader(data: seq<Byte>)
    requires |data| < 126
    ensures var w := Writing(1, false, [Accept(1), Again], data);
      w.n == |data| && w.err == 0 && w.bytes == [0x81] + data && w.bytes != WrittenBytes(1, data)
  {
    var answers := [Accept(1), Again];
    assert answers[1..] == [Again] && [Again][1..] == [];
    assert Rw([Again], false, 1) == Outcome(0, EAGAIN, []);
    assert Rw(answers, false, 2) == Behind(1, Rw([Again], false, 1)) == Outcome(1, 0, []);
    assert Rw([], false, |data|) == Outcome(|data|, 0, []);
    hide Rw;
    assert Header(1, |data|) == [0x81, |data|] && Header(1, |data|)[..1] == [0x81] && data[..|data|] == data;
    assert |WrittenBytes(1, data)| == 2 + |data|;
  }

  function WrittenFrame(opts: Byte, data: seq<Byte>): (f: Frame)
    requires |data| < 0x1_0000
  {
    if |data| < 126 then Frame(0x80 + opts % 16, |data|, [], [], data)
    else Frame(0x80 + opts % 16, 126, [|data| / 0x100, |data| % 0x100], [], data)
  }

  // ----- What a read reports

  /** It handed over message bytes, handed over part of a control frame's payload, saw
      the end of the stream, answered a close frame, was asked for nothing, or could not
      finish. */
  datatype Why = Data | Leak | Ended | Closed | Nothing | Stuck

  /** The result `n` and the bytes of a read that took the reader from `g` to `h`. */
  ghost predicate Told(why: Why, n: int, bytes: seq<Byte>, g: Progress, h: Progress) {
    match why
    case Data => n > 0 && bytes + Pending(h) == Pending(g)
    case Leak => n > 0 && Pending(h) == Pending(g) && Leaked(bytes, h)
    case Ended => n == 0 && Pending(h) == Pending(g) == [] && h.rest == []
    case Closed => n == 0 && Pending(h) == Pending(g)
    case Nothing => n == 0 && Pending(h) == Pending(g)
    case Stuck => n == STREAM_ERROR && Pending(h) == Pending(g)
  }

  /** The last bytes read of a control frame that has more to come. */
  ghost predicate Leaked(bytes: seq<Byte>, g: Progress) {
    && g.rest != [] && IsControl(g.rest[0]) && |bytes| <= g.done < |g.rest[0].payload|
    && bytes == g.rest[0].payload[g.done - |bytes|..g.done]
  }

  /** A piece of a payload: at the end of a control frame it is dropped, else it is the
      caller's. */
  ghost predicate Piece(control: bool, whole: bool, bytes: seq<Byte>, g: Progress, h: Progress) {
    && Later(g, h) && (|bytes| <= 1 && (whole || !control) ==> Clear(g, h))
    && if bytes == [] || (whole && control) then Pending(h) == Pending(g)
       else Told(if control then Leak else Data, |bytes|, bytes, g, h)
  }

  lemma PieceTold(r: Reader, g: Progress, data: seq<Byte>, ahead: seq<Byte>)
    requires Inv(r, g, data + ahead) && (r.state.Payload? || r.state.Control?) && |data| <= r.msgSz
    requires data == [] ==> r.msgSz == 0
    ensures g.rest != [] && Inv(AfterPayload(r, |data|), Delivered(g, |data|), ahead)
    ensures Piece(r.state.Control?, |data| == r.msgSz, Unmask(data, r.mask, r.maskPos), g, Delivered(g, |data|))
  {
    hide *;
    BodyFacts(r, g, data + ahead);
    PayloadChunk(r, g, data, ahead);
    LaterDelivered(g, |data|);
    if |data| <= 1 && (r.state.Control? ==> |data| == r.msgSz) {
      ClearPiece(g, |data|);
    }
    var bytes := Unmask(data, r.mask, r.maskPos);
    if r.state.Control? && |data| < r.msgSz {
      LeakedPiece(g, |data|, bytes);
    }
    IsPiece(r.state.Control?, |data| == r.msgSz, bytes, g, Delivered(g, |data|));
  }

  lemma IsPiece(control: bool, whole: bool, bytes: seq<Byte>, g: Progress, h: Progress)
    requires Later(g, h) && Pending(g) == (if control then [] else bytes) + Pending(h)
    requires control && !whole ==> Leaked(bytes, h)
    requires |bytes| <= 1 && (whole || !control) ==> Clear(g, h)
    ensures Piece(control, whole, bytes, g, h)
  {
    hide Pending, Later, Leaked, Clear;
    assert [] + Pending(h) == Pending(h);
  }

  lemma LeakedPiece(g: Progress, n: nat, bytes: seq<Byte>)
    requires g.rest != [] && g.done + n < |g.rest[0].payload| && IsControl(g.rest[0])
    requires bytes == g.rest[0].payload[g.done..g.done + n]
    ensures Leaked(bytes, Delivered(g, n))
  {
  }

  /** The frames not yet finished are the last ones of those before. */
  ghost predicate Later(g: Progress, h: Progress) {
    exists k :: 0 <= k <= |g.rest| && h.rest == g.rest[k..]
  }

  lemma LaterSelf(g: Progress)
    ensures Later(g, g)
  {
    assert g.rest[0..] == g.rest;
  }

  lemma LaterDrop(g: Progress, h: Progress)
    requires Later(g, h)
    ensures |h.rest| <= |g.rest| && h.rest == g.rest[|g.rest| - |h.rest|..]
  {
  }

  lemma LaterTwice(f: Progress, g: Progress, h: Progress)
    requires Later(f, g) && Later(g, h)
    ensures Later(f, h)
  {
    var j :| 0 <= j <= |f.rest| && g.rest == f.rest[j..];
    var k :| 0 <= k <= |g.rest| && h.rest == g.rest[k..];
    DropDrop(f.rest, j, k);
  }

  lemma LaterDelivered(g: Progress, n: nat)
    requires g.rest != []
    ensures Later(g, Delivered(g, n))
  {
    assert g.rest[0..] == g.rest;
  }

  /** The only close frame (opcode 8) finished on the way is, if `closed`, the last one. */
  ghost predicate Closes(g: Progress, h: Progress, closed: bool) {
    var k := |g.rest| - |h.rest|;
    && k >= (if closed then 1 else 0)
    && (forall i :: 0 <= i < k && i < |g.rest| ==> (g.rest[i].b0 % 16 == 8 <==> closed && i == k - 1))
  }

  lemma ClosesSelf(g: Progress)
    ensures Closes(g, g, false)
  {
  }

  lemma ClosesTwice(f: Progress, g: Progress, h: Progress, closed: bool)
    requires Later(f, g) && Closes(f, g, false) && Closes(g, h, closed)
    ensures Closes(f, h, closed)
  {
    var j :| 0 <= j <= |f.rest| && g.rest == f.rest[j..];
    var k := |g.rest| - |h.rest|;
    forall i | 0 <= i < j + k && i < |f.rest| ensures f.rest[i].b0 % 16 == 8 <==> closed && i == j + k - 1 {
      if i >= j {
        assert g.rest[i - j] == f.rest[i];
      }
    }
  }

  /** A piece finishes a close frame, or nothing that is one. */
  lemma ClosesPiece(g: Progress, n: nat)
    requires g.rest != []
    ensures Closes(g, Delivered(g, n), g.done + n == |g.rest[0].payload| && g.rest[0].b0 % 16 == 8)
  {
  }

  /** Nothing of a control frame has been read yet. */
  predicate Tidy(g: Progress) { g.rest != [] && IsControl(g.rest[0]) ==> g.done == 0 }

  /** Every control frame finished on the way had at most one byte. */
  ghost predicate Quietly(g: Progress, h: Progress) {
    exists k :: 0 <= k <= |g.rest| && h.rest == g.rest[k..] && Quiet(g.rest[..k])
  }

  /** From `g` to `h` byte by byte without a leak. */
  ghost predicate Clear(g: Progress, h: Progress) {
    Tidy(g) ==> Tidy(h) && Quietly(g, h)
  }

  lemma ClearSelf(g: Progress)
    ensures Clear(g, g)
  {
    assert g.rest[0..] == g.rest && Quiet(g.rest[..0]);
  }

  lemma ClearTwice(f: Progress, g: Progress, h: Progress)
    requires Clear(f, g) && Clear(g, h)
    ensures Clear(f, h)
  {
    hide Quiet, Tidy;
    if Tidy(f) {
      var j :| 0 <= j <= |f.rest| && g.rest == f.rest[j..] && Quiet(f.rest[..j]);
      var k :| 0 <= k <= |g.rest| && h.rest == g.rest[k..] && Quiet(g.rest[..k]);
      DropDrop(f.rest, j, k);
      QuietJoin(f.rest, j, k);
    }
  }

  lemma QuietJoin(fs: seq<Frame>, j: nat, k: nat)
    requires j + k <= |fs| && Quiet(fs[..j]) && Quiet(fs[j..][..k])
    ensures Quiet(fs[..j + k])
  {
    hide Small;
    forall i | 0 <= i < j + k ensures Small(fs[i]) {
      if i < j {
        assert fs[..j][i] == fs[i];
      } else {
        assert fs[j..][..k][i - j] == fs[i];
      }
    }
  }

  lemma ClearPiece(g: Progress, n: nat)
    requires g.rest != [] && n <= 1 && g.done + n <= |g.rest[0].payload|
    requires IsControl(g.rest[0]) ==> g.done + n == |g.rest[0].payload|
    ensures Clear(g, Delivered(g, n))
  {
    var h := Delivered(g, n);
    if Tidy(g) {
      if g.done + n == |g.rest[0].payload| {
        assert h.rest == g.rest[1..] && g.rest[..1] == [g.rest[0]];
        assert Quiet(g.rest[..1]);
      } else {
        ClearSelf(g);
        assert h.rest == g.rest[0..] && Quiet(g.rest[..0]);
      }
    }
  }

  /** Once no frame is left, all of them were finished. */
  lemma ClearEnd(g: Progress, h: Progress)
    requires Clear(g, h) && Tidy(g) && h.rest == []
    ensures Quiet(g.rest)
  {
    hide Quiet, Tidy;
    var k :| 0 <= k <= |g.rest| && h.rest == g.rest[k..] && Quiet(g.rest[..k]);
    assert |h.rest| == |g.rest| - k;
    assert g.rest[..k] == g.rest;
  }

  /** Nothing leaks from control frames of at most one byte. */
  lemma QuietLeaksNothing(bytes: seq<Byte>, g: Progress, h: Progress)
    requires Quiet(g.rest) && Later(g, h) && bytes != []
    ensures !Leaked(bytes, h)
  {
    var k :| 0 <= k <= |g.rest| && h.rest == g.rest[k..];
    if h.rest != [] {
      assert h.rest[0] == g.rest[k];
    }
  }

  // ----- What a round of the read loop does

  /** The part of the state that the rounds are told by. */
  datatype Moment = Moment(progress: Progress, state: State, msgSz: nat, opts: Byte, flags: Byte,
    pos: nat, sent: seq<Byte>, answers: seq<Answer>, blocking: bool, fed: bool)
  {
    predicate InBody() { state.Payload? || state.Control? }
  }

  /** The message type behind the headers of `fs`: the opcode of the last one that
      is no continuation, control frames included. */
  function Kind(fs: seq<Frame>, kind: nat): nat {
    if fs == [] then kind
    else if fs[|fs| - 1].b0 % 16 != 0 then fs[|fs| - 1].b0 % 16
    else Kind(fs[..|fs| - 1], kind)
  }

  /** The headers read on the way leave the type they have to. */
  ghost predicate Typed(m: Moment, m': Moment) {
    var from := if m.state.FrameHeader? then 0 else 1;
    var to := |m.progress.rest| - |m'.progress.rest| + if m'.state.FrameHeader? then 0 else 1;
    from <= to <= |m.progress.rest| && m'.flags % 16 == Kind(m.progress.rest[from..to], m.flags % 16)
  }

  lemma {:induction false} KindJoin(a: seq<Frame>, b: seq<Frame>, kind: nat)
    ensures Kind(a + b, kind) == Kind(b, Kind(a, kind))
    decreases |b|
  {
    if b == [] {
      assert a + b == a;
    } else {
      assert (a + b)[..|a + b| - 1] == a + b[..|b| - 1];
      KindJoin(a, b[..|b| - 1], kind);
    }
  }

  lemma TypedTwice(m: Moment, m1: Moment, m2: Moment)
    requires Later(m.progress, m1.progress) && Typed(m, m1) && Typed(m1, m2)
    ensures Typed(m, m2)
  {
    hide Kind, Later;
    LaterDrop(m.progress, m1.progress);
    var k := |m.progress.rest| - |m1.progress.rest|;
    var from := if m.state.FrameHeader? then 0 else 1;
    var mid := if m1.state.FrameHeader? then 0 else 1;
    var to := |m1.progress.rest| - |m2.progress.rest| + if m2.state.FrameHeader? then 0 else 1;
    KindSlices(m.progress.rest, k, from, mid, to, m.flags % 16);
  }

  lemma KindSlices(fs: seq<Frame>, k: nat, from: nat, mid: nat, to: nat, kind: nat)
    requires from <= k + mid <= k + to <= |fs|
    ensures Kind(fs[from..k + to], kind) == Kind(fs[k..][mid..to], Kind(fs[from..k + mid], kind))
  {
    hide Kind;
    assert fs[k..][mid..to] == fs[k + mid..k + to];
    assert fs[from..k + mid] + fs[k + mid..k + to] == fs[from..k + to];
    KindJoin(fs[from..k + mid], fs[k + mid..k + to], kind);
  }

  lemma SameType(m: Moment, m1: Moment, m2: Moment)
    requires Typed(m, m1) && m2.progress == m1.progress && m2.state == m1.state && m2.flags == m1.flags
    ensures Typed(m, m2)
  {
    hide Kind;
  }

  lemma TypeFilled(m: Moment, m1: Moment, m2: Moment)
    requires Typed(m1, m2) && m.progress == m1.progress && m.state == m1.state && m.flags == m1.flags
    ensures Typed(m, m2)
  {
    hide Kind;
  }

  /** No header was read. */
  lemma TypedSame(m: Moment, m': Moment)
    requires m'.flags == m.flags && (!m.state.FrameHeader? ==> m.progress.rest != [])
    requires if m'.state.FrameHeader? == m.state.FrameHeader? then |m'.progress.rest| == |m.progress.rest|
      else m'.state.FrameHeader? && |m'.progress.rest| == |m.progress.rest| - 1
    ensures Typed(m, m')
  {
  }

  /** The header of the next frame was read. */
  lemma TypedHeader(m: Moment, m': Moment)
    requires m.state.FrameHeader? && !m'.state.FrameHeader? && m'.progress == m.progress && m.progress.rest != []
    requires var b0 := m.progress.rest[0].b0; m'.flags % 16 == if b0 % 16 == 0 then m.flags % 16 else b0 % 16
    ensures Typed(m, m')
  {
    var one := m.progress.rest[0..1];
    assert one[..0] == [];
  }

  /** The type is a data frame's exactly unless a control frame came after the last
      data frame that names one; the comment in the source means it always to be. */
  lemma {:induction false} KindIsData(fs: seq<Frame>, kind: nat)
    requires kind < 8
    ensures Kind(fs, kind) < 8 <==> !ControlLast(fs)
  {
    if fs != [] && fs[|fs| - 1].b0 % 16 == 0 {
      KindIsData(fs[..|fs| - 1], kind);
      ControlBefore(fs);
    }
  }

  /** A control frame with only continuations behind it. */
  ghost predicate ControlLast(fs: seq<Frame>) {
    exists i :: 0 <= i < |fs| && IsControl(fs[i]) && forall j :: i < j < |fs| ==> fs[j].b0 % 16 == 0
  }

  lemma ControlBefore(fs: seq<Frame>)
    requires fs != [] && fs[|fs| - 1].b0 % 16 == 0
    ensures ControlLast(fs) <==> ControlLast(fs[..|fs| - 1])
  {
    var front := fs[..|fs| - 1];
    if ControlLast(fs) {
      var i :| 0 <= i < |fs| && IsControl(fs[i]) && forall j :: i < j < |fs| ==> fs[j].b0 % 16 == 0;
      assert IsControl(front[i]);
    }
    if ControlLast(front) {
      var i :| 0 <= i < |front| && IsControl(front[i]) && forall j :: i < j < |front| ==> front[j].b0 % 16 == 0;
      assert IsControl(fs[i]);
    }
  }

  /** Nothing was written, or one message. */
  ghost predicate Answered(m: Moment, m': Moment, closed: bool) {
    if closed then
      var w := Writing(m.opts, m.blocking, m.answers, [0x88, 0]);
      m'.sent == m.sent + w.bytes && m'.answers == w.answers && m'.blocking == (m.blocking && !Blocking(m.opts))
    else m'.sent == m.sent && m'.answers == m.answers && m'.blocking == m.blocking
  }

  /** How far the stream of `end` bytes was read. */
  ghost predicate Moved(m: Moment, m': Moment, why: Why, size: nat, end: nat, blocked: bool) {
    match why
    case Ended => m'.pos == end
    case Stuck => blocked || m'.pos > m.pos
    case Nothing => size == 0
    case _ => Further(m, m')
  }

  /** The stream was read, or a payload was already at its end. */
  ghost predicate Further(m: Moment, m': Moment) { m'.pos > m.pos || (m.InBody() && m.msgSz == 0) }

  /** From `m` to `m'` by a read that returned `n`. */
  ghost predicate Did(m: Moment, m': Moment, why: Why, n: int, bytes: seq<Byte>, size: nat, end: nat, blocked: bool) {
    && m'.opts == m.opts && m.pos <= m'.pos && Later(m.progress, m'.progress)
    && Told(why, n, bytes, m.progress, m'.progress) && Answered(m, m', why == Closed)
    && Closes(m.progress, m'.progress, why == Closed) && Typed(m, m')
    && Moved(m, m', why, size, end, blocked)
    && (size <= 1 && why != Leak ==> Clear(m.progress, m'.progress))
    && (m.fed && size > 0 ==> why == Ended || (m'.fed && Further(m, m')))
  }

  /** From `m` to `m'` by rounds that did not finish the read. */
  ghost predicate Passed(m: Moment, m': Moment, size: nat) {
    && m'.opts == m.opts && m.pos <= m'.pos && Later(m.progress, m'.progress)
    && Pending(m'.progress) == Pending(m.progress) && Answered(m, m', false)
    && Closes(m.progress, m'.progress, false) && Typed(m, m')
    && (m'.InBody() && m'.msgSz == 0 ==> m'.pos > m.pos)
    && (size <= 1 ==> Clear(m.progress, m'.progress))
    && (m.fed && size > 0 ==> m'.fed)
  }

  lemma PassedNone(m: Moment, size: nat)
    requires (m.InBody() ==> m.msgSz > 0) && (!m.state.FrameHeader? ==> m.progress.rest != [])
    ensures Passed(m, m, size)
  {
    LaterSelf(m.progress);
    ClearSelf(m.progress);
    ClosesSelf(m.progress);
    TypedSame(m, m);
  }

  lemma PassedTwice(m: Moment, m1: Moment, m2: Moment, size: nat)
    requires Passed(m, m1, size) && Passed(m1, m2, size)
    ensures Passed(m, m2, size)
  {
    hide Pending, Later, Clear, Closes, Typed;
    LaterTwice(m.progress, m1.progress, m2.progress);
    TypedTwice(m, m1, m2);
    ClosesTwice(m.progress, m1.progress, m2.progress, false);
    if size <= 1 {
      ClearTwice(m.progress, m1.progress, m2.progress);
    }
  }

  /** The last round of a read. */
  lemma PassedDid(m: Moment, m1: Moment, m2: Moment, why: Why, n: int, bytes: seq<Byte>,
      size: nat, end: nat, blocked: bool)
    requires Passed(m, m1, size) && Did(m1, m2, why, n, bytes, size, end, blocked)
    ensures Did(m, m2, why, n, bytes, size, end, blocked)
  {
    hide Pending, Later, Leaked, Writing, Clear, Closes, Typed;
    LaterTwice(m.progress, m1.progress, m2.progress);
    TypedTwice(m, m1, m2);
    ClosesTwice(m.progress, m1.progress, m2.progress, why == Closed);
    if size <= 1 && why != Leak {
      ClearTwice(m.progress, m1.progress, m2.progress);
    }
  }

  // ----- The websocket object

  class WebSocket {
    const sock: Stream
    const buf: array<Byte>
    var msgSz: nat
    var mask: seq<Byte>
    var state: State
    var toRecv: nat
    var maskPos: nat
    var bufPos: nat
    var opts: Byte
    var wsFlags: Byte
    var lastFlags: Byte

    /** Where the reader is in the frames the peer sends. */
    ghost var progress: Progress

    ghost function Snap(): Reader
      reads this, buf
      requires bufPos <= buf.Length
    {
      Reader(state, toRecv, buf[..bufPos], msgSz, mask, maskPos, wsFlags, lastFlags)
    }

    ghost function Ahead(): seq<Byte>
      reads sock
      requires sock.Valid()
    {
      sock.wire[sock.pos..]
    }

    /** In step with the frames. */
    ghost predicate InStep()
      reads this, sock, buf
    {
      sock.Valid() && buf.Length == 6 && bufPos + toRecv <= 6 && Inv(Snap(), progress, Ahead())
    }

    /** At the top of the read loop. */
    ghost predicate InLoop()
      reads this, sock, buf
    {
      InStep() && Waiting(Snap())
    }

    ghost predicate Valid()
      reads this, sock, buf
    {
      InStep() && Resting(Snap())
    }

    predicate InBody()
      reads this
    {
      state.Payload? || state.Control?
    }

    /** websocket_make_new, for a peer that will send `frames`. */
    constructor (sock: Stream, blocking: bool, ghost frames: seq<Frame>)
      requires sock.Valid() && FramesOk(frames) && sock.wire[sock.pos..] == WireAll(frames)
      ensures Valid() && progress == Progress(frames, 0) && this.sock == sock && fresh(buf)
      ensures opts == (if blocking then 0x81 else 1) && state.FrameHeader? && toRecv == 2
    {
      this.sock := sock;
      buf := new Byte[6];
      state, toRecv, maskPos, bufPos := FrameHeader, 2, 0, 0;
      opts, wsFlags, lastFlags := if blocking then 0x81 else 1, 0, 0;
      msgSz, mask := 0, NO_MASK;
      progress := Progress(frames, 0);
      new;
      assert buf[..0] + Ahead() == Ahead();
    }

    /** The received bytes go behind those already in the buffer. */
    method Append(data: seq<Byte>)
      requires buf.Length == 6 && bufPos + toRecv <= 6 && |data| <= toRecv
      modifies this`bufPos, this`toRecv, buf
      ensures bufPos + toRecv <= 6 && Snap() == Filled(old(Snap()), data)
    {
      ghost var held := buf[..bufPos];
      for i := 0 to |data|
        modifies buf
        invariant buf[..bufPos + i] == held + data[..i]
      {
        buf[bufPos + i] := data[i];
      }
      assert data[..|data|] == data;
      bufPos, toRecv := bufPos + |data|, toRecv - |data|;
    }

    /** The fixed-size part at the top of the read loop: 1 when the awaited
        bytes are complete, 0 at end of stream, -1 when more are needed. */
    method FillBuf() returns (r: int)
      requires InLoop() && toRecv > 0
      modifies this`bufPos, this`toRecv, buf, sock`pos, sock`plan, sock`blocked
      ensures InStep() && -1 <= r <= 1 && old(sock.pos) <= sock.pos
      ensures if r == 1 then toRecv == 0 && sock.pos > old(sock.pos) else toRecv > 0
      ensures r == 0 ==> sock.pos == |sock.wire| && Pending(progress) == [] && progress.rest == []
      ensures r == -1 ==> sock.blocked || sock.pos > old(sock.pos)
      ensures old(sock.Fed()) ==> r == 0 || (sock.Fed() && sock.pos > old(sock.pos))
      ensures Plenty(old(sock.plan), |sock.wire| - old(sock.pos), old(toRecv)) ==> r == 1
    {
      hide Inv, Pending, Stream.Fed;
      ghost var before, ahead := Snap(), Ahead();
      var data, wouldBlock := sock.Read(toRecv);
      assert ahead == data + Ahead();
      FilledInv(before, progress, data, Ahead());
      Append(data);
      if wouldBlock {
        return -1;
      }
      if |data| == 0 {
        assert Ahead() == [];
        EndMeansDone(Snap(), progress);
        return 0;
      }
      r := if toRecv != 0 then -1 else 1;
    }

    /** The FRAME_HEADER case. */
    method OnHeader()
      requires buf.Length == 6 && state.FrameHeader? && bufPos == 2
      modifies this`wsFlags, this`lastFlags, this`mask, this`bufPos, this`toRecv, this`msgSz, this`state
      ensures bufPos == 0 && Snap() == AfterHeader(old(Snap()))
    {
      ghost var before := Snap();
      var b0, b1 := buf[0], buf[1];
      assert before.held[0] == b0 && before.held[1] == b1;
      lastFlags := b0;
      if b0 % 16 == 0 {
        wsFlags := wsFlags % 16 + b0 / 16 * 16;
      } else {
        wsFlags := b0;
      }
      assert wsFlags == DataFlags(before.wsFlags, b0);
      mask := NO_MASK;
      var need := 0;
      var sz := b1 % 128;
      if sz == 126 {
        need := need + 2;
      }
      if b1 >= 128 {
        need := need + 4;
      }
      assert need == FieldBytes(b1);
      hide DataFlags, FieldBytes;
      bufPos, toRecv, msgSz := 0, need, sz;
      if need != 0 {
        state := FrameOpt;
      } else {
        state := if b0 % 16 >= 8 then Control else Payload;
      }
    }

    /** The FRAME_OPT case. */
    method OnOpt()
      requires buf.Length == 6 && state.FrameOpt? && bufPos in {2, 4, 6} && toRecv == 0 && |mask| == 4
      modifies this`mask, this`bufPos, this`msgSz, this`state
      ensures bufPos == 0 && Snap() == AfterOpt(old(Snap()))
    {
      ghost var before := Snap();
      assert before.held[0] == buf[0] && before.held[1] == buf[1];
      if bufPos % 4 == 2 {
        msgSz := Length16(buf[0], buf[1]);
      }
      if bufPos >= 4 {
        mask := buf[bufPos - 4..bufPos];
        assert mask == before.held[bufPos - 4..];
      }
      bufPos := 0;
      state := if lastFlags % 16 >= 8 then Control else Payload;
    }

    /** The loop that unmasks a received piece where it lies. */
    method UnmaskInPlace(dst: array<Byte>, n: nat)
      requires n <= dst.Length && |mask| == 4
      modifies this`maskPos, dst
      ensures dst[..n] == Unmask(old(dst[..n]), mask, old(maskPos))
      ensures maskPos == if n == 0 then old(maskPos) else (old(maskPos) + n) % 256
    {
      ghost var data, start := dst[..n], maskPos;
      for i := 0 to n
        invariant i == 0 ==> maskPos == start
        invariant i > 0 ==> maskPos == (start + i) % 256
        invariant forall k :: 0 <= k < i ==> dst[k] == Xor(data[k], mask[(start + k) % 4])
        invariant forall k :: i <= k < n ==> dst[k] == data[k]
      {
        hide Xor;
        WrapIndex(start, i);
        dst[i] := Xor(dst[i], mask[maskPos % 4]);
        maskPos := (maskPos + 1) % 256;
      }
    }

    /** Stream data arriving in the caller's buffer. */
    method Receive(dst: array<Byte>, sz: nat) returns (n: int)
      requires sock.Valid() && sz <= dst.Length
      modifies dst, sock`pos, sock`plan, sock`blocked
      ensures sock.Valid() && -1 <= n <= sz && sock.pos == old(sock.pos) + if n > 0 then n else 0
      ensures n == 0 && sz > 0 ==> sock.pos == |sock.wire|
      ensures n == -1 ==> sock.blocked
      ensures n > 0 ==> dst[..n] == sock.wire[old(sock.pos)..sock.pos]
      ensures old(sock.Fed()) && sz > 0 ==> n != -1 && (n > 0 ==> sock.Fed())
      ensures |sock.wire| - old(sock.pos) >= sz ==> n == Gets(old(sock.plan), sz)
    {
      hide Stream.Fed;
      var data, wouldBlock := sock.Read(sz);
      if wouldBlock {
        return -1;
      }
      for i := 0 to |data|
        modifies dst
        invariant dst[..i] == data[..i]
      {
        dst[i] := data[i];
      }
      n := |data|;
    }

    /** `n` bytes have come from `pos` on, as `bytes`, for the payload that was at `before`. */
    ghost predicate Came(n: nat, before: Reader, pos: nat, bytes: seq<Byte>)
      reads this, sock, buf
    {
      && sock.Valid() && buf.Length == 6 && bufPos == 0 && toRecv == 0 && InBody() && n <= before.msgSz
      && Snap() == before.(msgSz := before.msgSz - n, maskPos := maskPos)
      && maskPos == (if n == 0 then before.maskPos else (before.maskPos + n) % 256)
      && |mask| == 4 && sock.pos == pos + n && bytes == Unmask(sock.wire[pos..sock.pos], mask, before.maskPos)
    }

    /** The read of a payload piece, unmasked; -1 on would-block, 0 when nothing was asked for. */
    method ReadPayload(dst: array<Byte>, size: nat) returns (n: int)
      requires InLoop() && InBody() && msgSz > 0 && size <= dst.Length && dst != buf
      modifies this`maskPos, this`msgSz, dst, sock`pos, sock`plan, sock`blocked
      ensures STREAM_ERROR <= n <= size && (n == 0 ==> size == 0) && (n == -1 ==> sock.blocked)
      ensures Came(if n > 0 then n else 0, old(Before()), old(sock.pos), Handed(dst, n))
      ensures old(sock.Fed()) && size > 0 ==> n > 0 && sock.Fed()
      ensures n == Gets(old(sock.plan), if size < old(msgSz) then size else old(msgSz))
    {
      hide InLoop, Inv, Stream.Fed;
      LoopFacts();
      n := Receive(dst, if size < msgSz then size else msgSz);
      if n > 0 {
        UnmaskInPlace(dst, n);
        msgSz := msgSz - n;
      }
    }

    ghost function Now(): Moment
      reads this, sock
    {
      Moment(progress, state, msgSz, opts, wsFlags, sock.pos, sock.sent, sock.answers, sock.blocking, sock.Fed())
    }

    /** `n` more bytes of the payload that was at `before` are in. */
    ghost predicate Pieced(n: nat, before: Reader)
      reads this, sock, buf
    {
      && sock.Valid() && buf.Length == 6 && bufPos == 0 && n <= before.msgSz && progress.rest != []
      && lastFlags == progress.rest[0].b0 && state.Control? == IsControl(progress.rest[0])
      && progress.done + before.msgSz == |progress.rest[0].payload|
      && before.toRecv == 0 && InBody() && Snap() == before.(msgSz := before.msgSz - n, maskPos := maskPos)
      && (n < before.msgSz ==> maskPos == (before.maskPos + n) % 256)
      && Inv(AfterPayload(before, n), Delivered(progress, n), Ahead())
    }

    /** The frame may be at its end. */
    method EndPiece(n: nat, ghost before: Reader)
      requires Pieced(n, before)
      modifies this`state, this`toRecv, this`maskPos, this`bufPos, this`progress
      ensures Valid() && progress == Delivered(old(progress), n)
      ensures if n == before.msgSz then state.FrameHeader? else state == before.state
    {
      hide Inv, Delivered;
      progress := Delivered(progress, n);
      if msgSz == 0 {
        NextFrame();
      }
      assert Snap() == AfterPayload(before, n);
    }

    /** A payload piece that did not come. */
    lemma NoPiece(n: int, size: nat, m: Moment, why: Why)
      requires InLoop() && InBody() && msgSz > 0 && Now() == m.(fed := sock.Fed())
      requires if n == 0 then why == Nothing && size == 0 else n == STREAM_ERROR && why == Stuck && sock.blocked
      requires m.fed ==> size == 0
      ensures Valid() && Did(m, Now(), why, n, [], size, |sock.wire|, sock.blocked)
    {
      hide Inv, Pending, Later, Clear, Closes, Typed, Stream.Fed;
      FieldAhead();
      TypedSame(m, Now());
      ClosesSelf(progress);
      LaterSelf(progress);
      ClearSelf(progress);
    }

    /** A payload piece that is the caller's. */
    lemma GivenPiece(size: nat, m: Moment, why: Why, bytes: seq<Byte>)
      requires Valid() && bytes != [] && (m.fed && size > 0 ==> sock.Fed()) && (why == Data || why == Leak)
      requires var n := |bytes|;
        Now() == m.(progress := progress, state := state, msgSz := msgSz, pos := m.pos + n, fed := sock.Fed())
      requires Later(m.progress, progress) && Told(why, |bytes|, bytes, m.progress, progress)
      requires (size <= 1 && why != Leak ==> Clear(m.progress, progress)) && Closes(m.progress, progress, false)
      requires Typed(m, Now())
      ensures Did(m, Now(), why, |bytes|, bytes, size, |sock.wire|, sock.blocked)
    {
      hide Inv, Pending, Later, Clear, Closes, Typed, Stream.Fed, Told;
    }

    /** A control frame at its end, or an empty frame, that is no reason to return. */
    lemma SkippedPiece(size: nat, m: Moment, n: nat)
      requires Valid() && state.FrameHeader? && (m.fed && size > 0 ==> sock.Fed())
      requires Now() == m.(progress := progress, state := state, msgSz := msgSz, pos := m.pos + n, fed := sock.Fed())
      requires Later(m.progress, progress) && Pending(progress) == Pending(m.progress)
      requires (size <= 1 ==> Clear(m.progress, progress)) && Closes(m.progress, progress, false)
      requires Typed(m, Now())
      ensures InLoop() && Passed(m, Now(), size)
    {
      hide Inv, Pending, Later, Clear, Closes, Typed, Stream.Fed;
    }

    /** The reply to a close frame; what becomes of it is not looked at. */
    method Reply(ghost m: Moment, ghost n: nat, ghost size: nat)
      requires Valid() && (m.fed && size > 0 ==> sock.Fed()) && (n > 0 || (m.InBody() && m.msgSz == 0))
      requires Now() == m.(progress := progress, state := state, msgSz := msgSz, pos := m.pos + n, fed := sock.Fed())
      requires Later(m.progress, progress) && Pending(progress) == Pending(m.progress)
      requires (size <= 1 ==> Clear(m.progress, progress)) && Closes(m.progress, progress, true)
      requires Typed(m, Now())
      modifies sock`sent, sock`answers, sock`blocking
      ensures Valid() && Did(m, Now(), Closed, 0, [], size, |sock.wire|, sock.blocked)
    {
      hide Inv, Pending, Later, Clear, Closes, Typed, Writing;
      ghost var now := Now();
      var _, _ := Write(CLOSE_REPLY);
      SameType(m, now, Now());
    }

    /** The rest of the PAYLOAD and CONTROL cases, behind a piece of `n0` bytes. */
    method FinishBody(n0: nat, ghost size: nat, ghost bytes: seq<Byte>, ghost before: Reader, ghost m: Moment)
        returns (n: nat, ghost why: Why, finished: bool)
      requires Pieced(n0, before) && |bytes| == n0 <= size && (m.fed && size > 0 ==> sock.Fed())
      requires before.state == m.state && before.msgSz == m.msgSz && n0 <= m.msgSz && (n0 == 0 ==> m.msgSz == 0)
      requires Now() == m.(msgSz := m.msgSz - n0, pos := m.pos + n0, fed := sock.Fed())
      requires Piece(m.state.Control?, n0 == m.msgSz, bytes, progress, Delivered(progress, n0))
      modifies this`state, this`toRecv, this`maskPos, this`bufPos, this`progress
      modifies sock`sent, sock`answers, sock`blocking
      ensures sock.pos == m.pos + n0 && n == if finished && why != Closed then n0 else 0
      ensures finished ==> Valid()
      ensures finished ==> Did(m, Now(), why, n, if n > 0 then bytes else [], size, |sock.wire|, sock.blocked)
      ensures !finished ==> InLoop() && Passed(m, Now(), size) && state.FrameHeader?
      ensures finished && why == Leak <==> m.state.Control? && 0 < n0 < m.msgSz
      ensures finished && why == Closed <==> old(progress).rest[0].b0 % 16 == 8 && n0 == m.msgSz
    {
      hide Inv, Pending, Later, Clear, Closes, Typed, Told, Stream.Fed, Did, Passed, Pieced, InLoop, Valid, Delivered;
      PieceEnds(n0, before);
      var control, whole := state.Control?, msgSz == 0;
      EndPiece(n0, before);
      TypedSame(m, Now());
      if whole && control {
        n, why, finished := 0, Closed, lastFlags % 16 == CLOSE;
        if finished {
          Reply(m, n0, size);
        } else {
          SkippedPiece(size, m, n0);
        }
      } else {
        n, why, finished := n0, if control then Leak else Data, n0 != 0;
        if finished {
          GivenPiece(size, m, why, bytes);
        } else {
          SkippedPiece(size, m, n0);
        }
      }
    }

    lemma PieceEnds(n: nat, before: Reader)
      requires Pieced(n, before)
      ensures progress.rest != [] && lastFlags == progress.rest[0].b0 && msgSz == before.msgSz - n
      ensures state.Control? == (lastFlags % 16 >= 8) && state == before.state
      ensures Closes(progress, Delivered(progress, n), n == before.msgSz && lastFlags % 16 == 8) && InBody()
      ensures |Delivered(progress, n).rest| == |progress.rest| - if n == before.msgSz then 1 else 0
    {
      hide Inv, Closes;
      ClosesPiece(progress, n);
    }

    /** The PAYLOAD and CONTROL cases: a piece of a control payload is handed over exactly
        if the stream is about to deliver some of it, and less than completes its frame.
        A frame that is completed ends the read as closed exactly if its opcode is 8. */
    method OnBody(dst: array<Byte>, size: nat) returns (n: int, ghost why: Why, finished: bool)
      requires InLoop() && InBody() && size <= dst.Length && dst != buf
      modifies this, sock, dst
      ensures STREAM_ERROR <= n <= size
      ensures finished ==> Valid() && Did(old(Now()), Now(), why, n, Handed(dst, n), size, |sock.wire|, sock.blocked)
      ensures !finished ==> InLoop() && Passed(old(Now()), Now(), size) && state.FrameHeader?
      ensures finished && why == Leak <==> old(state).Control? && 0 < Gets(old(sock.plan), size) < old(msgSz)
      ensures old(progress).rest != []
      ensures finished && why == Closed <==>
        old(progress).rest[0].b0 % 16 == 8 && (old(msgSz) == 0 || Gets(old(sock.plan), size) >= old(msgSz))
      ensures old(sock.Fed()) && size > 0 && old(msgSz) > 0 ==> sock.pos > old(sock.pos)
      ensures sock.pos <= old(sock.pos) + size
    {
      hide InLoop, Valid, Did, Passed, Piece, Pieced, Stream.Fed, Inv;
      ghost var before, m := Before(), Now();
      LoopFacts();
      n := 0;
      if msgSz != 0 {
        n := ReadPiece(dst, size);
        if n <= 0 {
          why, finished := if n == 0 then Nothing else Stuck, true;
          NoPiece(n, size, m, why);
          return;
        }
      } else {
        EmptyPiece();
      }
      n, why, finished := FinishBody(n, size, Handed(dst, n), before, m);
    }

    ghost function Before(): (r: Reader)
      reads this, sock, buf
      requires InLoop()
      ensures r.state == state && r.msgSz == msgSz
    {
      Snap()
    }

    /** A payload without bytes left. */
    lemma EmptyPiece()
      requires InLoop() && InBody() && msgSz == 0
      ensures Pieced(0, Before()) && Piece(state.Control?, true, [], progress, Delivered(progress, 0))
    {
      hide Inv, Piece, Unmask;
      BodyFacts(Snap(), progress, Ahead());
      assert [] + Ahead() == Ahead();
      PieceTold(Snap(), progress, [], Ahead());
      assert Unmask([], mask, maskPos) == [];
    }

    /** The next piece of a payload. */
    method ReadPiece(dst: array<Byte>, size: nat) returns (n: int)
      requires InLoop() && InBody() && msgSz > 0 && size <= dst.Length && dst != buf
      modifies this`maskPos, this`msgSz, dst, sock`pos, sock`plan, sock`blocked
      ensures STREAM_ERROR <= n <= size && (n == 0 ==> size == 0) && (n == -1 ==> sock.blocked)
      ensures n <= 0 ==> InLoop() && Now() == old(Now()).(fed := sock.Fed())
      ensures n > 0 ==> n <= old(msgSz) && Pieced(n, old(Before()))
      ensures n > 0 ==> Piece(state.Control?, n == old(msgSz), Handed(dst, n), progress, Delivered(progress, n))
      ensures n > 0 ==> Now() == old(Now()).(msgSz := old(msgSz) - n, pos := old(sock.pos) + n, fed := sock.Fed())
      ensures old(sock.Fed()) && size > 0 ==> n > 0 && sock.Fed()
      ensures n == Gets(old(sock.plan), if size < old(msgSz) then size else old(msgSz))
    {
      hide Inv, InLoop, Came, Piece, Pieced, Stream.Fed, Before;
      LoopFacts();
      ghost var before, ahead, pos := Before(), Ahead(), sock.pos;
      n := ReadPayload(dst, size);
      CameNow(if n > 0 then n else 0, before, pos, Handed(dst, n));
      if n > 0 {
        PieceCame(n, before, ahead, pos, Handed(dst, n));
      } else {
        LoopAgain(before, ahead, pos, Handed(dst, n));
      }
    }

    lemma LoopFacts()
      requires InLoop()
      ensures sock.Valid() && Inv(Before(), progress, Ahead()) && Ahead() == sock.wire[sock.pos..]
      ensures buf.Length == 6 && bufPos + toRecv <= 6
      ensures !InBody() ==> toRecv > 0
      ensures InBody() ==> toRecv == 0 && bufPos == 0 && |mask| == 4 && msgSz <= |sock.wire| - sock.pos
      ensures InBody() ==> progress.rest != []
    {
      if InBody() {
        BodyFacts(Snap(), progress, Ahead());
      }
    }

    lemma CameNow(n: nat, before: Reader, pos: nat, bytes: seq<Byte>)
      requires Came(n, before, pos, bytes)
      ensures sock.pos == pos + n && n <= before.msgSz && msgSz == before.msgSz - n && state == before.state
    {
    }

    lemma LoopAgain(before: Reader, ahead: seq<Byte>, pos: nat, bytes: seq<Byte>)
      requires Came(0, before, pos, bytes) && pos <= |sock.wire| && ahead == sock.wire[pos..]
      requires Inv(before, progress, ahead)
      ensures InLoop()
    {
    }

    lemma PieceCame(n: nat, before: Reader, ahead: seq<Byte>, pos: nat, bytes: seq<Byte>)
      requires Came(n, before, pos, bytes) && n > 0 && pos <= |sock.wire| && ahead == sock.wire[pos..]
      requires Inv(before, progress, ahead)
      ensures Pieced(n, before) && Piece(state.Control?, n == before.msgSz, bytes, progress, Delivered(progress, n))
    {
      hide Inv, Piece, Unmask;
      var data := sock.wire[pos..sock.pos];
      assert ahead == data + Ahead();
      BodyFacts(before, progress, ahead);
      PieceTold(before, progress, data, Ahead());
    }

    /** The rounds that read a fixed-size field: FRAME_HEADER and FRAME_OPT. */
    method OnField(ghost size: nat) returns (n: int, ghost why: Why, finished: bool)
      requires InLoop() && !InBody()
      modifies this, buf, sock`pos, sock`plan, sock`blocked
      ensures STREAM_ERROR <= n <= 0
      ensures finished ==> Valid() && Did(old(Now()), Now(), why, n, [], size, |sock.wire|, sock.blocked)
      ensures !finished ==> InLoop() && Passed(old(Now()), Now(), size) && sock.pos > old(sock.pos)
    {
      hide Inv, Pending, InLoop, InStep, Valid, Later, Typed, Stream.Fed, Did, Passed;
      LoopFacts();
      ghost var m := Now();
      FieldAhead();
      n := FillBuf();
      why, finished := if n == 0 then Ended else Stuck, n != 1;
      if finished {
        FieldEnds(m, why, n, size);
        StillValid();
        return;
      }
      n := 0;
      ghost var full := Now();
      OnFull();
      TypeFilled(m, full, Now());
      FieldPasses(m, size);
    }

    lemma FieldAhead()
      requires InLoop()
      ensures !state.FrameHeader? ==> progress.rest != []
    {
    }

    lemma StillValid()
      requires InStep() && toRecv > 0 && !InBody()
      ensures Valid()
    {
    }

    /** The buffer holds the whole field. */
    method OnFull()
      requires InStep() && toRecv == 0 && !InBody()
      modifies this`wsFlags, this`lastFlags, this`mask, this`bufPos, this`toRecv, this`msgSz, this`state
      ensures InLoop() && Typed(old(Now()), Now())
    {
      hide Inv, Typed;
      ghost var m := Now();
      if state.FrameHeader? {
        HeaderHeld(Snap(), progress, Ahead());
        AfterHeaderInv(Snap(), progress, Ahead());
        HeaderType(Snap(), progress, Ahead());
        OnHeader();
        TypedHeader(m, Now());
      } else {
        AfterOptInv(Snap(), progress, Ahead());
        OptMask(Snap(), progress, Ahead());
        OnOpt();
        TypedSame(m, Now());
      }
    }

    lemma FieldEnds(m: Moment, why: Why, n: int, size: nat)
      requires !state.FrameHeader? ==> progress.rest != []
      requires sock.pos >= m.pos && Now() == m.(pos := sock.pos, fed := sock.Fed())
      requires if n == 0 then why == Ended && sock.pos == |sock.wire| && Pending(progress) == [] && progress.rest == []
        else n == -1 && why == Stuck && (sock.blocked || sock.pos > m.pos) && (m.fed ==> sock.Fed() && sock.pos > m.pos)
      ensures Did(m, Now(), why, n, [], size, |sock.wire|, sock.blocked)
    {
      hide Pending, Later, Clear, Closes, Typed, Stream.Fed;
      TypedSame(m, Now());
      ClosesSelf(progress);
      LaterSelf(progress);
      ClearSelf(progress);
    }

    lemma FieldPasses(m: Moment, size: nat)
      requires sock.pos > m.pos && (m.fed ==> sock.Fed()) && Typed(m, Now())
      requires Now() == m.(state := state, msgSz := msgSz, flags := wsFlags, pos := sock.pos, fed := sock.Fed())
      ensures Passed(m, Now(), size)
    {
      hide Pending, Later, Clear, Closes, Typed, Stream.Fed;
      ClosesSelf(progress);
      LaterSelf(progress);
      ClearSelf(progress);
    }

    /** One round of the read loop. */
    method Round(dst: array<Byte>, size: nat) returns (n: int, ghost why: Why, finished: bool)
      requires InLoop() && size <= dst.Length && dst != buf
      modifies this, sock, buf, dst
      ensures STREAM_ERROR <= n <= size
      ensures finished ==> Valid() && Did(old(Now()), Now(), why, n, Handed(dst, n), size, |sock.wire|, sock.blocked)
      ensures !finished ==> InLoop() && Passed(old(Now()), Now(), size)
      ensures !finished ==> sock.pos > old(sock.pos) || (old(InBody()) && state.FrameHeader?)
    {
      hide InLoop, Valid, Did, Passed, Stream.Fed;
      if InBody() {
        n, why, finished := OnBody(dst, size);
      } else {
        n, why, finished := OnField(size);
      }
    }

    /** websocket_read.  However the stream is chopped, the bytes handed over are the next
        pending message bytes, or else part of a control frame not yet complete; a stream
        that delivers is followed to its end. */
    method Read(dst: array<Byte>, size: nat) returns (n: int, ghost why: Why)
      requires Valid() && size <= dst.Length && dst != buf
      modifies this, sock, buf, dst
      ensures Valid() && STREAM_ERROR <= n <= size
      ensures Did(old(Now()), Now(), why, n, Handed(dst, n), size, |sock.wire|, sock.blocked)
      ensures Closes(old(progress), progress, why == Closed) && Typed(old(Now()), Now())
      ensures old(sock.Fed()) && size > 0 ==> why == Ended || (sock.Fed() && sock.pos > old(sock.pos))
    {
      hide InLoop, Valid, Now, Did, Passed, Closes, Typed, Stream.Fed;
      ghost var m := Now();
      Present();
      Enter(m, size);
      n, why := 0, Nothing;
      var finished := false;
      while !finished
        invariant STREAM_ERROR <= n <= size && sock.pos <= |sock.wire|
        invariant !finished ==> InLoop() && Passed(m, Now(), size)
        invariant finished ==> Valid() && Did(m, Now(), why, n, Handed(dst, n), size, |sock.wire|, sock.blocked)
        decreases |sock.wire| - sock.pos, if finished then 0 else if InBody() then 2 else 1
      {
        ghost var m1 := Now();
        Present();
        n, why, finished := Round(dst, size);
        if finished {
          PassedDid(m, m1, Now(), why, n, Handed(dst, n), size, |sock.wire|, sock.blocked);
        } else {
          PassedTwice(m, m1, Now(), size);
        }
        Forward(m1, why, n, finished, Handed(dst, n), size);
      }
      DidFeed(m, Now(), why, n, Handed(dst, n), size, |sock.wire|, sock.blocked);
      Present();
    }

    lemma Present()
      ensures Now().progress == progress && Now().pos == sock.pos && Now().fed == sock.Fed()
    {
    }

    lemma Enter(m: Moment, size: nat)
      requires Valid() && m == Now()
      ensures InLoop() && Passed(m, m, size) && sock.pos <= |sock.wire|
      ensures (m.InBody() ==> m.msgSz > 0) && m.pos == sock.pos && m.fed == sock.Fed()
    {
      FieldAhead();
      PassedNone(m, size);
      hide Inv, Passed;
    }

    lemma Forward(m: Moment, why: Why, n: int, finished: bool, bytes: seq<Byte>, size: nat)
      requires if finished then Valid() && Did(m, Now(), why, n, bytes, size, |sock.wire|, sock.blocked)
        else InLoop() && Passed(m, Now(), size)
      ensures m.pos <= sock.pos <= |sock.wire|
    {
      hide Inv, Pending, Later, Told;
    }

    /** websocket_write. */
    method Write(data: seq<Byte>) returns (n: int, err: nat)
      requires |data| < 0x1_0000
      modifies sock`sent, sock`answers, sock`blocking
      ensures var w := Writing(opts, old(sock.blocking), old(sock.answers), data);
        && sock.sent == old(sock.sent) + w.bytes && n == w.n && err == w.err
        && sock.answers == w.answers && sock.blocking == (old(sock.blocking) && !Blocking(opts))
    {
      hide Rw;
      var header: seq<Byte> := [0x80 + opts % 16];
      if |data| < 126 {
        header := header + [|data|];
      } else {
        header := header + [126, |data| / 0x100, |data| % 0x100];
      }
      assert header == Header(opts, |data|);
      hide Header;
      if opts >= 0x80 {
        sock.blocking := true;
      }
      var done;
      done, err := sock.WriteExactly(header);
      ghost var h := done;
      if err == 0 {
        done, err := sock.WriteExactly(data);
        Assoc(old(sock.sent), header[..h], data[..done]);
      }
      if opts >= 0x80 {
        sock.blocking := false;
      }
      n := if err != 0 then STREAM_ERROR else done;
    }

    /** The label no_payload: a frame is finished. */
    method NextFrame()
      modifies this`state, this`toRecv, this`maskPos, this`bufPos
      ensures state == FrameHeader && toRecv == 2 && maskPos == 0 && bufPos == 0
    {
      state, toRecv, maskPos, bufPos := FrameHeader, 2, 0, 0;
    }
  }

  /** What a read put at the front of the caller's buffer. */
  ghost function Handed(dst: array<Byte>, n: int): seq<Byte>
    reads dst
    requires n <= dst.Length
  {
    if n > 0 then dst[..n] else []
  }

  lemma DidFeed(m: Moment, m': Moment, why: Why, n: int, bytes: seq<Byte>, size: nat, end: nat, blocked: bool)
    requires Did(m, m', why, n, bytes, size, end, blocked) && (m.InBody() ==> m.msgSz > 0)
    ensures m.fed && size > 0 ==> why == Ended || (m'.fed && m'.pos > m.pos)
    ensures Told(why, n, bytes, m.progress, m'.progress) && Later(m.progress, m'.progress) && Typed(m, m')
    ensures Closes(m.progress, m'.progress, why == Closed)
    ensures size <= 1 && why != Leak ==> Clear(m.progress, m'.progress)
  {
  }

  lemma BodyFacts(r: Reader, g: Progress, ahead: seq<Byte>)
    requires Inv(r, g, ahead) && (r.state.Payload? || r.state.Control?)
    ensures r.toRecv == 0 && r.held == [] && g.rest != [] && |r.mask| == 4
    ensures r.state.Control? == IsControl(g.rest[0]) && g.done + r.msgSz == |g.rest[0].payload|
    ensures r.lastFlags == g.rest[0].b0
    ensures |ahead| >= r.msgSz
  {
  }

  lemma HeaderHeld(r: Reader, g: Progress, ahead: seq<Byte>)
    requires Inv(r, g, ahead) && r.state.FrameHeader? && r.toRecv == 0
    ensures |r.held| == 2
  {
  }

  /** A continuation keeps the type. */
  lemma HeaderType(r: Reader, g: Progress, ahead: seq<Byte>)
    requires Inv(r, g, ahead) && r.state.FrameHeader? && r.toRecv == 0
    ensures |r.held| == 2 && g.rest != []
    ensures var b0 := g.rest[0].b0; AfterHeader(r).wsFlags % 16 == if b0 % 16 == 0 then r.wsFlags % 16 else b0 % 16
  {
    hide Inv;
    HeaderHeld(r, g, ahead);
    var f := HeaderBytes(r, g, ahead);
  }

  lemma OptMask(r: Reader, g: Progress, ahead: seq<Byte>)
    requires Inv(r, g, ahead)
    ensures |r.mask| == 4 && (r.state.FrameOpt? ==> g.rest != [])
  {
  }

  lemma WrapIndex(start: nat, i: nat)
    ensures (start + i) % 256 % 4 == (start + i) % 4
    ensures ((start + i) % 256 + 1) % 256 == (start + i + 1) % 256
  {
    var k := start + i;
    var q := k / 256;
    assert k == 4 * (64 * q) + k % 256;
    FourMore(64 * q, k % 256);
    WrapSum(k, 1);
  }

  // ----- Whole runs

  lemma ToldEnd(why: Why, n: int, bytes: seq<Byte>, g: Progress, h: Progress)
    requires Told(why, n, bytes, g, h) && Later(g, h)
    ensures g.rest == [] || why == Ended ==> h.rest == []
  {
    hide Pending;
  }

  /** Any number of reads with any buffer sizes.  What they return, in order, is a prefix
      of the message bytes and the rest is still to come, unless a control frame of two
      bytes or more leaked into it.  Enough reads of a stream that delivers see the end,
      and read byte by byte such a stream leaks exactly if it has such a frame. */
  method Drain(ws: WebSocket, sizes: seq<nat>) returns (got: seq<Byte>, ghost ended: bool, ghost leaked: bool)
    requires ws.Valid()
    modifies ws, ws.sock, ws.buf
    ensures ws.Valid() && (!leaked ==> got + Pending(ws.progress) == old(Pending(ws.progress)))
    ensures ended ==> Pending(ws.progress) == []
    ensures Quiet(old(ws.progress).rest) ==> !leaked
    ensures old(ws.sock.Fed()) && Asks(sizes, |ws.sock.wire| - old(ws.sock.pos)) ==> ended
    ensures ended && Bytewise(sizes) && old(Tidy(ws.progress)) ==> (leaked <==> !Quiet(old(ws.progress).rest))
  {
    hide *;
    got, ended, leaked := [], false, false;
    ghost var g0, pos0 := ws.progress, ws.sock.pos;
    ghost var fed, single := ws.sock.Fed() && Positive(sizes), Bytewise(sizes);
    StartRun(g0, single);
    if Positive(sizes) {
      AskedAll(sizes);
    }
    if single {
      AskedBytes(sizes);
    }
    for i := 0 to |sizes|
      modifies ws, ws.sock, ws.buf
      invariant ws.Valid() && InRun(g0, ws.progress, got, ended, leaked, single)
      invariant fed ==> ended || (ws.sock.Fed() && ws.sock.pos >= pos0 + i)
    {
      got, ended, leaked := OneMore(ws, sizes[i], g0, got, ended, leaked, single);
    }
    EndRun(ws, g0, got, ended, leaked, single);
    if Asks(sizes, |ws.sock.wire| - pos0) {
      AskedMore(sizes, |ws.sock.wire| - pos0);
    }
  }

  predicate Bytewise(sizes: seq<nat>) { forall i :: 0 <= i < |sizes| ==> sizes[i] == 1 }

  lemma AskedBytes(sizes: seq<nat>)
    requires Bytewise(sizes)
    ensures forall i :: 0 <= i < |sizes| ==> sizes[i] == 1
  {
  }

  lemma StartRun(g: Progress, single: bool)
    ensures InRun(g, g, [], false, false, single)
  {
    LaterSelf(g);
    ClearSelf(g);
    assert [] + Pending(g) == Pending(g);
  }

  lemma EndRun(ws: WebSocket, g0: Progress, got: seq<Byte>, ended: bool, leaked: bool, single: bool)
    requires ws.Valid() && InRun(g0, ws.progress, got, ended, leaked, single)
    ensures ws.sock.pos <= |ws.sock.wire| && (ended ==> Pending(ws.progress) == [])
    ensures (!leaked ==> got + Pending(ws.progress) == Pending(g0)) && (Quiet(g0.rest) ==> !leaked)
    ensures single && ended && !leaked && Tidy(g0) ==> Quiet(g0.rest)
  {
    hide Inv, Quiet, Later, Clear, Tidy, Plain, DataOf;
    if single && ended && !leaked && Tidy(g0) {
      ClearEnd(g0, ws.progress);
    }
  }

  lemma AskedAll(sizes: seq<nat>)
    requires Positive(sizes)
    ensures forall i :: 0 <= i < |sizes| ==> sizes[i] > 0
  {
  }

  lemma AskedMore(sizes: seq<nat>, n: int)
    requires Asks(sizes, n)
    ensures n < |sizes| && Positive(sizes)
  {
  }

  /** A run that started at `g0` and is now at `g`. */
  ghost predicate InRun(g0: Progress, g: Progress, got: seq<Byte>, ended: bool, leaked: bool, single: bool) {
    && Later(g0, g) && (!leaked ==> got + Pending(g) == Pending(g0))
    && (ended ==> g.rest == []) && (Quiet(g0.rest) ==> !leaked)
    && (single && !leaked ==> Clear(g0, g))
  }

  lemma RunMore(g0: Progress, g: Progress, h: Progress, was: seq<Byte>, ended: bool, leaked: bool, single: bool,
      why: Why, n: int, bytes: seq<Byte>)
    requires InRun(g0, g, was, ended, leaked, single) && Told(why, n, bytes, g, h) && Later(g, h)
    requires if n > 0 then bytes != [] else bytes == []
    requires single && why != Leak ==> Clear(g, h)
    ensures InRun(g0, h, was + bytes, ended || why == Ended, leaked || why == Leak, single)
  {
    hide Pending, Told, Quiet, Later, Clear;
    LaterTwice(g0, g, h);
    ToldEnd(why, n, bytes, g, h);
    if !leaked && why != Leak {
      ToldGot(why, n, bytes, Pending(g0), g, h, was);
      if single {
        ClearTwice(g0, g, h);
      }
    }
    if Quiet(g0.rest) {
      ToldQuiet(why, n, bytes, g0, g, h);
    }
  }

  /** The next read of a run. */
  method OneMore(ws: WebSocket, size: nat, ghost g0: Progress, was: seq<Byte>, ghost ended0: bool, ghost leaked0: bool,
        ghost single: bool)
      returns (got: seq<Byte>, ghost ended: bool, ghost leaked: bool)
    requires ws.Valid() && InRun(g0, ws.progress, was, ended0, leaked0, single) && (single ==> size == 1)
    modifies ws, ws.sock, ws.buf
    ensures ws.Valid() && InRun(g0, ws.progress, got, ended, leaked, single) && (ended0 ==> ended)
    ensures old(ws.sock.Fed()) && size > 0 ==> ended || (ws.sock.Fed() && ws.sock.pos > old(ws.sock.pos))
  {
    hide InRun, Did, Told, Later, Clear, WebSocket.Valid, Stream.Fed;
    ghost var m := ws.Now();
    RestedNow(ws);
    var dst := new Byte[size];
    var n, why := ws.Read(dst, size);
    got := was + if n > 0 then dst[..n] else [];
    ghost var bytes := Handed(dst, n);
    DidFeed(m, ws.Now(), why, n, bytes, size, |ws.sock.wire|, ws.sock.blocked);
    RunMore(g0, m.progress, ws.progress, was, ended0, leaked0, single, why, n, bytes);
    ended, leaked := ended0 || why == Ended, leaked0 || why == Leak;
  }

  lemma RestedNow(ws: WebSocket)
    requires ws.Valid()
    ensures ws.Now().InBody() ==> ws.Now().msgSz > 0
  {
  }

  /** The next read can deliver `n` bytes at once. */
  predicate Plenty(plan: seq<nat>, left: int, n: nat) { plan != [] && plan[0] >= n && left >= n }

  const PING := Frame(0x89, 2, [], [], [7, 9])

  /** A ping behind a text message takes its type over. */
  lemma PingTakesType(text: Frame)
    requires text.b0 == 0x81
    ensures Kind([text], 2) == 1 && Kind([text, PING], 2) == 9
  {
  }

  lemma PingWire()
    ensures FramesOk([PING]) && WireAll([PING]) == [0x89, 2, 7, 9]
  {
    NoMaskIsIdentity(PING.payload);
    assert [PING][1..] == [];
    assert FrameOk(PING) && Wire(PING) == [0x89, 2, 7, 9];
  }

  lemma PingLeaked(bytes: seq<Byte>, h: Progress)
    requires Leaked(bytes, h) && Later(Progress([PING], 0), h) && |bytes| == 1
    ensures bytes == [7]
  {
    hide Later;
    OnlyOne(PING, h);
    assert h.done == 1 && [7, 9][0..1] == [7];
  }

  lemma OnlyOne(f: Frame, h: Progress)
    requires Later(Progress([f], 0), h) && h.rest != []
    ensures h.rest[0] == f
  {
    var k :| 0 <= k <= 1 && h.rest == [f][k..];
    assert k == 0;
  }

  /** A peer that sends one ping of two bytes. */
  method PingStarts() returns (ws: WebSocket)
    ensures fresh(ws) && fresh(ws.sock) && fresh(ws.buf) && ws.InLoop() && ws.sock.Fed()
    ensures ws.state.FrameHeader? && ws.toRecv == 2 && ws.progress == Progress([PING], 0)
    ensures Plenty(ws.sock.plan, |ws.sock.wire| - ws.sock.pos, 2)
  {
    hide WireAll, Wire, Inv, Stream.Fed, FramesOk, Waiting, Plenty;
    PingWire();
    var sock := new Stream([0x89, 2, 7, 9], [2, 1, 1, 1, 1, 1], []);
    PingPlan(sock);
    ws := new WebSocket(sock, false, [PING]);
  }

  /** The header of the ping has come in. */
  method PingComes() returns (ws: WebSocket)
    ensures fresh(ws) && fresh(ws.sock) && fresh(ws.buf) && ws.InLoop() && ws.sock.Valid() && ws.sock.Fed()
    ensures ws.state.Control? && ws.msgSz == 2 && ws.progress == Progress([PING], 0)
  {
    hide Inv, Stream.Fed, Pending, Plenty, Waiting;
    ws := PingStarts();
    var r := ws.FillBuf();
    PingHeader(ws);
    ws.OnHeader();
  }

  lemma PingPlan(sock: Stream)
    requires sock.wire == [0x89, 2, 7, 9] && sock.pos == 0 && sock.plan == [2, 1, 1, 1, 1, 1]
    ensures sock.Fed() && Plenty(sock.plan, |sock.wire| - sock.pos, 2) && sock.wire[0..] == sock.wire
  {
  }

  lemma PingHeader(ws: WebSocket)
    requires ws.InStep() && ws.state.FrameHeader? && ws.toRecv == 0 && ws.progress == Progress([PING], 0)
    ensures ws.bufPos == 2 && ws.Snap().held == [0x89, 2]
    ensures Inv(AfterHeader(ws.Snap()), ws.progress, ws.Ahead()) && Waiting(AfterHeader(ws.Snap()))
  {
    hide Inv, WireAll, Wire;
    var f := HeaderBytes(ws.Snap(), ws.progress, ws.Ahead());
    AfterHeaderInv(ws.Snap(), ws.progress, ws.Ahead());
    assert |ws.Snap().held| == ws.bufPos;
  }

  lemma FedGets(sock: Stream)
    requires sock.Valid() && sock.Fed()
    ensures Gets(sock.plan, 1) == 1
  {
  }

  /** A read of one byte hands over the first byte of the ping. */
  method PingLeaks() returns (got: seq<Byte>)
    ensures got == [7]
  {
    hide WebSocket.InLoop, WebSocket.Valid, Stream.Fed, Did, Passed, Leaked, Later, Clear, Gets;
    var ws := PingComes();
    FedGets(ws.sock);
    var dst := new Byte[1];
    ghost var m := ws.Now();
    var n, why, finished := ws.OnBody(dst, 1);
    DidFeed(m, ws.Now(), why, n, Handed(dst, n), 1, |ws.sock.wire|, ws.sock.blocked);
    PingLeaked(Handed(dst, n), ws.progress);
    got := dst[..n];
  }

  /** More reads than `n`, each of at least one byte. */
  predicate Asks(sizes: seq<nat>, n: int) { n < |sizes| && Positive(sizes) }

  predicate Positive(sizes: seq<nat>) { forall i :: 0 <= i < |sizes| ==> sizes[i] > 0 }

  /** One more read in a run that had got `was`. */
  lemma ToldGot(why: Why, n: int, bytes: seq<Byte>, all: seq<Byte>, g: Progress, h: Progress, was: seq<Byte>)
    requires Told(why, n, bytes, g, h) && why != Leak && (n <= 0 ==> bytes == [])
    requires was + Pending(g) == all
    ensures was + bytes + Pending(h) == all
  {
    hide Pending;
    Assoc(was, bytes, Pending(h));
    if n <= 0 {
      assert was + bytes == was;
    }
  }

  lemma ToldQuiet(why: Why, n: int, bytes: seq<Byte>, f: Progress, g: Progress, h: Progress)
    requires Told(why, n, bytes, g, h) && (n > 0 ==> bytes != []) && Quiet(f.rest) && Later(f, h)
    ensures why != Leak
  {
    hide Pending, Quiet, Later;
    if why == Leak {
      QuietLeaksNothing(bytes, f, h);
    }
  }

  /** A written message is a well-formed frame with the message as payload. */
  lemma WrittenIsFrame(opts: Byte, data: seq<Byte>)
    requires |data| < 0x1_0000 && opts % 16 < 8
    ensures FrameOk(WrittenFrame(opts, data)) && WrittenBytes(opts, data) == Wire(WrittenFrame(opts, data))
  {
    var f := WrittenFrame(opts, data);
    assert FrameOk(f);
    NoMaskIsIdentity(data);
    assert MaskOf(f) == NO_MASK;
    assert Header(opts, |data|) == [f.b0, f.b1] + f.ext;
    Assoc([f.b0, f.b1], f.ext, data);
    assert f.ext + f.key + data == f.ext + data;
  }

  lemma NoMaskIsIdentity(data: seq<Byte>)
    ensures Masked(data, NO_MASK) == data
  {
    hide Xor;
    forall i | 0 <= i < |data| ensures Masked(data, NO_MASK)[i] == data[i] {
      XorZero(data[i]);
      assert NO_MASK[i % 4] == 0;
    }
  }

  function Concat(msgs: seq<seq<Byte>>): seq<Byte> {
    if msgs == [] then [] else msgs[0] + Concat(msgs[1..])
  }

  predicate Writable(msgs: seq<seq<Byte>>) { forall i :: 0 <= i < |msgs| ==> |msgs[i]| < 0x1_0000 }

  function WrittenFrames(opts: Byte, msgs: seq<seq<Byte>>): (fs: seq<Frame>)
    requires Writable(msgs)
  {
    if msgs == [] then [] else [WrittenFrame(opts, msgs[0])] + WrittenFrames(opts, msgs[1..])
  }

  function WrittenAll(opts: Byte, msgs: seq<seq<Byte>>): seq<Byte>
    requires Writable(msgs)
  {
    if msgs == [] then [] else WrittenBytes(opts, msgs[0]) + WrittenAll(opts, msgs[1..])
  }

  /** The bytes of a run of writes are the wire of frames whose payloads are the
      messages. */
  lemma WrittenData(opts: Byte, data: seq<Byte>)
    requires |data| < 0x1_0000 && opts % 16 < 8
    ensures DataOf(WrittenFrame(opts, data), 0) == data
  {
  }

  lemma {:induction false} WritesAreFrames(opts: Byte, msgs: seq<seq<Byte>>)
    requires Writable(msgs) && opts % 16 < 8
    ensures FramesOk(WrittenFrames(opts, msgs))
    ensures WireAll(WrittenFrames(opts, msgs)) == WrittenAll(opts, msgs)
    ensures Plain(WrittenFrames(opts, msgs)) == Concat(msgs)
    decreases |msgs|
  {
    hide Wire, WrittenBytes, WrittenFrame, FrameOk;
    if msgs != [] {
      WritesAreFrames(opts, msgs[1..]);
      WrittenIsFrame(opts, msgs[0]);
      WrittenData(opts, msgs[0]);
      var fs := WrittenFrames(opts, msgs);
      assert fs[0] == WrittenFrame(opts, msgs[0]) && fs[1..] == WrittenFrames(opts, msgs[1..]);
    }
  }

  lemma {:induction false} WrittenAllAppend(opts: Byte, msgs: seq<seq<Byte>>, m: seq<Byte>)
    requires Writable(msgs) && |m| < 0x1_0000
    ensures Writable(msgs + [m])
    ensures WrittenAll(opts, msgs + [m]) == WrittenAll(opts, msgs) + WrittenBytes(opts, m)
    decreases |msgs|
  {
    hide WrittenBytes;
    if msgs == [] {
      assert [m][1..] == [];
      assert WrittenAll(opts, [m]) == WrittenBytes(opts, m) + [];
    } else {
      assert (msgs + [m])[1..] == msgs[1..] + [m];
      WrittenAllAppend(opts, msgs[1..], m);
      Assoc(WrittenBytes(opts, msgs[0]), WrittenAll(opts, msgs[1..]), WrittenBytes(opts, m));
    }
  }

  /** Write the messages, one frame each, to a stream that is only slow. */
  method WriteAll(writer: WebSocket, msgs: seq<seq<Byte>>)
    requires Writable(msgs) && Blocking(writer.opts) && Healthy(writer.sock.answers)
    modifies writer.sock`sent, writer.sock`answers, writer.sock`blocking
    ensures writer.sock.sent == old(writer.sock.sent) + WrittenAll(writer.opts, msgs)
  {
    ghost var was := writer.sock.sent;
    assert msgs[..0] == [] && WrittenAll(writer.opts, []) == [];
    hide WrittenAll, WrittenBytes, Writing, Taken, Healthy;
    for i := 0 to |msgs|
      invariant writer.sock.sent == was + WrittenAll(writer.opts, msgs[..i]) && Healthy(writer.sock.answers)
    {
      NextMessage(writer.opts, msgs, i);
      Assoc(was, WrittenAll(writer.opts, msgs[..i]), WrittenBytes(writer.opts, msgs[i]));
      BlockingTaken(writer.opts, writer.sock.blocking, writer.sock.answers, msgs[i]);
      WholeIffTaken(writer.opts, writer.sock.blocking, writer.sock.answers, msgs[i]);
      var _, _ := writer.Write(msgs[i]);
    }
    assert msgs[..|msgs|] == msgs;
  }

  lemma NextMessage(opts: Byte, msgs: seq<seq<Byte>>, i: nat)
    requires Writable(msgs) && i < |msgs|
    ensures |msgs[i]| < 0x1_0000 && Writable(msgs[..i]) && Writable(msgs[..i + 1])
    ensures WrittenAll(opts, msgs[..i + 1]) == WrittenAll(opts, msgs[..i]) + WrittenBytes(opts, msgs[i])
  {
    hide WrittenAll, WrittenBytes;
    assert msgs[..i + 1] == msgs[..i] + [msgs[i]];
    WrittenAllAppend(opts, msgs[..i], msgs[i]);
  }

  /** Enough deliveries for `n` bytes and the end. */
  predicate Delivers(plan: seq<nat>, n: nat) {
    n < |plan| && forall i :: 0 <= i < |plan| ==> plan[i] > 0
  }

  lemma {:induction false} WrittenQuiet(opts: Byte, msgs: seq<seq<Byte>>)
    requires Writable(msgs) && opts % 16 < 8
    ensures Quiet(WrittenFrames(opts, msgs))
    decreases |msgs|
  {
    if msgs != [] {
      WrittenQuiet(opts, msgs[1..]);
    }
  }

  /** The bytes on the wire for the messages. */
  method Send(msgs: seq<seq<Byte>>, answers: seq<Answer>) returns (wire: seq<Byte>)
    requires Writable(msgs) && Healthy(answers)
    ensures wire == WrittenAll(0x81, msgs)
  {
    var outgoing := new Stream([], [], answers);
    assert outgoing.wire[0..] == [] == WireAll([]);
    var writer := new WebSocket(outgoing, true, []);
    hide WrittenAll, Healthy, WebSocket.Valid, WireAll;
    WriteAll(writer, msgs);
    wire := outgoing.sent;
  }

  /** What the receiver of the messages starts with. */
  lemma Incoming(msgs: seq<seq<Byte>>)
    requires Writable(msgs)
    ensures var fs := WrittenFrames(0x81, msgs);
      && FramesOk(fs) && WireAll(fs) == WrittenAll(0x81, msgs) && Quiet(fs)
      && Pending(Progress(fs, 0)) == Concat(msgs)
  {
    hide *;
    WritesAreFrames(0x81, msgs);
    WrittenQuiet(0x81, msgs);
    PendingStart(WrittenFrames(0x81, msgs));
  }

  lemma FedBy(sock: Stream, plan: seq<nat>)
    requires sock.plan == plan && sock.pos == 0 && Delivers(plan, |sock.wire|)
    ensures sock.Fed()
  {
  }

  /** Messages written on one side over a slow stream and read on the other, over any
      chopping and with any buffer sizes: nothing but a prefix of them arrives, and all
      of them if the stream delivers and enough is read. */
  method Exchange(msgs: seq<seq<Byte>>, answers: seq<Answer>, plan: seq<nat>, sizes: seq<nat>)
      returns (got: seq<Byte>)
    requires Writable(msgs) && Healthy(answers)
    ensures got <= Concat(msgs)
    ensures var n := |WrittenAll(0x81, msgs)|; Delivers(plan, n) && Asks(sizes, n) ==> got == Concat(msgs)
  {
    hide *;
    var wire := Send(msgs, answers);
    Incoming(msgs);
    var incoming := new Stream(wire, plan, []);
    assert wire[0..] == wire;
    var reader := new WebSocket(incoming, false, WrittenFrames(0x81, msgs));
    if Delivers(plan, |wire|) {
      FedBy(incoming, plan);
    }
    ghost var ended, leaked;
    got, ended, leaked := Drain(reader, sizes);
    if ended {
      assert got + [] == got;
    }
  }
}
