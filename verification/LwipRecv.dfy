/** Receiving on a TCP socket in extmod/modlwip.c: lwIP callbacks append buffers
    to a chain, user calls copy from its front. */
module LwipRecv {
  import opened Bytes
  import opened Seqs
  import opened Wrappers

  /** STATE_xxx; a negative state is an lwIP error. */
  datatype State = Idle | Connected | PeerClosed | Failed(err: nat)

  datatype Errno = EAGAIN | ETIMEDOUT | ENOTCONN | Lwip(err: nat)

  datatype Event = Data(bufs: seq<seq<Byte>>) | Close | Error(err: nat)

  datatype Result = Bytes(bytes: seq<Byte>) | Eof | Err(errno: Errno)

  /** The socket, with all that came in, went out, was acknowledged and was
      thrown away with a dead connection. */
  datatype Socket = Socket(chain: seq<seq<Byte>>, offset: nat, state: State,
    received: seq<Byte>, delivered: seq<Byte>, credit: nat, lost: seq<Byte>)

  const START := Socket([], 0, Connected, [], [], 0, [])

  function Flat(chain: seq<seq<Byte>>): seq<Byte> {
    if chain == [] then [] else chain[0] + Flat(chain[1..])
  }

  /** The bytes not yet read. */
  function Pending(s: Socket): seq<Byte> {
    if s.chain == [] || s.offset > |s.chain[0]| then [] else s.chain[0][s.offset..] + Flat(s.chain[1..])
  }

  /** _lwip_tcp_recv and _lwip_tcp_error; a dead connection gets no more data. */
  function OnEvent(s: Socket, e: Event): Socket {
    if s.state.Failed? then s
    else
      match e
      case Data(bufs) => s.(chain := s.chain + bufs, received := s.received + Flat(bufs))
      case Close => s.(state := PeerClosed)
      case Error(err) => s.(chain := [], state := Failed(err), lost := Pending(s))
  }

  /** The copying part of lwip_tcp_receive: from the first buffer only. */
  function Take(s: Socket, len: nat): (Socket, seq<Byte>)
    requires s.chain != [] && s.offset <= |s.chain[0]|
  {
    var p := s.chain[0];
    var remaining := |p| - s.offset;
    var n := if len > remaining then remaining else len;
    var out := p[s.offset..s.offset + n];
    var s' := if n == remaining then s.(chain := s.chain[1..], offset := 0) else s.(offset := s.offset + n);
    (s'.(delivered := s.delivered + out, credit := s.credit + n), out)
  }

  // ----- What every step keeps

  /** lwIP hands over no empty buffers. */
  predicate Filled(bufs: seq<seq<Byte>>) { forall i :: 0 <= i < |bufs| ==> bufs[i] != [] }

  ghost predicate Inv(s: Socket) {
    && Filled(s.chain)
    && (if s.chain == [] then s.offset == 0 || s.state.Failed? else s.offset < |s.chain[0]|)
    && s.received == s.delivered + Pending(s) + s.lost
    && s.credit == |s.delivered|
    && (!s.state.Failed? ==> s.lost == [])
    && (s.state.Failed? ==> s.chain == [])
  }

  lemma {:induction false} FlatAppend(a: seq<seq<Byte>>, b: seq<seq<Byte>>)
    ensures Flat(a + b) == Flat(a) + Flat(b)
    decreases |a|
  {
    if a == [] {
      assert a + b == b;
    } else {
      assert (a + b)[1..] == a[1..] + b;
      FlatAppend(a[1..], b);
    }
  }

  lemma FlatWhole(chain: seq<seq<Byte>>)
    requires chain != []
    ensures chain[0][0..] + Flat(chain[1..]) == Flat(chain)
  {
  }

  lemma PendingAppend(s: Socket, bufs: seq<seq<Byte>>)
    requires if s.chain == [] then s.offset == 0 else s.offset <= |s.chain[0]|
    ensures Pending(s.(chain := s.chain + bufs)) == Pending(s) + Flat(bufs)
  {
    hide Flat;
    if s.chain == [] {
      assert s.chain + bufs == bufs;
      FlatNone();
      if bufs != [] {
        FlatWhole(bufs);
      }
    } else {
      assert (s.chain + bufs)[1..] == s.chain[1..] + bufs;
      FlatAppend(s.chain[1..], bufs);
      Assoc(s.chain[0][s.offset..], Flat(s.chain[1..]), Flat(bufs));
    }
  }

  lemma FlatNone()
    ensures Flat([]) == []
  {
  }

  lemma MoreReceived(d: seq<Byte>, p: seq<Byte>, b: seq<Byte>)
    ensures (d + p + []) + b == d + (p + b) + []
  {
  }

  lemma MoreDelivered(d: seq<Byte>, out: seq<Byte>, p: seq<Byte>, lost: seq<Byte>)
    ensures d + (out + p) + lost == (d + out) + p + lost
  {
  }

  lemma NoPending(d: seq<Byte>, p: seq<Byte>)
    ensures d + p + [] == d + [] + p
  {
  }

  lemma EventKeeps(s: Socket, e: Event)
    requires Inv(s) && (e.Data? ==> Filled(e.bufs))
    ensures Inv(OnEvent(s, e))
  {
    if !s.state.Failed? {
      match e {
        case Data(bufs) => DataKeeps(s, bufs);
        case Close =>
        case Error(err) => NoPending(s.delivered, Pending(s));
      }
    }
  }

  lemma DataKeeps(s: Socket, bufs: seq<seq<Byte>>)
    requires Inv(s) && Filled(bufs) && !s.state.Failed?
    ensures Inv(s.(chain := s.chain + bufs, received := s.received + Flat(bufs)))
  {
    PendingAppend(s, bufs);
    var s' := s.(chain := s.chain + bufs, received := s.received + Flat(bufs));
    assert Pending(s') == Pending(s.(chain := s.chain + bufs));
    assert Filled(s'.chain);
    hide Pending, Flat, Filled;
    MoreReceived(s.delivered, Pending(s), Flat(bufs));
  }

  /** The first buffer is used up. */
  lemma TakeAll(p: seq<Byte>, rest: seq<seq<Byte>>, offset: nat, s: Socket)
    requires offset <= |p| && s.chain == rest && s.offset == 0
    ensures p[offset..] + Pending(s) == p[offset..] + Flat(rest)
  {
  }

  /** Part of the first buffer is taken. */
  lemma TakeSome(p: seq<Byte>, flat: seq<Byte>, offset: nat, n: nat)
    requires offset + n <= |p|
    ensures p[offset..offset + n] + (p[offset + n..] + flat) == p[offset..] + flat
  {
  }

  lemma TakePending(s: Socket, len: nat)
    requires s.chain != [] && s.offset < |s.chain[0]|
    ensures var (s', out) := Take(s, len); out + Pending(s') == Pending(s)
  {
    var p, rest := s.chain[0], s.chain[1..];
    var (s', out) := Take(s, len);
    var n := |out|;
    if n == |p| - s.offset {
      assert out == p[s.offset..];
      TakeAll(p, rest, s.offset, s');
    } else {
      TakeSome(p, Flat(rest), s.offset, n);
    }
  }

  lemma TakeSize(s: Socket, len: nat)
    requires s.chain != [] && s.offset < |s.chain[0]|
    ensures var (s', out) := Take(s, len);
      && s'.delivered == s.delivered + out && s'.credit == s.credit + |out|
      && (out == [] ==> len == 0)
      && |out| == (if len > |s.chain[0]| - s.offset then |s.chain[0]| - s.offset else len)
  {
  }

  lemma TakeKeeps(s: Socket, len: nat)
    requires Inv(s) && s.chain != []
    ensures Inv(Take(s, len).0)
  {
    TakePending(s, len);
    var (s', out) := Take(s, len);
    MoreDelivered(s.delivered, out, Pending(s'), s.lost);
    hide Pending, Flat;
  }

  // ----- Runs of callbacks and reads

  datatype Op = Callback(event: Event) | Read(len: nat)

  function Step(s: Socket, op: Op): Socket {
    match op
    case Callback(e) => OnEvent(s, e)
    case Read(len) => if s.chain != [] && s.offset <= |s.chain[0]| then Take(s, len).0 else s
  }

  function Run(ops: seq<Op>): Socket {
    if ops == [] then START else Step(Run(ops[..|ops| - 1]), ops[|ops| - 1])
  }

  /** The callback that an lwIP error makes. */
  predicate Breaks(op: Op) { op.Callback? && op.event.Error? }

  predicate Broken(ops: seq<Op>) { exists i :: 0 <= i < |ops| && Breaks(ops[i]) }

  /** What lwIP hands over in the data callbacks before the first error. */
  function Arrived(ops: seq<Op>): seq<Byte> {
    if ops == [] then []
    else
      var before, op := ops[..|ops| - 1], ops[|ops| - 1];
      Arrived(before) + if op.Callback? && op.event.Data? && !Broken(before) then Flat(op.event.bufs) else []
  }

  /** How the callbacks leave the connection: failed with the first error, else
      closed if the peer closed it. */
  ghost predicate Ends(ops: seq<Op>, state: State) {
    match state
    case Failed(err) => exists i :: 0 <= i < |ops| && ops[i] == Callback(Error(err)) && !Broken(ops[..i])
    case PeerClosed => !Broken(ops) && Callback(Close) in ops
    case Connected => !Broken(ops) && Callback(Close) !in ops
    case Idle => false
  }

  ghost predicate AllFilled(ops: seq<Op>) {
    forall i :: 0 <= i < |ops| && ops[i].Callback? && ops[i].event.Data? ==> Filled(ops[i].event.bufs)
  }

  /** Under any interleaving the bytes read, then those pending, then those thrown
      away at an error, are the bytes that lwIP handed over before it, and the
      window was opened again for exactly those read. */
  lemma RunConserves(ops: seq<Op>)
    requires AllFilled(ops)
    ensures var s := Run(ops);
      && Inv(s) && Ends(ops, s.state)
      && Arrived(ops) == s.delivered + Pending(s) + s.lost && s.credit == |s.delivered|
      && (!Broken(ops) ==> s.lost == []) && (Broken(ops) ==> Pending(s) == [])
  {
    RunKeeps(ops);
    RunReceives(ops);
    RunEnds(ops);
  }

  lemma {:induction false} RunKeeps(ops: seq<Op>)
    requires AllFilled(ops)
    ensures Inv(Run(ops))
    decreases |ops|
  {
    if ops != [] {
      var before, op := ops[..|ops| - 1], ops[|ops| - 1];
      RunKeeps(before);
      hide Inv, OnEvent, Take;
      match op {
        case Callback(e) => EventKeeps(Run(before), e);
        case Read(len) => if Run(before).chain != [] { TakeKeeps(Run(before), len); }
      }
    }
  }

  lemma BrokenLast(ops: seq<Op>)
    requires ops != []
    ensures Broken(ops) <==> Broken(ops[..|ops| - 1]) || Breaks(ops[|ops| - 1])
  {
    hide Breaks;
    var before := ops[..|ops| - 1];
    if Broken(before) {
      var i :| 0 <= i < |before| && Breaks(before[i]);
      assert Breaks(ops[i]);
    }
    if Broken(ops) && !Breaks(ops[|ops| - 1]) {
      var i :| 0 <= i < |ops| && Breaks(ops[i]);
      assert Breaks(before[i]);
    }
  }

  lemma {:induction false} RunReceives(ops: seq<Op>)
    ensures Run(ops).received == Arrived(ops) && (Run(ops).state.Failed? <==> Broken(ops))
    decreases |ops|
  {
    if ops != [] {
      RunReceives(ops[..|ops| - 1]);
      BrokenLast(ops);
      hide Broken, Flat, Pending;
    }
  }

  lemma {:induction false} RunEnds(ops: seq<Op>)
    ensures Ends(ops, Run(ops).state)
    decreases |ops|
  {
    hide Ends, Step, Broken;
    if ops == [] {
      NothingEnds();
    } else {
      var before := ops[..|ops| - 1];
      RunEnds(before);
      RunReceives(before);
      StepState(Run(before), ops[|ops| - 1]);
      EndsNext(ops, Run(before).state, Run(ops).state);
    }
  }

  lemma NothingEnds()
    ensures Ends([], Connected)
  {
  }

  /** The state that one step leaves. */
  predicate Follows(s: State, op: Op, s': State) {
    if s.Failed? || op.Read? || op.event.Data? then s' == s
    else s' == match op.event case Close => PeerClosed case Error(err) => Failed(err) case _ => s
  }

  lemma StepState(s: Socket, op: Op)
    ensures Follows(s.state, op, Step(s, op).state)
  {
    hide Flat, Pending;
  }

  lemma EndsNext(ops: seq<Op>, s: State, s': State)
    requires ops != [] && Ends(ops[..|ops| - 1], s) && Follows(s, ops[|ops| - 1], s')
    requires s.Failed? <==> Broken(ops[..|ops| - 1])
    ensures Ends(ops, s')
  {
    hide Broken;
    BrokenLast(ops);
    var before, op := ops[..|ops| - 1], ops[|ops| - 1];
    if s.Failed? {
      EndsLater(ops, s);
    } else {
      assert ops == before + [op];
    }
  }

  /** A connection that failed stays as it is. */
  lemma EndsLater(ops: seq<Op>, state: State)
    requires ops != [] && Ends(ops[..|ops| - 1], state) && state.Failed?
    ensures Ends(ops, state)
  {
    hide Broken;
    var before := ops[..|ops| - 1];
    var i :| 0 <= i < |before| && before[i] == Callback(Error(state.err)) && !Broken(before[..i]);
    assert ops[i] == before[i] && ops[..i] == before[..i];
  }

  /** The callbacks that run while a read waits. */
  function Polled(s: Socket, es: seq<Event>): Socket {
    if es == [] then s else OnEvent(Polled(s, es[..|es| - 1]), es[|es| - 1])
  }

  /** What a read has to say when the socket is left at `s`. */
  ghost predicate Answers(s: Socket, blocking: bool, r: Result) {
    if s.chain != [] then r.Bytes?
    else r == match s.state
      case Failed(err) => Err(Lwip(err))
      case PeerClosed => Eof
      case Connected => Err(if blocking then ETIMEDOUT else EAGAIN)
      case Idle => Err(if blocking then ENOTCONN else EAGAIN)
  }

  /** Nothing to read, and the connection is up. */
  predicate Idles(s: Socket) { s.state.Connected? && s.chain == [] }

  /** A read that has let `used` callbacks run waited for each of them. */
  ghost predicate Waited(s: Socket, polls: seq<Event>, used: nat) {
    used <= |polls| && forall j :: 0 <= j < used ==> Idles(Polled(s, polls[..j]))
  }

  lemma WaitStarts(s: Socket, polls: seq<Event>)
    ensures Polled(s, polls[..0]) == s && Waited(s, polls, 0)
    ensures Inv(s) && s.state.Failed? ==> s.chain == []
  {
  }

  lemma WaitGoesOn(s: Socket, polls: seq<Event>, i: nat)
    requires i < |polls| && Waited(s, polls, i) && Idles(Polled(s, polls[..i]))
    ensures Waited(s, polls, i + 1) && Polled(s, polls[..i + 1]) == OnEvent(Polled(s, polls[..i]), polls[i])
    ensures var t := OnEvent(Polled(s, polls[..i]), polls[i]);
      && t.delivered == Polled(s, polls[..i]).delivered && t.credit == Polled(s, polls[..i]).credit
      && (!t.state.Connected? && !t.state.PeerClosed? ==> t.chain == [])
  {
    hide Flat, Pending;
    assert polls[..i + 1][..i] == polls[..i];
  }

  // ----- The object

  class TcpSocket {
    var chain: seq<seq<Byte>>
    var offset: nat
    var state: State
    var credit: nat
    ghost var received: seq<Byte>
    ghost var delivered: seq<Byte>
    ghost var lost: seq<Byte>

    ghost function View(): Socket
      reads this
    {
      Socket(chain, offset, state, received, delivered, credit, lost)
    }

    constructor ()
      ensures View() == START
    {
      chain, offset, state, credit := [], 0, Connected, 0;
      received, delivered, lost := [], [], [];
    }

    /** The callbacks. */
    method Deliver(e: Event)
      modifies this
      ensures View() == OnEvent(old(View()), e)
    {
      if state.Failed? {
        return;
      }
      match e {
        case Data(bufs) =>
          if chain == [] {
            chain := bufs;
            assert bufs == [] + bufs;
          } else {
            chain := chain + bufs;
          }
          received := received + Flat(bufs);
        case Close =>
          state := PeerClosed;
        case Error(err) =>
          lost := Pending(View());
          chain := [];
          state := Failed(err);
      }
    }

    /** Nothing can be read, for a reason other than the peer's. */
    predicate Dead()
      reads this
    {
      !state.Connected? && !state.PeerClosed?
    }

    /** Wait for data: each poll may run callbacks; no poll left is a timeout. */
    method Wait(polls: seq<Event>) returns (timedOut: bool, ghost used: nat)
      requires Inv(View()) && chain == [] && forall i :: 0 <= i < |polls| && polls[i].Data? ==> Filled(polls[i].bufs)
      modifies this
      ensures Inv(View()) && delivered == old(delivered) && credit == old(credit)
      ensures used <= |polls| && View() == Polled(old(View()), polls[..used])
      ensures timedOut || Dead() ==> chain == []
      ensures !timedOut ==> !state.Connected? || chain != []
      ensures timedOut ==> used == |polls| && state.Connected?
      ensures Waited(old(View()), polls, used)
    {
      hide Inv, OnEvent, Polled, Waited;
      WaitStarts(View(), polls);
      var i := 0;
      timedOut, used := false, 0;
      while state == Connected && chain == []
        invariant 0 <= i == used <= |polls| && Inv(View()) && delivered == old(delivered) && credit == old(credit)
        invariant View() == Polled(old(View()), polls[..i]) && (Dead() ==> chain == [])
        invariant Waited(old(View()), polls, i)
        decreases |polls| - i
      {
        if i == |polls| {
          timedOut := true;
          return;
        }
        EventKeeps(View(), polls[i]);
        WaitGoesOn(old(View()), polls, i);
        Deliver(polls[i]);
        i := i + 1;
        used := i;
      }
    }

    /** The part of lwip_tcp_receive before the copy: no result yet means there are bytes. */
    method Await(blocking: bool, polls: seq<Event>) returns (r: Option<Result>, ghost used: nat)
      requires Inv(View()) && forall i :: 0 <= i < |polls| && polls[i].Data? ==> Filled(polls[i].bufs)
      modifies this
      ensures Inv(View()) && delivered == old(delivered) && credit == old(credit)
      ensures used <= |polls| && (!blocking ==> used == 0) && View() == Polled(old(View()), polls[..used])
      ensures r.None? <==> chain != []
      ensures r.Some? ==> r.value.Err? || (r.value.Eof? && state.PeerClosed?)
      ensures Waited(old(View()), polls, used) && (r == Some(Err(ETIMEDOUT)) ==> used == |polls|)
      ensures Answers(View(), blocking, if r.Some? then r.value else Bytes([]))
      ensures !old(state).Failed? && old(chain) != [] ==> r.None?
    {
      used := 0;
      if state.Failed? {
        r := Some(Err(Lwip(state.err)));
        return;
      }
      if chain != [] {
        r := None;
        return;
      }
      if !blocking {
        r := Some(if state == PeerClosed then Eof else Err(EAGAIN));
        return;
      }
      var timedOut;
      timedOut, used := Wait(polls);
      if timedOut {
        r := Some(Err(ETIMEDOUT));
      } else if state == PeerClosed {
        r := if chain == [] then Some(Eof) else None;
      } else if state != Connected {
        r := Some(Err(if state.Failed? then Lwip(state.err) else ENOTCONN));
      } else {
        r := None;
      }
    }

    /** lwip_tcp_receive: the callbacks that ran while it waited, then one read. */
    method Receive(len: nat, blocking: bool, polls: seq<Event>) returns (r: Result, ghost used: nat)
      requires Inv(View()) && forall i :: 0 <= i < |polls| && polls[i].Data? ==> Filled(polls[i].bufs)
      modifies this
      ensures Inv(View())
      ensures delivered == old(delivered) + if r.Bytes? then r.bytes else []
      ensures credit == old(credit) + if r.Bytes? then |r.bytes| else 0
      ensures r.Bytes? ==> |r.bytes| <= len && (r.bytes == [] ==> len == 0)
      ensures r.Eof? ==> state == PeerClosed && delivered == received
      ensures !old(state).Failed? && old(chain) != [] ==> r.Bytes?
      ensures Waited(old(View()), polls, used) && (!blocking ==> used == 0)
      ensures Answers(Polled(old(View()), polls[..used]), blocking, r) && (r == Err(ETIMEDOUT) ==> used == |polls|)
      ensures View() == Step(Polled(old(View()), polls[..used]), Read(len))
    {
      var early;
      early, used := Await(blocking, polls);
      if early.Some? {
        r := early.value;
        return;
      }
      TakeKeeps(View(), len);
      TakeSize(View(), len);
      assert offset < |chain[0]|;
      hide Inv, Take, Polled;
      var out := Copy(len);
      r := Bytes(out);
    }

    /** The copying part, under the lwIP lock. */
    method Copy(len0: nat) returns (out: seq<Byte>)
      requires chain != [] && offset <= |chain[0]|
      modifies this
      ensures View() == Take(old(View()), len0).0
      ensures out == Take(old(View()), len0).1
    {
      var p, len := chain[0], len0;
      var remaining := |p| - offset;
      if len > remaining {
        len := remaining;
      }
      out := p[offset..offset + len];
      remaining := remaining - len;
      if remaining == 0 {
        chain := chain[1..];
        offset := 0;
      } else {
        offset := offset + len;
      }
      credit := credit + len;
      delivered := delivered + out;
    }
  }

  // ----- The object through a run

  /** A new socket driven through a run is where the run says, and what its reads
      handed out is the front of what lwIP handed over. */
  method Replay(sock: TcpSocket, ops: seq<Op>) returns (out: seq<Byte>)
    requires sock.View() == START
    requires AllFilled(ops)
    modifies sock
    ensures sock.View() == Run(ops) && Inv(Run(ops)) && out == Run(ops).delivered
    ensures Arrived(ops) == out + Pending(sock.View()) + sock.lost && (!Broken(ops) ==> sock.lost == [])
  {
    out := [];
    for k := 0 to |ops|
      invariant sock.View() == Run(ops[..k]) && out == sock.delivered
    {
      RunKeeps(ops[..k]);
      assert ops[..k + 1][..k] == ops[..k];
      hide Inv, OnEvent, Take, Arrived, Broken;
      match ops[k] {
        case Callback(e) =>
          EventDelivers(sock.View(), e);
          sock.Deliver(e);
        case Read(len) =>
          var r, used := sock.Receive(len, false, []);
          if r.Bytes? {
            out := out + r.bytes;
          }
      }
    }
    assert ops[..|ops|] == ops;
    RunConserves(ops);
  }

  lemma EventDelivers(s: Socket, e: Event)
    ensures OnEvent(s, e).delivered == s.delivered
  {
  }
}
