/** A stream object under py/stream.c: reads deliver bytes in arbitrary pieces,
    writes take as much as the other side has room for. */
module Streams {
  import opened Bytes

  const EAGAIN: nat := 11

  /** How the stream answers one write: it takes up to `k` bytes, would block, or fails. */
  datatype Answer = Accept(k: nat) | Again | Broken(errno: nat)

  /** What a writing loop achieved, the error it reports (0 for none) and the answers left. */
  datatype Outcome = Outcome(done: nat, err: nat, answers: seq<Answer>)

  /** An outcome behind `d` bytes already written: a would-block is then no error. */
  function Behind(d: nat, r: Outcome): Outcome {
    Outcome(d + r.done, if d > 0 && r.err == EAGAIN then 0 else r.err, r.answers)
  }

  /** mp_stream_rw writing `n` bytes; answers that ran out mean room for everything,
      and a blocking stream waits instead of asking to be tried again. */
  function Rw(answers: seq<Answer>, blocking: bool, n: nat): (r: Outcome)
    ensures r.done <= n
    decreases |answers|
  {
    if n == 0 then Outcome(0, 0, answers)
    else if answers == [] then Outcome(n, 0, [])
    else
      match answers[0]
      case Accept(k) =>
        if k == 0 then Outcome(0, 0, answers[1..])
        else if k >= n then Outcome(n, 0, answers[1..])
        else Behind(k, Rw(answers[1..], blocking, n - k))
      case Again => if blocking then Outcome(n, 0, answers[1..]) else Outcome(0, EAGAIN, answers[1..])
      case Broken(errno) => Outcome(0, errno, answers[1..])
  }

  /** The stream takes `n` bytes without a refusal. */
  predicate Flows(answers: seq<Answer>, blocking: bool, n: nat)
    decreases |answers|
  {
    n == 0 || answers == [] ||
    match answers[0]
    case Accept(k) => k >= n || (k > 0 && Flows(answers[1..], blocking, n - k))
    case Again => blocking
    case Broken(_) => false
  }

  /** Everything is written exactly when the stream does not refuse on the way. */
  lemma {:induction false} RwWhole(answers: seq<Answer>, blocking: bool, n: nat)
    ensures Rw(answers, blocking, n).done == n <==> Flows(answers, blocking, n)
    ensures Flows(answers, blocking, n) ==> Rw(answers, blocking, n).err == 0
    decreases |answers|
  {
    if n > 0 && answers != [] && answers[0].Accept? && 0 < answers[0].k < n {
      RwWhole(answers[1..], blocking, n - answers[0].k);
    }
  }

  /** The stream stops taking bytes short of `n`, but in a way that reports no error;
      `some` have been taken before. */
  predicate Stops(answers: seq<Answer>, blocking: bool, n: nat, some: bool)
    decreases |answers|
  {
    n > 0 && answers != [] &&
    match answers[0]
    case Accept(k) => k == 0 || (k < n && Stops(answers[1..], blocking, n - k, true))
    case Again => !blocking && some
    case Broken(errno) => errno == 0 || (errno == EAGAIN && some)
  }

  /** The writing loop falls short without an error exactly then. */
  lemma {:induction false} RwStops(answers: seq<Answer>, blocking: bool, n: nat, d: nat)
    ensures Behind(d, Rw(answers, blocking, n)).err == 0 && !Flows(answers, blocking, n)
      <==> Stops(answers, blocking, n, d > 0)
    decreases |answers|
  {
    if n > 0 && answers != [] && answers[0].Accept? && 0 < answers[0].k < n {
      var k := answers[0].k;
      RwStops(answers[1..], blocking, n - k, d + k);
      BehindBehind(d, k, Rw(answers[1..], blocking, n - k));
    }
  }

  /** A stream that is slow but never refuses outright. */
  predicate Healthy(answers: seq<Answer>) {
    forall i :: 0 <= i < |answers| ==> answers[i].Again? || (answers[i].Accept? && answers[i].k > 0)
  }

  /** A blocking write to it is always whole. */
  lemma {:induction false} HealthyFlows(answers: seq<Answer>, n: nat)
    requires Healthy(answers)
    ensures Flows(answers, true, n) && Healthy(Rw(answers, true, n).answers)
    decreases |answers|
  {
    if n > 0 && answers != [] && answers[0].Accept? && 0 < answers[0].k < n {
      HealthyFlows(answers[1..], n - answers[0].k);
    }
  }

  lemma BehindBehind(d: nat, k: nat, r: Outcome)
    requires k > 0
    ensures Behind(d, Behind(k, r)) == Behind(d + k, r)
  {
  }

  /** The first `d` bytes of `data` went out after `was`. */
  predicate Wrote(was: seq<Byte>, data: seq<Byte>, d: nat, sent: seq<Byte>) {
    d <= |data| && sent == was + data[..d]
  }

  /** What a read of `n` bytes gets from a stream that has them: -1 for a would-block. */
  function Gets(plan: seq<nat>, n: nat): int {
    if plan == [] || plan[0] == 0 then -1 else if plan[0] < n then plan[0] else n
  }

  /** `wire` is everything the peer sends; each read obeys the next entry of `plan`:
      would-block (0) or deliver at most that many bytes. */
  class Stream {
    const wire: seq<Byte>
    var pos: nat
    var plan: seq<nat>
    var sent: seq<Byte>
    var answers: seq<Answer>
    var blocking: bool
    ghost var blocked: bool  // whether the last read would have blocked

    ghost predicate Valid()
      reads this
    {
      pos <= |wire|
    }

    /** Enough deliveries are planned to reach the end of the wire and see it. */
    ghost predicate Fed()
      reads this
    {
      |wire| - pos < |plan| && forall i :: 0 <= i < |plan| ==> plan[i] > 0
    }

    constructor (wire: seq<Byte>, plan: seq<nat>, answers: seq<Answer>)
      ensures Valid() && this.wire == wire && pos == 0 && this.plan == plan
      ensures sent == [] && this.answers == answers && !blocking
    {
      this.wire, pos, this.plan, sent, this.answers := wire, 0, plan, [], answers;
      blocking, blocked := false, false;
    }

    /** Up to `n` bytes; none of a positive number and no error means end of stream. */
    method Read(n: nat) returns (data: seq<Byte>, wouldBlock: bool)
      requires Valid()
      modifies this`pos, this`plan, this`blocked
      ensures Valid() && |data| <= n && pos == old(pos) + |data|
      ensures data == wire[old(pos)..pos]
      ensures wouldBlock == blocked && (wouldBlock ==> data == [])
      ensures wouldBlock <==> old(plan) == [] || old(plan)[0] == 0
      ensures |wire| - old(pos) >= n ==> (if wouldBlock then -1 else |data|) == Gets(old(plan), n)
      ensures !wouldBlock && data == [] && n > 0 ==> pos == |wire|
      ensures plan == if old(plan) == [] then [] else old(plan)[1..]
      ensures old(Fed()) && n > 0 ==> !wouldBlock && (data != [] ==> Fed())
    {
      blocked := |plan| == 0 || plan[0] == 0;
      if |plan| == 0 || plan[0] == 0 {
        plan := if |plan| == 0 then plan else plan[1..];
        return [], true;
      }
      var k := if plan[0] < n then plan[0] else n;
      if |wire| - pos < k {
        k := |wire| - pos;
      }
      plan := plan[1..];
      data, wouldBlock := wire[pos..pos + k], false;
      pos := pos + k;
    }

    /** One write of the underlying stream, of `data` from `d` on: bytes taken, or -1 and an error. */
    method WriteSome(data: seq<Byte>, d: nat) returns (n: int, err: nat)
      requires d < |data|
      modifies this`sent, this`answers
      ensures -1 <= n <= |data| - d
      ensures n > 0 ==> sent == old(sent) + data[d..d + n]
      ensures n > 0 ==> Rw(old(answers), blocking, |data| - d) == Behind(n, Rw(answers, blocking, |data| - d - n))
      ensures n <= 0 ==> sent == old(sent)
      ensures n <= 0 ==> Rw(old(answers), blocking, |data| - d) == Outcome(0, if n == 0 then 0 else err, answers)
    {
      var size := |data| - d;
      err := 0;
      if answers == [] {
        n := size;
      } else {
        match answers[0] {
          case Accept(k) => n := if k < size then k else size;
          case Again =>
            if blocking {
              n := size;
            } else {
              n, err := -1, EAGAIN;
            }
          case Broken(errno) => n, err := -1, errno;
        }
        answers := answers[1..];
      }
      if n > 0 {
        sent := sent + data[d..d + n];
      }
    }

    /** `d` bytes are out, and the rest of the loop leads to `goal`. */
    ghost predicate OnTrack(goal: Outcome, was: seq<Byte>, data: seq<Byte>, d: nat)
      reads this
    {
      Wrote(was, data, d, sent) && goal == Behind(d, Rw(answers, blocking, |data| - d))
    }

    /** One round of the loop in mp_stream_rw. */
    method Round(data: seq<Byte>, d: nat, ghost goal: Outcome, ghost was: seq<Byte>)
        returns (done: nat, err: nat, more: bool)
      requires d < |data| && OnTrack(goal, was, data, d)
      modifies this`sent, this`answers
      ensures d <= done <= |data| && (more ==> d < done && err == 0 && OnTrack(goal, was, data, done))
      ensures !more ==> goal == Outcome(done, err, answers) && Wrote(was, data, done, sent)
    {
      hide Rw, Behind, Wrote;
      ghost var so := sent;
      var n, code := WriteSome(data, d);
      if n <= 0 {
        BehindRefusal(d, n, code, answers);
        return d, if n == 0 || (code == EAGAIN && d != 0) then 0 else code, false;
      }
      BehindBehind(d, n, Rw(answers, blocking, |data| - d - n));
      WroteMore(was, data, d, n, so);
      return d + n, 0, true;
    }

    /** mp_stream_write_exactly. */
    method WriteExactly(data: seq<Byte>) returns (done: nat, err: nat)
      modifies this`sent, this`answers
      ensures Outcome(done, err, answers) == Rw(old(answers), blocking, |data|)
      ensures Wrote(old(sent), data, done, sent)
    {
      ghost var goal, was := Rw(answers, blocking, |data|), sent;
      BehindNone(goal);
      assert OnTrack(goal, was, data, 0);
      hide OnTrack, Rw, Wrote, Behind;
      done, err := 0, 0;
      var more := true;
      while more && done < |data|
        invariant done <= |data| && (more ==> err == 0 && OnTrack(goal, was, data, done))
        invariant !more ==> goal == Outcome(done, err, answers) && Wrote(was, data, done, sent)
        decreases |data| - done, more
      {
        done, err, more := Round(data, done, goal, was);
      }
      if more {
        Finished(goal, was, data);
      }
    }

    lemma Finished(goal: Outcome, was: seq<Byte>, data: seq<Byte>)
      requires OnTrack(goal, was, data, |data|)
      ensures goal == Outcome(|data|, 0, answers) && Wrote(was, data, |data|, sent)
    {
    }
  }

  lemma BehindNone(r: Outcome)
    ensures Behind(0, r) == r
  {
  }

  lemma BehindRefusal(d: nat, n: int, err: nat, answers: seq<Answer>)
    ensures Behind(d, Outcome(0, if n == 0 then 0 else err, answers))
      == Outcome(d, if n == 0 || (err == EAGAIN && d != 0) then 0 else err, answers)
  {
  }

  lemma WroteMore(was: seq<Byte>, data: seq<Byte>, d: nat, n: nat, sent: seq<Byte>)
    requires d + n <= |data| && Wrote(was, data, d, sent)
    ensures Wrote(was, data, d + n, sent + data[d..d + n])
  {
  }
}
