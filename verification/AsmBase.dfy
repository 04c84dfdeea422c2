/** The two-pass assembler core of py/asmbase.c.

    A compute pass counts bytes and records label offsets; an emit pass then
    writes the bytes.  The C asserts that guard the second pass are modelled as
    the outcome `AssertFailed`, so that "the assert never fires" is a statement
    about runs. */
module AsmBase {
  import opened Arith
  import opened Bits
  import opened Bytes

  /** The label offset (size_t)-1: not assigned yet. */
  const UNASSIGNED: int := -1

  datatype Pass = Compute | Emit

  /** What a code generator writes for one instruction; `TooBig` raises the
      "native method too big" exception after writing `bytes`. */
  datatype Emission = Bytes(bytes: seq<Byte>) | TooBig(bytes: seq<Byte>)

  /** A generator: instruction, current code offset and label offset
      (`UNASSIGNED` when unknown or when there is no label) to emission. */
  type Encoder<!I> = (I, nat, int) -> Emission

  datatype Item<I> =
    | Place(lab: nat)
    | Plain(insn: I)
    | Branch(insn: I, lab: nat)
    | Align(boundary: Boundary)

  type Boundary = n: nat | n > 0 witness 1

  /** The fields of mp_asm_base_t; code_size is `|code|`. */
  datatype AsmState = AsmState(pass: Pass, off: nat, code: seq<Byte>, labels: seq<int>)

  datatype Outcome = Running(s: AsmState) | AssertFailed | MethodTooBig

  /** mp_asm_base_align: masked up to `boundary`, never back, and to an even
      offset if it is even. */
  function AlignUp(off: nat, boundary: Boundary): (r: nat)
    ensures off <= r < off + boundary
    ensures boundary % 2 == 0 ==> r % 2 == 0
  {
    AlignFacts(off, boundary);
    AndNot(off + boundary - 1, boundary - 1)
  }

  lemma AlignFacts(off: nat, boundary: Boundary)
    ensures off <= AndNot(off + boundary - 1, boundary - 1) < off + boundary
    ensures boundary % 2 == 0 ==> AndNot(off + boundary - 1, boundary - 1) % 2 == 0
  {
    hide *;
    AndNotFacts(off + boundary - 1, boundary - 1);
  }

  /** For a power of two it is the least multiple at or after the offset. */
  lemma AlignsToPower(off: nat, k: nat)
    ensures AlignUp(off, Pow2(k)) % Pow2(k) == 0 && off <= AlignUp(off, Pow2(k)) < off + Pow2(k)
  {
    var p := Pow2(k);
    var q := AndNotOnes(off + p - 1, k);
    hide AndNot, Pow2;
    DivMod(q, p, 0);
  }

  /** mp_asm_base_get_cur_to_write_bytes followed by the caller's stores. */
  function Write(s: AsmState, bs: seq<Byte>): (r: Outcome)
    ensures !r.MethodTooBig?
  {
    if s.pass.Compute? then
      Running(s.(off := s.off + |bs|))
    else if s.off + |bs| > |s.code| then
      AssertFailed
    else
      Running(s.(off := s.off + |bs|, code := s.code[..s.off] + bs + s.code[s.off + |bs|..]))
  }

  lemma StoredNext(before: seq<Byte>, bs: seq<Byte>, o: nat, i: nat)
    requires o + |bs| <= |before| && i < |bs|
    ensures (before[..o] + bs[..i] + before[o + i..])[o + i := bs[i]] == before[..o] + bs[..i + 1] + before[o + i + 1..]
  {
  }

  /** Writing in two pieces is writing the whole. */
  lemma WriteTwice(s: AsmState, a: seq<Byte>, b: seq<Byte>)
    ensures Write(s, a + b) == match Write(s, a) case Running(t) => Write(t, b) case AssertFailed => AssertFailed
  {
  }

  function WriteEmission(s: AsmState, e: Emission): Outcome {
    match e
    case Bytes(bs) => Write(s, bs)
    case TooBig(bs) => if Write(s, bs).Running? then MethodTooBig else AssertFailed
  }

  /** mp_asm_base_label_assign. */
  function AssignLabel(s: AsmState, lab: nat): Outcome {
    if lab >= |s.labels| then
      AssertFailed
    else if s.pass.Compute? then
      if s.labels[lab] != UNASSIGNED then AssertFailed
      else Running(s.(labels := s.labels[lab := s.off]))
    else
      if s.labels[lab] != s.off then AssertFailed
      else Running(s)
  }

  function Step<I>(enc: Encoder<I>, item: Item<I>, s: AsmState): Outcome {
    match item
    case Place(lab) => AssignLabel(s, lab)
    case Plain(insn) => WriteEmission(s, enc(insn, s.off, UNASSIGNED))
    case Branch(insn, lab) =>
      if lab >= |s.labels| then AssertFailed
      else WriteEmission(s, enc(insn, s.off, s.labels[lab]))
    case Align(boundary) => Running(s.(off := AlignUp(s.off, boundary)))
  }

  /** One pass over a program. */
  function Run<I>(enc: Encoder<I>, prog: seq<Item<I>>, s: AsmState): Outcome {
    if prog == [] then Running(s) else
    match Run(enc, prog[..|prog| - 1], s)
    case Running(t) => Step(enc, prog[|prog| - 1], t)
    case AssertFailed => AssertFailed
    case MethodTooBig => MethodTooBig
  }

  /** mp_asm_base_start_pass for the compute pass. */
  function StartCompute(numLabels: nat): (s: AsmState) {
    AsmState(Compute, 0, [], seq(numLabels, _ => UNASSIGNED))
  }

  /** mp_asm_base_start_pass for the emit pass, on freshly allocated memory. */
  function StartEmit(c: AsmState, mem: seq<Byte>): (s: AsmState) {
    AsmState(Emit, 0, mem, c.labels)
  }

  /** Labels are in range and placed at most once. */
  ghost predicate WellFormed<I>(prog: seq<Item<I>>, numLabels: nat) {
    && (forall k :: 0 <= k < |prog| && prog[k].Place? ==> prog[k].lab < numLabels)
    && (forall k :: 0 <= k < |prog| && prog[k].Branch? ==> prog[k].lab < numLabels)
    && (forall j, k :: 0 <= j < k < |prog| && prog[j].Place? && prog[k].Place? ==>
          prog[j].lab != prog[k].lab)
  }

  /** A forward target never changes the size that was assumed while the label
      was still unknown. */
  ghost predicate ForwardStable<I(!new)>(enc: Encoder<I>) {
    forall i: I, off: nat, d: int ::
      enc(i, off, UNASSIGNED).Bytes? && d >= off + |enc(i, off, UNASSIGNED).bytes| ==>
        if enc(i, off, d).Bytes? then |enc(i, off, d).bytes| == |enc(i, off, UNASSIGNED).bytes|
        else |enc(i, off, d).bytes| <= |enc(i, off, UNASSIGNED).bytes|
  }

  ghost predicate PlacedIn<I>(prog: seq<Item<I>>, lab: nat) {
    exists k :: 0 <= k < |prog| && prog[k] == Place(lab)
  }

  /** Invariant of the compute pass after the items `prog`. */
  ghost predicate ComputeInv<I>(prog: seq<Item<I>>, numLabels: nat, s: AsmState) {
    && s.pass.Compute? && s.code == [] && |s.labels| == numLabels
    && (forall l :: 0 <= l < numLabels ==>
          if PlacedIn(prog, l) then 0 <= s.labels[l] <= s.off else s.labels[l] == UNASSIGNED)
  }

  /** No assert fires in the compute pass: the only way not to finish is
      "native method too big". */
  lemma {:induction false} ComputeNeverAsserts<I>(enc: Encoder<I>, prog: seq<Item<I>>, numLabels: nat)
    requires WellFormed(prog, numLabels)
    ensures !Run(enc, prog, StartCompute(numLabels)).AssertFailed?
    ensures var r := Run(enc, prog, StartCompute(numLabels));
            r.Running? ==> ComputeInv(prog, numLabels, r.s)
  {
    if prog != [] {
      var last := |prog| - 1;
      var front := prog[..last];
      FrontWellFormed(prog, numLabels, last);
      ComputeNeverAsserts(enc, front, numLabels);
      var r := Run(enc, front, StartCompute(numLabels));
      if r.Running? {
        hide ComputeInv, PlacedIn, WellFormed, StartCompute, AndNot;
        NextNeverAsserts(enc, prog, numLabels, r.s);
      }
    }
  }

  lemma FrontWellFormed<I>(prog: seq<Item<I>>, numLabels: nat, n: nat)
    requires WellFormed(prog, numLabels) && n <= |prog|
    ensures WellFormed(prog[..n], numLabels)
  {
  }

  lemma PlacedLast<I>(prog: seq<Item<I>>, l: nat)
    requires prog != []
    ensures PlacedIn(prog, l) <==> PlacedIn(prog[..|prog| - 1], l) || prog[|prog| - 1] == Place(l)
  {
    var last := |prog| - 1;
    var front := prog[..last];
    if PlacedIn(front, l) {
      var k :| 0 <= k < |front| && front[k] == Place(l);
      assert prog[k] == Place(l);
    }
    if PlacedIn(prog, l) && prog[last] != Place(l) {
      var k :| 0 <= k < |prog| && prog[k] == Place(l);
      assert front[k] == Place(l);
    }
  }

  /** The last item finds its label unassigned. */
  lemma NextNeverAsserts<I>(enc: Encoder<I>, prog: seq<Item<I>>, numLabels: nat, s: AsmState)
    requires prog != [] && WellFormed(prog, numLabels)
    requires ComputeInv(prog[..|prog| - 1], numLabels, s)
    ensures var r := Step(enc, prog[|prog| - 1], s);
      !r.AssertFailed? && (r.Running? ==> ComputeInv(prog, numLabels, r.s))
  {
    hide AlignUp;
    var last := |prog| - 1;
    forall l | 0 <= l < numLabels ensures PlacedIn(prog, l) <==> PlacedIn(prog[..last], l) || prog[last] == Place(l) {
      PlacedLast(prog, l);
    }
    if prog[last].Place? {
      NotBefore(prog, last);
    }
  }

  lemma NotBefore<I>(prog: seq<Item<I>>, n: nat)
    requires n < |prog| && prog[n].Place?
    requires forall j, k :: 0 <= j < k < |prog| && prog[j].Place? && prog[k].Place? ==> prog[j].lab != prog[k].lab
    ensures !PlacedIn(prog[..n], prog[n].lab)
  {
  }

  /** What one compute step does to offset and labels. */
  lemma ComputeStep<I>(enc: Encoder<I>, item: Item<I>, s: AsmState)
    requires s.pass.Compute? && Step(enc, item, s).Running?
    ensures var t := Step(enc, item, s).s;
      && t.pass.Compute? && t.off >= s.off && |t.labels| == |s.labels|
      && (forall l :: 0 <= l < |s.labels| ==>
            t.labels[l] == s.labels[l] || (s.labels[l] == UNASSIGNED && t.labels[l] == s.off))
  {
  }

  /** The compute pass only moves forward, and a label keeps its offset: the
      state after `n` items is below the final one. */
  lemma {:induction false} ComputePrefix<I>(enc: Encoder<I>, prog: seq<Item<I>>, numLabels: nat, n: nat)
    requires n <= |prog|
    requires Run(enc, prog, StartCompute(numLabels)).Running?
    ensures Run(enc, prog[..n], StartCompute(numLabels)).Running?
    ensures
      var mid := Run(enc, prog[..n], StartCompute(numLabels)).s;
      var end := Run(enc, prog, StartCompute(numLabels)).s;
      && mid.pass.Compute? && end.pass.Compute? && mid.off <= end.off
      && |mid.labels| == |end.labels| == numLabels
      && (forall l :: 0 <= l < numLabels ==>
            mid.labels[l] == end.labels[l] || (mid.labels[l] == UNASSIGNED && end.labels[l] >= mid.off))
    decreases |prog|
  {
    if n == |prog| {
      assert prog[..n] == prog;
      if n > 0 {
        var front := prog[..n - 1];
        ComputePrefix(enc, front, numLabels, n - 1);
        assert front[..n - 1] == front;
        ComputeStep(enc, prog[n - 1], Run(enc, front, StartCompute(numLabels)).s);
      }
    } else {
      var front := prog[..|prog| - 1];
      ComputePrefix(enc, front, numLabels, n);
      assert front[..n] == prog[..n];
      ComputeStep(enc, prog[|prog| - 1], Run(enc, front, StartCompute(numLabels)).s);
    }
  }

  /** The compute pass at item `n`, next to its neighbour `n + 1`. */
  lemma RunNext<I>(enc: Encoder<I>, prog: seq<Item<I>>, s: AsmState, n: nat)
    requires n < |prog|
    ensures Run(enc, prog[..n + 1], s) ==
            match Run(enc, prog[..n], s)
            case Running(t) => Step(enc, prog[n], t)
            case AssertFailed => AssertFailed
            case MethodTooBig => MethodTooBig
  {
    assert prog[..n + 1][..n] == prog[..n];
  }

  /** A run that stopped stays stopped. */
  lemma {:induction false} FailureIsFinal<I>(enc: Encoder<I>, prog: seq<Item<I>>, s: AsmState, n: nat)
    requires n <= |prog| && !Run(enc, prog[..n], s).Running?
    ensures Run(enc, prog, s) == Run(enc, prog[..n], s)
    decreases |prog|
  {
    if n == |prog| {
      assert prog[..n] == prog;
    } else {
      assert prog[..|prog| - 1][..n] == prog[..n];
      FailureIsFinal(enc, prog[..|prog| - 1], s, n);
    }
  }

  /** The two passes agree: after any number of items the emit pass is at the
      compute pass's offset with the compute pass's labels, and no assert has
      fired (unless it stopped with "native method too big"). */
  lemma {:induction false} PassesAgree<I(!new)>(
      enc: Encoder<I>, prog: seq<Item<I>>, numLabels: nat, mem: seq<Byte>, n: nat)
    requires WellFormed(prog, numLabels) && ForwardStable(enc) && n <= |prog|
    requires Run(enc, prog, StartCompute(numLabels)).Running?
    requires |mem| == Run(enc, prog, StartCompute(numLabels)).s.off
    ensures Run(enc, prog[..n], StartCompute(numLabels)).Running?
    ensures
      var c := Run(enc, prog, StartCompute(numLabels)).s;
      var e := Run(enc, prog[..n], StartEmit(c, mem));
      && !e.AssertFailed?
      && (e.Running? ==>
            && e.s.pass.Emit? && e.s.labels == c.labels && |e.s.code| == |mem|
            && e.s.off == Run(enc, prog[..n], StartCompute(numLabels)).s.off)
    decreases n
  {
    hide Step, WellFormed, ForwardStable;
    ComputePrefix(enc, prog, numLabels, n);
    if n == 0 {
      return;
    }
    PassesAgree(enc, prog, numLabels, mem, n - 1);
    ComputePrefix(enc, prog, numLabels, n - 1);
    var c := Run(enc, prog, StartCompute(numLabels)).s;
    RunNext(enc, prog, StartCompute(numLabels), n - 1);
    RunNext(enc, prog, StartEmit(c, mem), n - 1);
    var mid := Run(enc, prog[..n - 1], StartCompute(numLabels)).s;
    var e := Run(enc, prog[..n - 1], StartEmit(c, mem));
    if e.Running? {
      StepsAgree(enc, prog[n - 1], mid, Run(enc, prog[..n], StartCompute(numLabels)).s, c, e.s);
    }
  }

  /** One item of `PassesAgree`: `mid` to `next` is the compute step, `end` the
      final compute state, `e` the emit state before the item. */
  lemma StepsAgree<I(!new)>(enc: Encoder<I>, item: Item<I>, mid: AsmState, next: AsmState, end: AsmState, e: AsmState)
    requires ForwardStable(enc)
    requires mid.pass.Compute? && Step(enc, item, mid) == Running(next)
    requires |mid.labels| == |next.labels| == |end.labels| && next.off <= end.off
    requires forall l :: 0 <= l < |next.labels| ==>
      next.labels[l] == end.labels[l] || (next.labels[l] == UNASSIGNED && end.labels[l] >= next.off)
    requires forall l :: 0 <= l < |mid.labels| ==>
      mid.labels[l] == end.labels[l] || mid.labels[l] == UNASSIGNED
    requires e.pass.Emit? && e.labels == end.labels && e.off == mid.off && |e.code| == end.off
    ensures var r := Step(enc, item, e);
      && !r.AssertFailed?
      && (r.Running? ==> r.s.pass.Emit? && r.s.labels == end.labels && |r.s.code| == |e.code| && r.s.off == next.off)
  {
    match item
    case Place(lab) =>
      assert next.labels[lab] == mid.off;
    case Plain(_) =>
    case Branch(insn, lab) =>
      assert next.labels == mid.labels;
    case Align(_) =>
  }

  /** The emission of an instruction item at state `s`. */
  function EmissionOf<I>(enc: Encoder<I>, item: Item<I>, s: AsmState): Emission
    requires item.Plain? || (item.Branch? && item.lab < |s.labels|)
  {
    enc(item.insn, s.off, if item.Plain? then UNASSIGNED else s.labels[item.lab])
  }

  /** Everything below the current offset is final. */
  lemma EmitStepFrame<I>(enc: Encoder<I>, item: Item<I>, s: AsmState)
    requires s.pass.Emit? && s.off <= |s.code| && Step(enc, item, s).Running?
    ensures var t := Step(enc, item, s).s;
      && t.pass.Emit? && t.off >= s.off && |t.code| == |s.code| && t.labels == s.labels
      && t.code[..s.off] == s.code[..s.off]
  {
  }

  /** Each instruction's bytes are in the finished code at the offset where the
      emit pass met the instruction. */
  lemma EmittedBytes<I>(enc: Encoder<I>, prog: seq<Item<I>>, start: AsmState, n: nat)
    requires start.pass.Emit? && n < |prog|
    requires Run(enc, prog, start).Running?
    requires Run(enc, prog, start).s.off <= |start.code|
    requires Run(enc, prog[..n], start).Running?
    requires var t := Run(enc, prog[..n], start).s;
      prog[n].Plain? || (prog[n].Branch? && prog[n].lab < |t.labels|)
    ensures
      var t := Run(enc, prog[..n], start).s;
      var end := Run(enc, prog, start).s;
      && EmissionOf(enc, prog[n], t).Bytes?
      && (var bs := EmissionOf(enc, prog[n], t).bytes;
          t.off + |bs| <= end.off && |end.code| == |start.code|
          && end.code[t.off..t.off + |bs|] == bs)
  {
    RunNext(enc, prog, start, n);
    EmitPrefix(enc, prog, start, n);
    EmitPrefix(enc, prog, start, n + 1);
    StepWrites(enc, prog[n], Run(enc, prog[..n], start).s);
    EmitKeeps(enc, prog, start, n + 1);
    var t := Run(enc, prog[..n], start).s;
    var u := Run(enc, prog[..n + 1], start).s;
    SliceKept(u.code, Run(enc, prog, start).s.code, u.off, t.off, u.off);
  }

  /** What was written after `n` items is still there at the end. */
  lemma {:induction false} EmitKeeps<I>(enc: Encoder<I>, prog: seq<Item<I>>, start: AsmState, n: nat)
    requires start.pass.Emit? && n <= |prog|
    requires Run(enc, prog, start).Running?
    requires Run(enc, prog, start).s.off <= |start.code|
    requires Run(enc, prog[..n], start).Running?
    ensures
      var mid := Run(enc, prog[..n], start).s;
      var end := Run(enc, prog, start).s;
      mid.off <= |mid.code| == |end.code| && end.code[..mid.off] == mid.code[..mid.off]
    decreases |prog|
  {
    hide Step;
    EmitPrefix(enc, prog, start, n);
    if n == |prog| {
      assert prog[..n] == prog;
    } else {
      var last := |prog| - 1;
      EmitPrefix(enc, prog, start, last);
      assert prog[..last][..n] == prog[..n];
      EmitKeeps(enc, prog[..last], start, n);
      var t := Run(enc, prog[..last], start).s;
      EmitStepFrame(enc, prog[last], t);
      var mid := Run(enc, prog[..n], start).s;
      EmitPrefix(enc, prog[..last], start, n);
      SliceKept(t.code, Run(enc, prog, start).s.code, t.off, 0, mid.off);
    }
  }

  lemma StepWrites<I>(enc: Encoder<I>, item: Item<I>, s: AsmState)
    requires s.pass.Emit? && Step(enc, item, s).Running?
    requires item.Plain? || (item.Branch? && item.lab < |s.labels|)
    ensures EmissionOf(enc, item, s).Bytes?
    ensures var bs := EmissionOf(enc, item, s).bytes;
            var t := Step(enc, item, s).s;
            t.off == s.off + |bs| <= |t.code| == |s.code| && t.code[s.off..t.off] == bs
  {
  }

  lemma SliceKept<T>(a: seq<T>, b: seq<T>, limit: nat, lo: nat, hi: nat)
    requires lo <= hi <= limit <= |a| && limit <= |b|
    requires a[..limit] == b[..limit]
    ensures a[lo..hi] == b[lo..hi]
  {
  }

  /** A run that fits never left the buffer earlier. */
  lemma {:induction false} EmitPrefix<I>(enc: Encoder<I>, prog: seq<Item<I>>, start: AsmState, n: nat)
    requires start.pass.Emit? && n <= |prog|
    requires Run(enc, prog, start).Running?
    requires Run(enc, prog, start).s.off <= |start.code|
    ensures Run(enc, prog[..n], start).Running?
    ensures
      var mid := Run(enc, prog[..n], start).s;
      var end := Run(enc, prog, start).s;
      && mid.pass.Emit? && end.pass.Emit? && mid.off <= end.off && |mid.code| == |end.code| == |start.code|
      && mid.labels == end.labels == start.labels
    decreases |prog|
  {
    if n == |prog| {
      assert prog[..n] == prog;
    }
    if prog != [] {
      var front := prog[..|prog| - 1];
      assert Run(enc, front, start).Running?;
      EmitOffsetGrows(enc, prog[|prog| - 1], Run(enc, front, start).s);
      if n == |prog| {
        EmitPrefix(enc, front, start, n - 1);
        assert front[..n - 1] == front;
      } else {
        EmitPrefix(enc, front, start, n);
        assert front[..n] == prog[..n];
      }
    }
  }

  lemma EmitOffsetGrows<I>(enc: Encoder<I>, item: Item<I>, s: AsmState)
    requires Step(enc, item, s).Running?
    ensures Step(enc, item, s).s.off >= s.off && Step(enc, item, s).s.pass == s.pass
    ensures s.pass.Emit? && s.off <= |s.code| ==>
      Step(enc, item, s).s.labels == s.labels && |Step(enc, item, s).s.code| == |s.code|
  {
  }

  /** Both passes finish. */
  ghost predicate Assembles<I>(enc: Encoder<I>, prog: seq<Item<I>>, numLabels: nat, mem: seq<Byte>) {
    var c := Run(enc, prog, StartCompute(numLabels));
    c.Running? && |mem| == c.s.off && Run(enc, prog, StartEmit(c.s, mem)).Running?
  }

  /** The code left by the emit pass. */
  ghost function CodeOf<I>(enc: Encoder<I>, prog: seq<Item<I>>, numLabels: nat, mem: seq<Byte>): seq<Byte>
    requires Assembles(enc, prog, numLabels, mem)
  {
    Run(enc, prog, StartEmit(Run(enc, prog, StartCompute(numLabels)).s, mem)).s.code
  }

  /** Offset of item `n` in the compute pass. */
  ghost function OffsetOf<I>(enc: Encoder<I>, prog: seq<Item<I>>, numLabels: nat, n: nat): nat
    requires n <= |prog| && Run(enc, prog, StartCompute(numLabels)).Running?
  {
    ComputePrefix(enc, prog, numLabels, n);
    Run(enc, prog[..n], StartCompute(numLabels)).s.off
  }

  /** A label takes no room and an alignment only what it needs. */
  lemma RoomOf<I>(enc: Encoder<I>, prog: seq<Item<I>>, numLabels: nat, n: nat)
    requires n < |prog| && Run(enc, prog, StartCompute(numLabels)).Running?
    ensures OffsetOf(enc, prog, numLabels, 0) == 0
    ensures prog[n].Place? ==> OffsetOf(enc, prog, numLabels, n + 1) == OffsetOf(enc, prog, numLabels, n)
    ensures prog[n].Align? ==>
      OffsetOf(enc, prog, numLabels, n + 1) == AlignUp(OffsetOf(enc, prog, numLabels, n), prog[n].boundary)
  {
    hide AlignUp;
    assert prog[..0] == [];
    ComputePrefix(enc, prog, numLabels, n);
    ComputePrefix(enc, prog, numLabels, n + 1);
    RunNext(enc, prog, StartCompute(numLabels), n);
  }

  /** The emit pass reaches item `n` at the compute pass's offset. */
  lemma EmitOffset<I(!new)>(enc: Encoder<I>, prog: seq<Item<I>>, numLabels: nat, mem: seq<Byte>, n: nat)
    requires WellFormed(prog, numLabels) && ForwardStable(enc) && n <= |prog|
    requires Assembles(enc, prog, numLabels, mem)
    ensures
      var c := Run(enc, prog, StartCompute(numLabels)).s;
      var e := Run(enc, prog[..n], StartEmit(c, mem));
      && e.Running? && e.s.pass.Emit? && e.s.off == OffsetOf(enc, prog, numLabels, n)
      && e.s.labels == c.labels && |c.labels| == numLabels
      && OffsetOf(enc, prog, numLabels, n) <= OffsetOf(enc, prog, numLabels, |prog|) == |mem|
  {
    PassesAgree(enc, prog, numLabels, mem, n);
    PassesAgree(enc, prog, numLabels, mem, |prog|);
    ComputePrefix(enc, prog, numLabels, n);
    assert prog[..|prog|] == prog;
    var c := Run(enc, prog, StartCompute(numLabels)).s;
    EmitPrefix(enc, prog, StartEmit(c, mem), n);
  }

  /** A placed label's recorded offset is the offset of its place. */
  lemma LabelOffset<I>(enc: Encoder<I>, prog: seq<Item<I>>, numLabels: nat, p: nat)
    requires p < |prog| && prog[p].Place? && Run(enc, prog, StartCompute(numLabels)).Running?
    ensures var c := Run(enc, prog, StartCompute(numLabels)).s;
      && prog[p].lab < numLabels == |c.labels| && c.labels[prog[p].lab] == OffsetOf(enc, prog, numLabels, p)
  {
    ComputePrefix(enc, prog, numLabels, p);
    ComputePrefix(enc, prog, numLabels, p + 1);
    RunNext(enc, prog, StartCompute(numLabels), p);
  }

  /** The finished code holds, at an instruction's offset, what the emit pass
      generated there, and the next item follows directly. */
  lemma ItemBytes<I(!new)>(enc: Encoder<I>, prog: seq<Item<I>>, numLabels: nat, mem: seq<Byte>, n: nat)
    requires WellFormed(prog, numLabels) && ForwardStable(enc) && n < |prog| && (prog[n].Plain? || prog[n].Branch?)
    requires Assembles(enc, prog, numLabels, mem)
    ensures
      var c := Run(enc, prog, StartCompute(numLabels)).s;
      var off := OffsetOf(enc, prog, numLabels, n);
      var code := CodeOf(enc, prog, numLabels, mem);
      && (prog[n].Branch? ==> prog[n].lab < |c.labels|)
      && var e := enc(prog[n].insn, off, if prog[n].Plain? then UNASSIGNED else c.labels[prog[n].lab]);
         && e.Bytes? && off + |e.bytes| == OffsetOf(enc, prog, numLabels, n + 1) <= |code|
         && code[off..off + |e.bytes|] == e.bytes
  {
    var start := StartEmit(Run(enc, prog, StartCompute(numLabels)).s, mem);
    hide Run, Step, OffsetOf;
    EmitOffset(enc, prog, numLabels, mem, n);
    EmitOffset(enc, prog, numLabels, mem, n + 1);
    EmitOffset(enc, prog, numLabels, mem, |prog|);
    assert prog[..|prog|] == prog;
    RunNext(enc, prog, start, n);
    EmittedBytes(enc, prog, start, n);
    StepWrites(enc, prog[n], Run(enc, prog[..n], start).s);
  }

  /** In the case of a branch that is the emission for the true distance to its
      label. */
  lemma BranchBytes<I(!new)>(enc: Encoder<I>, prog: seq<Item<I>>, numLabels: nat, mem: seq<Byte>, n: nat, p: nat)
    requires WellFormed(prog, numLabels) && ForwardStable(enc) && n < |prog| && p < |prog|
    requires prog[n].Branch? && prog[p] == Place(prog[n].lab)
    requires Assembles(enc, prog, numLabels, mem)
    ensures
      var off := OffsetOf(enc, prog, numLabels, n);
      var e := enc(prog[n].insn, off, OffsetOf(enc, prog, numLabels, p));
      var code := CodeOf(enc, prog, numLabels, mem);
      && e.Bytes? && off + |e.bytes| == OffsetOf(enc, prog, numLabels, n + 1) <= |code|
      && code[off..off + |e.bytes|] == e.bytes
  {
    hide Run, OffsetOf, CodeOf;
    LabelOffset(enc, prog, numLabels, p);
    ItemBytes(enc, prog, numLabels, mem, n);
  }

  /** mp_asm_base_t with its methods.  `code_size` is the length of `codeBase`. */
  class Assembler {
    var pass: Pass
    var codeOffset: nat
    var codeBase: array<Byte>
    const labelOffsets: array<int>

    ghost predicate Valid()
      reads this
    {
      codeBase as object != labelOffsets as object
    }

    function State(): AsmState
      reads this, codeBase, labelOffsets
    {
      AsmState(pass, codeOffset, codeBase[..], labelOffsets[..])
    }

    /** mp_asm_base_init; memory is allocated but no pass has started. */
    constructor (maxNumLabels: nat)
      ensures Valid() && fresh(codeBase) && fresh(labelOffsets)
      ensures labelOffsets.Length == maxNumLabels
    {
      labelOffsets := new int[maxNumLabels];
      codeBase := new Byte[0];
      codeOffset := 0;
      pass := Compute;
    }

    method StartComputePass()
      requires Valid()
      modifies this, labelOffsets
      ensures Valid() && fresh(codeBase)
      ensures State() == StartCompute(labelOffsets.Length)
    {
      codeBase := new Byte[0];
      for i := 0 to labelOffsets.Length
        modifies labelOffsets
        invariant forall k :: 0 <= k < i ==> labelOffsets[k] == UNASSIGNED
      {
        labelOffsets[i] := UNASSIGNED;
      }
      pass := Compute;
      codeOffset := 0;
      assert labelOffsets[..] == seq(labelOffsets.Length, _ => UNASSIGNED);
    }

    method StartEmitPass()
      requires Valid()
      modifies this
      ensures Valid() && fresh(codeBase)
      ensures codeBase.Length == old(codeOffset)
      ensures State() == StartEmit(old(State()), codeBase[..])
    {
      codeBase := new Byte[codeOffset];
      pass := Emit;
      codeOffset := 0;
    }

    /** Claim room for `bs` and store it; `ok` is false where the C asserts. */
    method WriteBytes(bs: seq<Byte>) returns (ok: bool)
      requires Valid()
      modifies this`codeOffset, codeBase
      ensures Valid()
      ensures if ok then Write(old(State()), bs) == Running(State())
              else Write(old(State()), bs).AssertFailed?
    {
      if pass.Emit? {
        if codeOffset + |bs| > codeBase.Length {
          return false;
        }
        Store(bs);
      }
      codeOffset := codeOffset + |bs|;
      ok := true;
    }

    /** The caller's stores into the claimed room. */
    method Store(bs: seq<Byte>)
      requires codeOffset + |bs| <= codeBase.Length
      modifies codeBase
      ensures codeBase[..] == old(codeBase[..codeOffset]) + bs + old(codeBase[codeOffset + |bs|..])
    {
      ghost var before, o := codeBase[..], codeOffset;
      assert before == before[..o] + bs[..0] + before[o..];
      for i := 0 to |bs|
        invariant codeBase[..] == before[..o] + bs[..i] + before[o + i..]
      {
        ghost var was := codeBase[..];
        codeBase[codeOffset + i] := bs[i];
        assert codeBase[..] == was[o + i := bs[i]];
        StoredNext(before, bs, o, i);
      }
      assert bs[..|bs|] == bs;
    }

    method LabelAssign(lab: nat) returns (ok: bool)
      requires Valid()
      modifies labelOffsets
      ensures Valid()
      ensures if ok then AssignLabel(old(State()), lab) == Running(State())
              else AssignLabel(old(State()), lab).AssertFailed?
    {
      if lab >= labelOffsets.Length {
        return false;
      }
      if pass.Compute? {
        if labelOffsets[lab] != UNASSIGNED {
          return false;
        }
        labelOffsets[lab] := codeOffset;
      } else if labelOffsets[lab] != codeOffset {
        return false;
      }
      ok := true;
    }

    method AlignTo(boundary: Boundary)
      requires Valid()
      modifies this`codeOffset
      ensures Valid()
      ensures State() == old(State()).(off := AlignUp(old(codeOffset), boundary))
    {
      codeOffset := AlignUp(codeOffset, boundary);
    }
  }
}
