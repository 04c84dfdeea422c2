/** The Thumb assembler object of py/asmthumb.c and whole programs assembled
    with it. */
module ThumbAssembler {
  import opened AsmBase
  import opened Bits
  import opened Bytes
  import opened ThumbCpu
  import opened AsmThumb
  import opened ThumbConstants

  type Program = seq<Item<Insn>>

  /** Everything a Thumb program is made of has even size. */
  ghost predicate EvenItem(item: Item<Insn>) {
    match item
    case Place(_) => true
    case Plain(insn) => insn.MovConst? || (insn.Raw? && |insn.bytes| % 2 == 0)
    case Branch(insn, _) => insn.B? || insn.Bcc? || insn.MovPcrel?
    case Align(boundary) => boundary % 2 == 0
  }

  ghost predicate ThumbProgram(prog: Program, numLabels: nat) {
    WellFormed(prog, numLabels) && forall k :: 0 <= k < |prog| ==> EvenItem(prog[k])
  }

  lemma MovConstEven(rd: Lo, i: Int32, off: nat)
    ensures |EncMovConst(rd, i, off)| % 2 == 0
  {
    hide Clz, Ctz;
  }

  lemma EncodeEven(item: Item<Insn>, off: nat, dest: int)
    requires EvenItem(item) && (item.Plain? || item.Branch?)
    ensures |Encode(item.insn, off, dest).bytes| % 2 == 0
  {
    match item.insn
    case Raw(_) =>
    case MovConst(rd, value) => MovConstEven(rd, value, off);
    case B =>
    case Bcc(_) =>
    case MovPcrel(_) =>
  }

  /** Every item of a Thumb program starts at an even offset, in either pass. */
  lemma {:induction false} EvenOffsets(prog: Program, s: AsmState)
    requires s.off % 2 == 0 && (forall k :: 0 <= k < |prog| ==> EvenItem(prog[k]))
    ensures Run(Encode, prog, s).Running? ==> Run(Encode, prog, s).s.off % 2 == 0
  {
    if prog != [] {
      var last := |prog| - 1;
      EvenOffsets(prog[..last], s);
      var r := Run(Encode, prog[..last], s);
      if r.Running? {
        StepEven(prog[last], r.s);
      }
    }
  }

  lemma StepEven(item: Item<Insn>, s: AsmState)
    requires s.off % 2 == 0 && EvenItem(item)
    ensures Step(Encode, item, s).Running? ==> Step(Encode, item, s).s.off % 2 == 0
  {
    hide Encode;
    match item
    case Plain(insn) => EncodeEven(item, s.off, UNASSIGNED);
    case Branch(insn, lab) => if lab < |s.labels| { EncodeEven(item, s.off, s.labels[lab]); }
    case Place(_) =>
    case Align(_) =>
  }

  /** Code that leaves `w` in `rd` whatever was there. */
  ghost predicate Loads(code: seq<Byte>, off: nat, len: nat, rd: Lo, w: Word) {
    forall x: Word :: Maps(code, off, len, rd, x, w)
  }

  /** What executing a label reference at `off` must do. */
  ghost predicate Lands(insn: Insn, code: seq<Byte>, off: nat, dest: nat, next: nat) {
    match insn
    case B => next == off + 2 && forall s: Cpu :: |s.r| == 8 && s.pc == off ==> Reaches(code, s, s.(pc := dest))
    case Bcc(cond) =>
      && next == off + (if -0x100 <= dest - off - 4 <= -4 then 2 else 4)
      && forall s: Cpu :: |s.r| == 8 && s.pc == off ==>
           Reaches(code, s, s.(pc := if CondHolds(cond, s.flags) then dest else next))
    case MovPcrel(rd) =>
      && next == off + 10 && Loads(code, off, 10, rd, PcrelValue(off, dest + 1 - off - 12))
      && (-0x8000 <= dest + 1 - off - 12 < 0x8000 <==> PcrelValue(off, dest + 1 - off - 12) == dest + 1)
    case _ => true
  }

  lemma EncodeLands(insn: Insn, code: seq<Byte>, off: nat, dest: nat)
    requires insn.B? || insn.Bcc? || insn.MovPcrel?
    requires off % 2 == 0 && dest % 2 == 0 && off < TWO31 - 16 && dest < TWO31 - 16
    requires Encode(insn, off, dest).Bytes? && CodeAt(code, off, Encode(insn, off, dest).bytes)
    ensures Lands(insn, code, off, dest, off + |Encode(insn, off, dest).bytes|)
  {
    hide Reaches, Maps, StepCpu, CodeAt, EncBcc, EncB, CondHolds;
    match insn
    case B =>
      forall s: Cpu | |s.r| == 8 && s.pc == off ensures Reaches(code, s, s.(pc := dest)) {
        BLands(code, off, dest, s);
        ReachesSelf(code, s.(pc := dest));
        ReachesStep(code, s, s.(pc := dest), s.(pc := dest));
      }
    case Bcc(cond) =>
      forall s: Cpu | |s.r| == 8 && s.pc == off
        ensures Reaches(code, s,
          s.(pc := if CondHolds(cond, s.flags) then dest else off + |EncBcc(cond, off, dest).bytes|))
      {
        BccLands(cond, code, off, dest, s);
      }
      BccSize(cond, off, dest);
    case MovPcrel(rd) =>
      PcrelExact(off, dest);
      hide PcrelValue;
      var w := PcrelValue(off, dest + 1 - off - 12);
      forall x: Word ensures Maps(code, off, 10, rd, x, w) {
        MovPcrelMaps(code, off, rd, dest, x);
      }
  }

  /** What an item without a label fills from `off` to `next`. */
  ghost predicate Fills(item: Item<Insn>, code: seq<Byte>, off: nat, next: nat) {
    match item
    case Place(_) => next == off
    case Align(boundary) => next == AlignUp(off, boundary)
    case Plain(Raw(bs)) => next == off + |bs| <= |code| && code[off..next] == bs
    case _ => true
  }

  /** The items stand in `code` one after the other, and nothing follows. */
  ghost predicate LaidOut(prog: Program, numLabels: nat, code: seq<Byte>)
    requires Run(Encode, prog, StartCompute(numLabels)).Running?
  {
    && OffsetOf(Encode, prog, numLabels, 0) == 0 && OffsetOf(Encode, prog, numLabels, |prog|) == |code|
    && forall n :: 0 <= n < |prog| ==>
         Fills(prog[n], code, OffsetOf(Encode, prog, numLabels, n), OffsetOf(Encode, prog, numLabels, n + 1))
  }

  lemma EmittedLaidOut(prog: Program, numLabels: nat, mem: seq<Byte>)
    requires WellFormed(prog, numLabels) && Assembles(Encode, prog, numLabels, mem)
    ensures LaidOut(prog, numLabels, CodeOf(Encode, prog, numLabels, mem))
  {
    hide AlignUp, WellFormed, OffsetOf, ForwardStable, Run;
    EncodeForwardStable();
    var code := CodeOf(Encode, prog, numLabels, mem);
    EmitOffset(Encode, prog, numLabels, mem, |prog|);
    assert prog[..|prog|] == prog;
    PassesAgree(Encode, prog, numLabels, mem, |prog|);
    FirstOffset(prog, numLabels);
    forall n | 0 <= n < |prog|
      ensures Fills(prog[n], code, OffsetOf(Encode, prog, numLabels, n), OffsetOf(Encode, prog, numLabels, n + 1))
    {
      RoomOf(Encode, prog, numLabels, n);
      if prog[n].Plain? {
        ItemBytes(Encode, prog, numLabels, mem, n);
      }
    }
  }

  lemma FirstOffset(prog: Program, numLabels: nat)
    requires Run(Encode, prog, StartCompute(numLabels)).Running?
    ensures OffsetOf(Encode, prog, numLabels, 0) == 0
  {
    assert prog[..0] == [];
  }

  /** Every label reference in `code` reaches the place of its label. */
  ghost predicate BranchesLand(prog: Program, numLabels: nat, code: seq<Byte>)
    requires Run(Encode, prog, StartCompute(numLabels)).Running?
  {
    forall n, p :: 0 <= n < |prog| && 0 <= p < |prog| && prog[n].Branch? && prog[p] == Place(prog[n].lab) ==>
      Lands(prog[n].insn, code, OffsetOf(Encode, prog, numLabels, n),
            OffsetOf(Encode, prog, numLabels, p), OffsetOf(Encode, prog, numLabels, n + 1))
  }

  /** In the finished code of every Thumb program, executing a branch, a
      conditional branch or an address load reaches the label. */
  lemma EmittedBranchesLand(prog: Program, numLabels: nat, mem: seq<Byte>)
    requires ThumbProgram(prog, numLabels)
    requires Assembles(Encode, prog, numLabels, mem) && |mem| < TWO31 - 16
    ensures BranchesLand(prog, numLabels, CodeOf(Encode, prog, numLabels, mem))
  {
    hide Lands, Encode, Run, OffsetOf, CodeOf;
    var code := CodeOf(Encode, prog, numLabels, mem);
    forall n, p | 0 <= n < |prog| && 0 <= p < |prog| && prog[n].Branch? && prog[p] == Place(prog[n].lab)
      ensures Lands(prog[n].insn, code, OffsetOf(Encode, prog, numLabels, n),
                    OffsetOf(Encode, prog, numLabels, p), OffsetOf(Encode, prog, numLabels, n + 1))
    {
      OneBranchLands(prog, numLabels, mem, n, p);
    }
  }

  lemma OneBranchLands(prog: Program, numLabels: nat, mem: seq<Byte>, n: nat, p: nat)
    requires ThumbProgram(prog, numLabels) && n < |prog| && p < |prog|
    requires prog[n].Branch? && prog[p] == Place(prog[n].lab)
    requires Assembles(Encode, prog, numLabels, mem) && |mem| < TWO31 - 16
    ensures Lands(prog[n].insn, CodeOf(Encode, prog, numLabels, mem), OffsetOf(Encode, prog, numLabels, n),
                  OffsetOf(Encode, prog, numLabels, p), OffsetOf(Encode, prog, numLabels, n + 1))
  {
    hide Lands, Encode, Run, CodeOf;
    EncodeForwardStable();
    BranchBytes(Encode, prog, numLabels, mem, n, p);
    EmitOffset(Encode, prog, numLabels, mem, n);
    EmitOffset(Encode, prog, numLabels, mem, p);
    ComputePrefix(Encode, prog, numLabels, n);
    ComputePrefix(Encode, prog, numLabels, p);
    EvenOffsets(prog[..n], StartCompute(numLabels));
    EvenOffsets(prog[..p], StartCompute(numLabels));
    assert EvenItem(prog[n]);
    EncodeLands(prog[n].insn, CodeOf(Encode, prog, numLabels, mem),
                OffsetOf(Encode, prog, numLabels, n), OffsetOf(Encode, prog, numLabels, p));
  }

  /** Every constant load in `code` leaves its constant. */
  ghost predicate ConstantsLoad(prog: Program, numLabels: nat, code: seq<Byte>)
    requires Run(Encode, prog, StartCompute(numLabels)).Running?
  {
    forall n :: 0 <= n < |prog| && prog[n].Plain? && prog[n].insn.MovConst? ==>
      LoadsAt(prog[n].insn, code, OffsetOf(Encode, prog, numLabels, n), OffsetOf(Encode, prog, numLabels, n + 1))
  }

  ghost predicate LoadsAt(insn: Insn, code: seq<Byte>, off: nat, next: nat)
    requires insn.MovConst?
  {
    off <= next && Loads(code, off, next - off, insn.rd, Unsigned(insn.value))
  }

  /** In the finished code of every Thumb program, executing a constant load
      leaves the constant in its register. */
  lemma EmittedConstantsLoad(prog: Program, numLabels: nat, mem: seq<Byte>)
    requires ThumbProgram(prog, numLabels) && Assembles(Encode, prog, numLabels, mem)
    ensures ConstantsLoad(prog, numLabels, CodeOf(Encode, prog, numLabels, mem))
  {
    hide LoadsAt, Run, OffsetOf, CodeOf, ThumbProgram;
    forall n | 0 <= n < |prog| && prog[n].Plain? && prog[n].insn.MovConst?
      ensures LoadsAt(prog[n].insn, CodeOf(Encode, prog, numLabels, mem),
        OffsetOf(Encode, prog, numLabels, n), OffsetOf(Encode, prog, numLabels, n + 1))
    {
      OneConstantLoads(prog, numLabels, mem, n);
    }
  }

  lemma OneConstantLoads(prog: Program, numLabels: nat, mem: seq<Byte>, n: nat)
    requires ThumbProgram(prog, numLabels) && n < |prog| && prog[n].Plain? && prog[n].insn.MovConst?
    requires Assembles(Encode, prog, numLabels, mem)
    ensures LoadsAt(prog[n].insn, CodeOf(Encode, prog, numLabels, mem),
      OffsetOf(Encode, prog, numLabels, n), OffsetOf(Encode, prog, numLabels, n + 1))
  {
    hide Run, CodeOf, EncMovConst, Maps, Unsigned;
    EncodeForwardStable();
    ItemBytes(Encode, prog, numLabels, mem, n);
    ComputePrefix(Encode, prog, numLabels, n);
    EvenOffsets(prog[..n], StartCompute(numLabels));
    var insn, off := prog[n].insn, OffsetOf(Encode, prog, numLabels, n);
    hide OffsetOf;
    forall x: Word
      ensures Maps(CodeOf(Encode, prog, numLabels, mem), off, |EncMovConst(insn.rd, insn.value, off)|, insn.rd, x,
        Unsigned(insn.value))
    {
      MovConstMaps(CodeOf(Encode, prog, numLabels, mem), off, insn.rd, insn.value, x);
    }
  }

  // ----- Which programs are refused

  /** The 32-bit mp_int_t that holds `x`. */
  function Signed32(x: int): int {
    (x + TWO31) % TWO32 - TWO31
  }

  /** The displacement of a branch at `from`, and of the branch two bytes into
      a long conditional one, is a signed 12-bit number.  A label near enough
      for the short conditional form is in reach of the long one too. */
  ghost predicate InReach(insn: Insn, from: nat, to: int) {
    match insn
    case B => -0x800 <= Signed32(to - from - 4) < 0x800
    case Bcc(_) => -0x800 <= Signed32(to - (from + 2) - 4) < 0x800
    case _ => true
  }

  lemma EncodesInReach(insn: Insn, off: nat, dest: int)
    requires dest != UNASSIGNED
    ensures Encode(insn, off, dest).Bytes? <==> InReach(insn, off, dest)
  {
    hide BranchOp, CondBranchOp, Op16, EncMovConst, EncMovPcrel, SignedFit9, SignedFit12, Signed32;
    Fit12Signed(dest - off - 4);
    Fit12Signed(dest - (off + 2) - 4);
    Fit9Within(dest - off - 4);
  }

  lemma Fit12Signed(x: int)
    ensures SignedFit12(x) <==> -0x800 <= Signed32(x) < 0x800
  {
  }

  lemma Fit9Within(x: int)
    ensures SignedFit9(x) ==> SignedFit12(x - 2)
  {
  }

  lemma UnplacedEncodes(insn: Insn, off: nat)
    ensures Encode(insn, off, UNASSIGNED).Bytes?
  {
    hide BranchOp, CondBranchOp, Op16, EncMovConst, EncMovPcrel;
  }

  /** Every label of the program is in reach of every reference to it. */
  ghost predicate AllInReach(prog: Program, numLabels: nat)
    requires Run(Encode, prog, StartCompute(numLabels)).Running?
  {
    forall n, p :: 0 <= n < |prog| && 0 <= p < |prog| && prog[n].Branch? && prog[p] == Place(prog[n].lab) ==>
      InReach(prog[n].insn, OffsetOf(Encode, prog, numLabels, n), OffsetOf(Encode, prog, numLabels, p))
  }

  /** Item `n`, if the compute pass gets there, has in reach what was placed
      before it. */
  ghost predicate BackInReach(prog: Program, numLabels: nat, n: nat)
    requires n < |prog|
  {
    prog[n].Branch? && Run(Encode, prog[..n], StartCompute(numLabels)).Running? ==>
      forall p :: 0 <= p < n && prog[p] == Place(prog[n].lab) ==>
        InReach(prog[n].insn, OffsetOf(Encode, prog[..n], numLabels, n), OffsetOf(Encode, prog[..n], numLabels, p))
  }

  /** The compute pass gets past item `n` exactly if it is in reach of the
      label behind it; a label still to come never stops it. */
  lemma ComputePasses(prog: Program, numLabels: nat, n: nat)
    requires WellFormed(prog, numLabels) && n < |prog|
    requires Run(Encode, prog[..n], StartCompute(numLabels)).Running?
    ensures Run(Encode, prog[..n + 1], StartCompute(numLabels)).Running? <==> BackInReach(prog, numLabels, n)
  {
    hide Encode, InReach, Run, WellFormed, StartCompute;
    var front := prog[..n];
    var s := Run(Encode, front, StartCompute(numLabels)).s;
    FrontWellFormed(prog, numLabels, n);
    FrontWellFormed(prog, numLabels, n + 1);
    ComputeNeverAsserts(Encode, front, numLabels);
    ComputeNeverAsserts(Encode, prog[..n + 1], numLabels);
    RunNext(Encode, prog, StartCompute(numLabels), n);
    assert front[..n] == front;
    match prog[n]
    case Place(_) =>
    case Align(_) =>
    case Plain(insn) => UnplacedEncodes(insn, s.off);
    case Branch(insn, lab) =>
      LabelSeen(prog, numLabels, n);
      if s.labels[lab] == UNASSIGNED {
        UnplacedEncodes(insn, s.off);
      } else {
        EncodesInReach(insn, s.off, s.labels[lab]);
      }
  }

  /** What a reference after the items `prog[..n]` finds recorded. */
  lemma LabelSeen(prog: Program, numLabels: nat, n: nat)
    requires WellFormed(prog, numLabels) && n < |prog| && prog[n].Branch?
    requires Run(Encode, prog[..n], StartCompute(numLabels)).Running?
    ensures var s := Run(Encode, prog[..n], StartCompute(numLabels)).s;
      && prog[n].lab < numLabels == |s.labels|
      && (s.labels[prog[n].lab] == UNASSIGNED || s.labels[prog[n].lab] >= 0)
      && (s.labels[prog[n].lab] == UNASSIGNED <==> !PlacedIn(prog[..n], prog[n].lab))
      && (forall p :: 0 <= p < n && prog[p] == Place(prog[n].lab) ==>
            s.labels[prog[n].lab] == OffsetOf(Encode, prog[..n], numLabels, p))
  {
    var front := prog[..n];
    FrontWellFormed(prog, numLabels, n);
    ComputeNeverAsserts(Encode, front, numLabels);
    hide Run, OffsetOf;
    forall p | 0 <= p < n && prog[p] == Place(prog[n].lab)
      ensures Run(Encode, front, StartCompute(numLabels)).s.labels[prog[n].lab] == OffsetOf(Encode, front, numLabels, p)
    {
      LabelOffset(Encode, front, numLabels, p);
    }
  }

  lemma {:induction false} ComputeReaches(prog: Program, numLabels: nat, n: nat)
    requires WellFormed(prog, numLabels) && n <= |prog|
    requires forall k :: 0 <= k < n ==> BackInReach(prog, numLabels, k)
    ensures Run(Encode, prog[..n], StartCompute(numLabels)).Running?
  {
    hide BackInReach, WellFormed;
    if n > 0 {
      ComputeReaches(prog, numLabels, n - 1);
      ComputePasses(prog, numLabels, n - 1);
    }
  }

  /** The compute pass finishes exactly if every branch is in reach of the
      label behind it. */
  lemma ComputeRuns(prog: Program, numLabels: nat)
    requires WellFormed(prog, numLabels)
    ensures Run(Encode, prog, StartCompute(numLabels)).Running? <==>
            (forall n :: 0 <= n < |prog| ==> BackInReach(prog, numLabels, n))
  {
    hide BackInReach, WellFormed, Run;
    assert prog[..|prog|] == prog;
    if Run(Encode, prog, StartCompute(numLabels)).Running? {
      forall n | 0 <= n < |prog| ensures BackInReach(prog, numLabels, n) {
        ComputePrefix(Encode, prog, numLabels, n);
        ComputePrefix(Encode, prog, numLabels, n + 1);
        ComputePasses(prog, numLabels, n);
      }
    } else if forall n :: 0 <= n < |prog| ==> BackInReach(prog, numLabels, n) {
      ComputeReaches(prog, numLabels, |prog|);
    }
  }

  /** With every label in reach the emit pass is stopped nowhere. */
  lemma {:induction false} EmitReaches(prog: Program, numLabels: nat, mem: seq<Byte>, n: nat)
    requires WellFormed(prog, numLabels) && n <= |prog| && ForwardStable(Encode)
    requires Run(Encode, prog, StartCompute(numLabels)).Running? && AllInReach(prog, numLabels)
    requires |mem| == Run(Encode, prog, StartCompute(numLabels)).s.off
    ensures Run(Encode, prog[..n], StartEmit(Run(Encode, prog, StartCompute(numLabels)).s, mem)).Running?
  {
    hide Encode, InReach, WellFormed, StartCompute, ForwardStable, AllInReach, Step;
    if n > 0 {
      var c := Run(Encode, prog, StartCompute(numLabels)).s;
      EmitReaches(prog, numLabels, mem, n - 1);
      PassesAgree(Encode, prog, numLabels, mem, n - 1);
      PassesAgree(Encode, prog, numLabels, mem, n);
      RunNext(Encode, prog, StartEmit(c, mem), n - 1);
      EncodesHere(prog, numLabels, n - 1);
      NotTooBig(prog[n - 1], Run(Encode, prog[..n - 1], StartEmit(c, mem)).s);
    }
  }

  lemma NotTooBig(item: Item<Insn>, s: AsmState)
    requires item.Plain? ==> Encode(item.insn, s.off, UNASSIGNED).Bytes?
    requires item.Branch? ==> item.lab < |s.labels| && Encode(item.insn, s.off, s.labels[item.lab]).Bytes?
    ensures !Step(Encode, item, s).MethodTooBig?
  {
    hide Encode;
  }

  /** Item `n` as the emit pass meets it. */
  lemma EncodesHere(prog: Program, numLabels: nat, n: nat)
    requires WellFormed(prog, numLabels) && n < |prog|
    requires Run(Encode, prog, StartCompute(numLabels)).Running? && AllInReach(prog, numLabels)
    ensures var c := Run(Encode, prog, StartCompute(numLabels)).s;
      var off := OffsetOf(Encode, prog, numLabels, n);
      && (prog[n].Plain? ==> Encode(prog[n].insn, off, UNASSIGNED).Bytes?)
      && (prog[n].Branch? ==> prog[n].lab < |c.labels| && Encode(prog[n].insn, off, c.labels[prog[n].lab]).Bytes?)
  {
    var c := Run(Encode, prog, StartCompute(numLabels)).s;
    ComputeNeverAsserts(Encode, prog, numLabels);
    hide Encode, InReach, Run, OffsetOf;
    var off := OffsetOf(Encode, prog, numLabels, n);
    if prog[n].Plain? {
      UnplacedEncodes(prog[n].insn, off);
    } else if prog[n].Branch? {
      var lab := prog[n].lab;
      if PlacedIn(prog, lab) {
        var p :| 0 <= p < |prog| && prog[p] == Place(lab);
        LabelOffset(Encode, prog, numLabels, p);
        EncodesInReach(prog[n].insn, off, OffsetOf(Encode, prog, numLabels, p));
      } else {
        UnplacedEncodes(prog[n].insn, off);
      }
    }
  }

  /** A program that passed the compute pass is assembled exactly if every
      label is in reach of every branch to it. */
  lemma EmitRuns(prog: Program, numLabels: nat, mem: seq<Byte>)
    requires WellFormed(prog, numLabels)
    requires Run(Encode, prog, StartCompute(numLabels)).Running?
    requires |mem| == Run(Encode, prog, StartCompute(numLabels)).s.off
    ensures Assembles(Encode, prog, numLabels, mem) <==> AllInReach(prog, numLabels)
  {
    hide Encode, InReach, WellFormed, Run, OffsetOf, CodeOf, ForwardStable;
    EncodeForwardStable();
    assert prog[..|prog|] == prog;
    if Assembles(Encode, prog, numLabels, mem) {
      forall n, p | 0 <= n < |prog| && 0 <= p < |prog| && prog[n].Branch? && prog[p] == Place(prog[n].lab)
        ensures InReach(prog[n].insn, OffsetOf(Encode, prog, numLabels, n), OffsetOf(Encode, prog, numLabels, p))
      {
        BranchBytes(Encode, prog, numLabels, mem, n, p);
        EncodesInReach(prog[n].insn, OffsetOf(Encode, prog, numLabels, n), OffsetOf(Encode, prog, numLabels, p));
      }
    } else if AllInReach(prog, numLabels) {
      EmitReaches(prog, numLabels, mem, |prog|);
    }
  }

  // ----- An address load that does not reach

  /** A load of the address of a label 36 KiB further on. */
  function FarProgram(): Program {
    [Branch(MovPcrel(0), 0), Plain(Raw(seq(0x9000, i => 0))), Place(0)]
  }

  lemma FarAssembles(mem: seq<Byte>)
    requires |mem| == 0x900a
    ensures ThumbProgram(FarProgram(), 1) && Assembles(Encode, FarProgram(), 1, mem)
    ensures OffsetOf(Encode, FarProgram(), 1, 2) == 0x900a
  {
    var prog := FarProgram();
    FarShape();
    FarSteps();
    hide FarProgram, Run, Encode;
    EmitRuns(prog, 1, mem);
  }

  lemma FarShape()
    ensures var prog := FarProgram();
      && ThumbProgram(prog, 1) && |prog| == 3
      && (forall k :: 0 <= k < |prog| ==> prog[k].Branch? ==> prog[k].insn.MovPcrel?)
  {
  }

  lemma FarSteps()
    ensures var prog := FarProgram();
      && Run(Encode, prog[..2], StartCompute(1)).Running? && Run(Encode, prog[..2], StartCompute(1)).s.off == 0x900a
      && Run(Encode, prog, StartCompute(1)).Running? && Run(Encode, prog, StartCompute(1)).s.off == 0x900a
  {
    var prog, s0 := FarProgram(), StartCompute(1);
    assert prog[..0] == [] && Run(Encode, prog[..0], s0) == Running(s0);
    assert s0.off == 0 && s0.labels == [UNASSIGNED] && prog[..3] == prog;
    hide Run;
    RunNext(Encode, prog, s0, 0);
    RunNext(Encode, prog, s0, 1);
    RunNext(Encode, prog, s0, 2);
  }

  /** It assembles, and loads another word than the label's address. */
  lemma PcrelFails(mem: seq<Byte>) returns (w: Word)
    requires |mem| == 0x900a
    ensures ThumbProgram(FarProgram(), 1) && Assembles(Encode, FarProgram(), 1, mem)
    ensures Loads(CodeOf(Encode, FarProgram(), 1, mem), 0, 10, 0, w)
    ensures w != OffsetOf(Encode, FarProgram(), 1, 2) + 1
  {
    FarAssembles(mem);
    var prog := FarProgram();
    assert prog[0] == Branch(MovPcrel(0), 0) && prog[2] == Place(0);
    hide FarProgram;
    OneBranchLands(prog, 1, mem, 0, 2);
    FirstOffset(prog, 1);
    PcrelExact(0, 0x900a);
    hide Loads, Run, CodeOf, PcrelValue;
    assert Lands(MovPcrel(0), CodeOf(Encode, prog, 1, mem), 0, 0x900a, OffsetOf(Encode, prog, 1, 1));
    w := PcrelValue(0, 0x900a + 1 - 0 - 12);
    assert Loads(CodeOf(Encode, prog, 1, mem), 0, 10, 0, w);
  }

  // ----- The assembler object

  datatype Status = Done | AssertAbort | NotImplemented

  /** `st` and `s` report the outcome `r`. */
  ghost predicate Matches(r: Outcome, st: Status, s: AsmState) {
    match st
    case Done => r == Running(s)
    case AssertAbort => r.AssertFailed?
    case NotImplemented => r.MethodTooBig?
  }

  /** asm_thumb_t. */
  class Thumb {
    const base: Assembler
    var pushReglist: Byte
    var stackAdjust: nat

    constructor (maxNumLabels: nat)
      ensures base.Valid() && fresh(base) && fresh(base.codeBase) && fresh(base.labelOffsets)
      ensures base.labelOffsets.Length == maxNumLabels && pushReglist == 0 && stackAdjust == 0
    {
      base := new Assembler(maxNumLabels);
      pushReglist, stackAdjust := 0, 0;
    }

    /** asm_thumb_op16. */
    method EmitOp(h: Op) returns (st: Status)
      requires base.Valid()
      modifies base`codeOffset, base.codeBase
      ensures base.Valid()
      ensures Matches(Write(old(base.State()), Op16(h)), st, base.State())
    {
      var ok := base.WriteBytes(Op16(h));
      st := if ok then Done else AssertAbort;
    }

    /** asm_thumb_mov_rlo_i16. */
    method MovRloI16(rd: Lo, i16: int) returns (st: Status)
      requires base.Valid()
      modifies base`codeOffset, base.codeBase
      ensures base.Valid()
      ensures Matches(Write(old(base.State()), EncMovI16(rd, i16)), st, base.State())
    {
      hide Write, MovOp, LslOp, AddOp, Op16;
      var a, b, c := MovOp(rd, i16 / 0x100 % 0x100), LslOp(rd, rd, 8), AddOp(rd, i16 % 0x100);
      WriteTwice(base.State(), Op16(a), Op16(b));
      WriteTwice(base.State(), Op16(a) + Op16(b), Op16(c));
      st := EmitOp(a);
      if st.Done? {
        st := EmitOp(b);
        if st.Done? {
          st := EmitOp(c);
        }
      }
    }

    /** The load, the branch and the literal of asm_thumb_mov_reg_i32. */
    method EmitLiteral(rd: Lo, w: Word) returns (st: Status)
      requires base.Valid()
      modifies base`codeOffset, base.codeBase
      ensures base.Valid()
      ensures Matches(Write(old(base.State()), EncLiteral(rd, w)), st, base.State())
    {
      hide Write, LdrLiteralOp, BranchOp, Op16;
      var a, b, c, d := LdrLiteralOp(rd, 0), BranchOp(2), w % 0x1_0000, w / 0x1_0000;
      WriteTwice(base.State(), Op16(a), Op16(b));
      WriteTwice(base.State(), Op16(a) + Op16(b), Op16(c));
      WriteTwice(base.State(), Op16(a) + Op16(b) + Op16(c), Op16(d));
      st := EmitOp(a);
      if st.Done? {
        st := EmitOp(b);
        if st.Done? {
          st := EmitOp(c);
          if st.Done? {
            st := EmitOp(d);
          }
        }
      }
    }

    /** asm_thumb_mov_reg_i32. */
    method MovRegI32(rd: Lo, w: Word) returns (st: Status)
      requires base.Valid()
      modifies base`codeOffset, base.codeBase
      ensures base.Valid()
      ensures Matches(Write(old(base.State()), EncMovI32(rd, w, old(base.codeOffset))), st, base.State())
    {
      hide Write, EncLiteral, Op16;
      if base.codeOffset / 2 % 2 == 1 {
        WriteTwice(base.State(), Op16(NOP), EncLiteral(rd, w));
        st := EmitOp(NOP);
        if !st.Done? {
          return;
        }
      } else {
        assert [] + EncLiteral(rd, w) == EncLiteral(rd, w);
      }
      st := EmitLiteral(rd, w);
    }

    /** asm_thumb_mov_reg_i32_optimised. */
    method MovRegI32Optimised(rd: Lo, value: Int32) returns (st: Status)
      requires base.Valid()
      modifies base`codeOffset, base.codeBase
      ensures base.Valid()
      ensures Matches(Write(old(base.State()), EncMovConst(rd, value, old(base.codeOffset))), st, base.State())
    {
      hide Write, EncMovI16, EncMovI32, EncShifted, Op16, MovOp, NegOp, LslOp, Clz, Ctz;
      if 0 <= value < 0x100 {
        st := EmitOp(MovOp(rd, value));
        return;
      }
      var i32: int := value;
      // the doubling test spares 0x80000000
      var negate := i32 < 0 && (i32 + i32) % TWO32 != 0;
      if negate {
        i32 := -i32;
      }
      assert i32 == Magnitude(value) && (negate <==> i32 != value);
      var clz, ctz := Clz(Unsigned(i32)), Ctz(Unsigned(i32));
      CtzBound(Unsigned(i32));
      if clz + ctz >= 24 {
        WriteTwice(base.State(), EncShifted(rd, i32, ctz), Op16(NegOp(rd, rd)));
        assert EncShifted(rd, i32, ctz) + [] == EncShifted(rd, i32, ctz);
        st := EmitShifted(rd, i32, ctz);
      } else if 0 <= i32 < 0x1_0000 {
        WriteTwice(base.State(), EncMovI16(rd, i32), Op16(NegOp(rd, rd)));
        assert EncMovI16(rd, i32) + [] == EncMovI16(rd, i32);
        st := MovRloI16(rd, i32);
      } else {
        if negate {
          negate := false;
          i32 := -i32;
        }
        st := MovRegI32(rd, Unsigned(i32));
        return;
      }
      if st.Done? && negate {
        st := EmitOp(NegOp(rd, rd));
      }
    }

    method EmitShifted(rd: Lo, m: Int32, shift: nat) returns (st: Status)
      requires base.Valid() && shift < 32
      modifies base`codeOffset, base.codeBase
      ensures base.Valid()
      ensures Matches(Write(old(base.State()), EncShifted(rd, m, shift)), st, base.State())
    {
      hide Write, Op16, MovOp, LslOp;
      var a, b := MovOp(rd, m / Pow2(shift) % 0x100), LslOp(rd, rd, shift);
      WriteTwice(base.State(), Op16(a), Op16(b));
      st := EmitOp(a);
      if st.Done? {
        st := EmitOp(b);
      }
    }

    /** asm_thumb_b_label. */
    method BLabel(lab: nat) returns (st: Status)
      requires base.Valid()
      modifies base`codeOffset, base.codeBase
      ensures base.Valid()
      ensures lab >= base.labelOffsets.Length ==> st == AssertAbort
      ensures lab < base.labelOffsets.Length ==>
        Matches(WriteEmission(old(base.State()), EncB(old(base.codeOffset), base.labelOffsets[lab])), st, base.State())
      ensures lab < base.labelOffsets.Length && st.NotImplemented? ==>
        base.labelOffsets[lab] != UNASSIGNED && !InReach(B, old(base.codeOffset), base.labelOffsets[lab])
      ensures lab < base.labelOffsets.Length && st.Done? ==>
        base.labelOffsets[lab] == UNASSIGNED || InReach(B, old(base.codeOffset), base.labelOffsets[lab])
    {
      if lab >= base.labelOffsets.Length {
        return AssertAbort;
      }
      hide Write, BranchOp, Op16, SignedFit12, InReach;
      var dest := base.labelOffsets[lab];
      if dest != UNASSIGNED {
        EncodesInReach(B, base.codeOffset, dest);
      }
      var rel := dest - base.codeOffset;
      rel := rel - 4;
      if dest != UNASSIGNED && rel <= -4 {
        if SignedFit12(rel) {
          st := EmitOp(BranchOp(rel));
          return;
        }
      }
      if SignedFit12(rel) {
        st := EmitOp(BranchOp(rel));
      } else {
        st := EmitOp(NOP);
        if st.Done? && dest != UNASSIGNED {
          st := NotImplemented;
        }
      }
    }

    /** asm_thumb_bcc_label. */
    method BccLabel(cond: Cond, lab: nat) returns (st: Status)
      requires base.Valid()
      modifies base`codeOffset, base.codeBase
      ensures base.Valid()
      ensures lab >= base.labelOffsets.Length ==> st == AssertAbort
      ensures lab < base.labelOffsets.Length ==>
        Matches(WriteEmission(old(base.State()), EncBcc(cond, old(base.codeOffset), base.labelOffsets[lab])),
                st, base.State())
      ensures lab < base.labelOffsets.Length && st.NotImplemented? ==>
        base.labelOffsets[lab] != UNASSIGNED && !InReach(Bcc(cond), old(base.codeOffset), base.labelOffsets[lab])
      ensures lab < base.labelOffsets.Length && st.Done? ==>
        base.labelOffsets[lab] == UNASSIGNED || InReach(Bcc(cond), old(base.codeOffset), base.labelOffsets[lab])
    {
      hide CondBranchOp, Op16, SignedFit9, SignedFit12, EncB, Write, WriteEmission, Assembler.Valid, Assembler.State,
        InReach;
      if lab >= base.labelOffsets.Length {
        return AssertAbort;
      }
      StateNow();
      var dest := base.labelOffsets[lab];
      var rel := dest - base.codeOffset;
      rel := rel - 4;
      ghost var start := base.State();
      if dest != UNASSIGNED {
        EncodesInReach(Bcc(cond), base.codeOffset, dest);
      }
      EmissionStatus(start, EncBcc(cond, base.codeOffset, dest));
      if dest != UNASSIGNED && rel <= -4 {
        if SignedFit9(rel) {
          WriteOne(start, Op16(CondBranchOp(cond, rel)));
          st := EmitOp(CondBranchOp(cond, rel));
          return;
        }
      }
      LongForm(start, CondBranchOp(Inverse(cond), 0), EncB(base.codeOffset + 2, dest));
      st := EmitOp(CondBranchOp(Inverse(cond), 0));
      if st.Done? {
        StateNow();
        st := BLabel(lab);
      }
    }

    lemma StateNow()
      ensures base.State().off == base.codeOffset && base.State().labels == base.labelOffsets[..]
    {
    }

    method EmitAddress(rd: Lo, rel: int) returns (st: Status)
      requires base.Valid()
      modifies base`codeOffset, base.codeBase
      ensures base.Valid()
      ensures Matches(Write(old(base.State()), EncMovI16(rd, rel) + Op16(SxthOp(rd, rd)) + Op16(AddPcOp(rd))),
                      st, base.State())
    {
      hide Write, EncMovI16, Op16, SxthOp, AddPcOp;
      var a, b := SxthOp(rd, rd), AddPcOp(rd);
      WriteTwice(base.State(), EncMovI16(rd, rel), Op16(a));
      WriteTwice(base.State(), EncMovI16(rd, rel) + Op16(a), Op16(b));
      st := MovRloI16(rd, rel);
      if st.Done? {
        st := EmitOp(a);
        if st.Done? {
          st := EmitOp(b);
        }
      }
    }

    /** asm_thumb_mov_reg_pcrel. */
    method MovRegPcrel(rd: Lo, lab: nat) returns (st: Status)
      requires base.Valid()
      modifies base`codeOffset, base.codeBase
      ensures base.Valid()
      ensures lab >= base.labelOffsets.Length ==> st == AssertAbort
      ensures lab < base.labelOffsets.Length ==>
        Matches(Write(old(base.State()), EncMovPcrel(rd, old(base.codeOffset), base.labelOffsets[lab])),
                st, base.State())
    {
      hide Write, EncMovI16, Op16, SxthOp, AddPcOp, SetBit0, Assembler.Valid, Assembler.State;
      if lab >= base.labelOffsets.Length {
        return AssertAbort;
      }
      var dest := base.labelOffsets[lab];
      var rel := dest - base.codeOffset;
      rel := SetBit0(rel);
      rel := rel - (8 + 4);
      st := EmitAddress(rd, rel);
    }

    /** The loop that moves the stack pointer by up to 127 words at a time. */
    method AdjustSp(up: bool, words: nat) returns (st: Status)
      requires base.Valid()
      modifies base`codeOffset, base.codeBase
      ensures base.Valid()
      ensures Matches(Write(old(base.State()), AdjustOps(up, words)), st, base.State())
    {
      hide Write, AdjustOp, Op16;
      ghost var start := base.State();
      var adj: int := words;
      while adj >= 0x80
        invariant 0 <= adj && base.Valid()
        invariant Write(base.State(), AdjustOps(up, adj)) == Write(start, AdjustOps(up, words))
      {
        WriteTwice(base.State(), Op16(AdjustOp(up, 127)), AdjustOps(up, adj - 127));
        st := EmitOp(AdjustOp(up, 127));
        if !st.Done? {
          return;
        }
        adj := adj - 127;
      }
      st := EmitOp(AdjustOp(up, adj));
    }

    /** asm_thumb_entry. */
    method Entry(numLocals: nat) returns (st: Status)
      requires base.Valid()
      modifies this, base`codeOffset, base.codeBase
      ensures base.Valid()
      ensures Matches(Write(old(base.State()), EncEntry(numLocals)), st, base.State())
      ensures st.Done? ==> pushReglist == RegList(numLocals) && stackAdjust == StackAdjust(numLocals)
    {
      hide Write, PushOp, Op16, AdjustOps;
      var reglist: Byte, adjust: nat;
      if numLocals == 0 || numLocals == 1 {
        reglist, adjust := 0xf2, 0;
      } else if numLocals == 2 || numLocals == 3 {
        reglist, adjust := 0xfe, 0;
      } else {
        reglist, adjust := 0xfe, (numLocals - 3 + 1) / 2 * 2;
      }
      WriteTwice(base.State(), Op16(PushOp(reglist)), AdjustOps(false, adjust));
      assert Op16(PushOp(reglist)) + [] == Op16(PushOp(reglist));
      st := EmitOp(PushOp(reglist));
      if st.Done? && adjust > 0 {
        st := AdjustSp(false, adjust);
      }
      pushReglist, stackAdjust := reglist, adjust;
    }

    /** asm_thumb_exit. */
    method Exit() returns (st: Status)
      requires base.Valid()
      modifies base`codeOffset, base.codeBase
      ensures base.Valid()
      ensures Matches(Write(old(base.State()), EncExit(pushReglist, stackAdjust)), st, base.State())
    {
      hide Write, PopOp, Op16, AdjustOps;
      if stackAdjust > 0 {
        WriteTwice(base.State(), AdjustOps(true, stackAdjust), Op16(PopOp(pushReglist)));
        st := AdjustSp(true, stackAdjust);
        if !st.Done? {
          return;
        }
      } else {
        assert [] + Op16(PopOp(pushReglist)) == Op16(PopOp(pushReglist));
      }
      st := EmitOp(PopOp(pushReglist));
    }

    /** One item of a program. */
    method EmitItem(item: Item<Insn>) returns (st: Status)
      requires base.Valid() && EvenItem(item)
      modifies base`codeOffset, base.codeBase, base.labelOffsets
      ensures base.Valid()
      ensures Matches(Step(Encode, item, old(base.State())), st, base.State())
    {
      hide Write, AssignLabel, EncMovConst, EncB, EncBcc, EncMovPcrel;
      match item {
        case Place(lab) =>
          var ok := base.LabelAssign(lab);
          st := if ok then Done else AssertAbort;
        case Plain(insn) =>
          match insn {
            case Raw(bs) =>
              var ok := base.WriteBytes(bs);
              st := if ok then Done else AssertAbort;
            case MovConst(rd, value) => st := MovRegI32Optimised(rd, value);
          }
        case Branch(insn, lab) =>
          match insn {
            case B => st := BLabel(lab);
            case Bcc(cond) => st := BccLabel(cond, lab);
            case MovPcrel(rd) => st := MovRegPcrel(rd, lab);
          }
        case Align(boundary) =>
          base.AlignTo(boundary);
          st := Done;
      }
    }

    /** One pass of the emitter over a program. */
    method EmitAll(prog: Program) returns (st: Status)
      requires base.Valid() && (forall k :: 0 <= k < |prog| ==> EvenItem(prog[k]))
      modifies base`codeOffset, base.codeBase, base.labelOffsets
      ensures base.Valid()
      ensures Matches(Run(Encode, prog, old(base.State())), st, base.State())
    {
      hide Step, Encode, EvenItem;
      ghost var start := base.State();
      for i := 0 to |prog|
        invariant base.Valid()
        invariant Run(Encode, prog[..i], start) == Running(base.State())
      {
        RunNext(Encode, prog, start, i);
        st := EmitItem(prog[i]);
        if !st.Done? {
          FailureIsFinal(Encode, prog, start, i + 1);
          return;
        }
      }
      assert prog[..|prog|] == prog;
      st := Done;
    }

    /** The compute pass and the emit pass.  No assert fires for any Thumb
        program: it is refused as too big, or the memory is filled exactly and
        every label reference in it reaches its label. */
    method Assemble(prog: Program) returns (st: Status)
      requires base.Valid() && ThumbProgram(prog, base.labelOffsets.Length)
      modifies base, base.labelOffsets
      ensures st != AssertAbort && base.Valid()
      ensures Run(Encode, prog, StartCompute(base.labelOffsets.Length)).Running? <==>
              (forall n :: 0 <= n < |prog| ==> BackInReach(prog, base.labelOffsets.Length, n))
      ensures st.Done? <==>
        && Run(Encode, prog, StartCompute(base.labelOffsets.Length)).Running?
        && AllInReach(prog, base.labelOffsets.Length)
      ensures st.Done? ==>
        && base.codeOffset == base.codeBase.Length
        && LaidOut(prog, base.labelOffsets.Length, base.codeBase[..])
        && ConstantsLoad(prog, base.labelOffsets.Length, base.codeBase[..])
        && (base.codeBase.Length < TWO31 - 16 ==>
              BranchesLand(prog, base.labelOffsets.Length, base.codeBase[..]))
    {
      hide Run, Encode, BranchesLand, ConstantsLoad, LaidOut, EvenItem, AllInReach, BackInReach, ForwardStable,
        WellFormed;
      ghost var numLabels := base.labelOffsets.Length;
      ComputeNeverAsserts(Encode, prog, numLabels);
      ComputeRuns(prog, numLabels);
      base.StartComputePass();
      st := EmitAll(prog);
      if !st.Done? {
        return;
      }
      base.StartEmitPass();
      ghost var mem := base.codeBase[..];
      EncodeForwardStable();
      PassesAgree(Encode, prog, numLabels, mem, |prog|);
      assert prog[..|prog|] == prog;
      EmitRuns(prog, numLabels, mem);
      st := EmitAll(prog);
      if st.Done? {
        EmitOffset(Encode, prog, numLabels, mem, |prog|);
        EmittedLaidOut(prog, numLabels, mem);
        EmittedConstantsLoad(prog, numLabels, mem);
        if base.codeBase.Length < TWO31 - 16 {
          EmittedBranchesLand(prog, numLabels, mem);
        }
      }
    }
  }

  lemma EmissionStatus(s: AsmState, e: Emission)
    ensures WriteEmission(s, e).MethodTooBig? ==> e.TooBig?
    ensures WriteEmission(s, e).Running? ==> e.Bytes?
  {
  }

  lemma WriteOne(s: AsmState, bs: seq<Byte>)
    ensures WriteEmission(s, Bytes(bs)) == Write(s, bs)
  {
  }

  /** An emission behind one instruction. */
  lemma LongForm(s: AsmState, h: Op, e: Emission)
    ensures var whole := match e case TooBig(bs) => TooBig(Op16(h) + bs) case Bytes(bs) => Bytes(Op16(h) + bs);
      match Write(s, Op16(h))
      case Running(t) => t.off == s.off + 2 && t.labels == s.labels && WriteEmission(s, whole) == WriteEmission(t, e)
      case _ => WriteEmission(s, whole).AssertFailed?
  {
  }
}
