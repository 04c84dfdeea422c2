/** Label-dependent code generation of py/asmx64.c, with the decoder of the
    Intel SDM volume 2A as an independent reading of the bytes. */
module AsmX64 {
  import opened AsmBase
  import opened Bytes

  type Cc = c: nat | c < 16
  type Reg = r: nat | r < 16

  const TWO32: int := 0x1_0000_0000
  const TWO31: int := 0x8000_0000

  /** `Raw` stands for every generator whose bytes depend neither on a label
      nor on the pass. */
  datatype Insn = Raw(bytes: seq<Byte>) | Jmp | Jcc(cc: Cc) | LeaPcrel(reg: Reg)

  /** The macro SIGNED_FIT8: it looks at the low 32 bits only. */
  predicate SignedFit8(x: int) {
    var u := x % TWO32;
    u < 0x80 || u >= 0xffff_ff80
  }

  /** The four bytes stored by asm_x64_write_word32. */
  function Word32(w: int): (bs: seq<Byte>)
    ensures |bs| == 4
  {
    var u := w % TWO32;
    var u1 := u / 0x100;
    var u2 := u1 / 0x100;
    [u % 0x100, u1 % 0x100, u2 % 0x100, u2 / 0x100]
  }

  function EncJmp(off: nat, dest: int): (bs: seq<Byte>) {
    var rel := dest - off;
    if dest != UNASSIGNED && rel < 0 && SignedFit8(rel - 2) then
      [0xeb, (rel - 2) % 0x100]
    else
      [0xe9] + Word32(rel - 5)
  }

  function EncJcc(cc: Cc, off: nat, dest: int): (bs: seq<Byte>) {
    var rel := dest - off;
    if dest != UNASSIGNED && rel < 0 && SignedFit8(rel - 2) then
      [0x70 + cc, (rel - 2) % 0x100]
    else
      [0x0f, 0x80 + cc] + Word32(rel - 6)
  }

  function EncLeaPcrel(reg: Reg, off: nat, dest: int): (bs: seq<Byte>) {
    [0x48 + reg / 8 * 4, 0x8d, reg % 8 * 8 + 5] + Word32(dest - (off + 7))
  }

  function Encode(insn: Insn, off: nat, dest: int): Emission {
    match insn
    case Raw(bs) => Bytes(bs)
    case Jmp => Bytes(EncJmp(off, dest))
    case Jcc(cc) => Bytes(EncJcc(cc, off, dest))
    case LeaPcrel(reg) => Bytes(EncLeaPcrel(reg, off, dest))
  }

  lemma EncodeForwardStable()
    ensures ForwardStable(Encode)
  {
  }

  // ----- The processor's reading of the bytes

  datatype Flow =
    | Goto(target: int)
    | GotoIf(cc: Cc, target: int, next: int)
    | Address(reg: Reg, value: int, next: int)
    | Other

  function SignExtend8(b: Byte): int {
    if b < 0x80 then b else b - 0x100
  }

  function ReadInt32(code: seq<Byte>, at: nat): int
    requires at + 4 <= |code|
  {
    var u: int :=
      code[at] as int + code[at + 1] as int * 0x100 + code[at + 2] as int * 0x1_0000 + code[at + 3] as int * 0x100_0000;
    if u < TWO31 then u else u - TWO32
  }

  /** The instruction at `at`: relative displacements count from its end. */
  function Decode(code: seq<Byte>, at: nat): Flow {
    if at + 2 > |code| then Other
    else if code[at] == 0xeb then
      Goto(at + 2 + SignExtend8(code[at + 1]))
    else if 0x70 <= code[at] < 0x80 then
      GotoIf(code[at] - 0x70, at + 2 + SignExtend8(code[at + 1]), at + 2)
    else if code[at] == 0xe9 && at + 5 <= |code| then
      Goto(at + 5 + ReadInt32(code, at + 1))
    else if code[at] == 0x0f && 0x80 <= code[at + 1] < 0x90 && at + 6 <= |code| then
      GotoIf(code[at + 1] - 0x80, at + 6 + ReadInt32(code, at + 2), at + 6)
    else if (code[at] == 0x48 || code[at] == 0x4c) && code[at + 1] == 0x8d && at + 7 <= |code|
         && code[at + 2] / 0x40 == 0 && code[at + 2] % 8 == 5 then
      // REX.W(+R) LEA r64, [rip + disp32]
      Address((code[at] - 0x48) / 4 * 8 + code[at + 2] / 8 % 8, at + 7 + ReadInt32(code, at + 3), at + 7)
    else
      Other
  }

  function Intended(insn: Insn, target: int, next: int): Flow {
    match insn
    case Raw(_) => Other
    case Jmp => Goto(target)
    case Jcc(cc) => GotoIf(cc, target, next)
    case LeaPcrel(reg) => Address(reg, target, next)
  }

  lemma Word32RoundTrip(code: seq<Byte>, at: nat, w: int)
    requires at + 4 <= |code| && code[at..at + 4] == Word32(w)
    requires -TWO31 <= w < TWO31
    ensures ReadInt32(code, at) == w
  {
  }

  lemma ShortFits(rel: int)
    requires -TWO31 <= rel < TWO31
    ensures SignedFit8(rel) <==> -0x80 <= rel < 0x80
  {
  }

  lemma SignExtendFits(rel: int)
    requires -TWO31 <= rel < TWO31 && SignedFit8(rel)
    ensures SignExtend8(rel % 0x100) == rel
  {
  }

  lemma BytesAt(code: seq<Byte>, off: nat, bs: seq<Byte>)
    requires off + |bs| <= |code| && code[off..off + |bs|] == bs
    ensures forall k :: 0 <= k < |bs| ==> code[off + k] == bs[k]
    ensures forall k :: 0 <= k <= |bs| ==> code[off + k..off + |bs|] == bs[k..]
  {
  }

  lemma JmpDecodes(code: seq<Byte>, off: nat, dest: nat)
    requires off < TWO31 - 8 && dest < TWO31 - 8
    requires var bs := EncJmp(off, dest); off + |bs| <= |code| && code[off..off + |bs|] == bs
    ensures Decode(code, off) == Goto(dest)
  {
    var bs := EncJmp(off, dest);
    BytesAt(code, off, bs);
    assert code[off + 0] == bs[0] && code[off + 1] == bs[1];
    if |bs| == 2 {
      SignExtendFits(dest - off - 2);
    } else {
      assert code[off + 1..off + 5] == bs[1..] == Word32(dest - off - 5);
      Word32RoundTrip(code, off + 1, dest - off - 5);
    }
  }

  lemma JccDecodes(cc: Cc, code: seq<Byte>, off: nat, dest: nat)
    requires off < TWO31 - 8 && dest < TWO31 - 8
    requires var bs := EncJcc(cc, off, dest); off + |bs| <= |code| && code[off..off + |bs|] == bs
    ensures Decode(code, off) == GotoIf(cc, dest, off + |EncJcc(cc, off, dest)|)
  {
    var bs := EncJcc(cc, off, dest);
    BytesAt(code, off, bs);
    assert code[off + 0] == bs[0] && code[off + 1] == bs[1];
    if |bs| == 2 {
      SignExtendFits(dest - off - 2);
    } else {
      assert code[off + 2..off + 6] == bs[2..] == Word32(dest - off - 6);
      Word32RoundTrip(code, off + 2, dest - off - 6);
    }
  }

  lemma LeaDecodes(reg: Reg, code: seq<Byte>, off: nat, dest: nat)
    requires off < TWO31 - 8 && dest < TWO31 - 8
    requires var bs := EncLeaPcrel(reg, off, dest); off + |bs| <= |code| && code[off..off + |bs|] == bs
    ensures Decode(code, off) == Address(reg, dest, off + 7)
  {
    hide Word32, ReadInt32;
    var bs := EncLeaPcrel(reg, off, dest);
    BytesAt(code, off, bs);
    assert code[off + 0] == bs[0] && code[off + 1] == bs[1] && code[off + 2] == bs[2];
    assert code[off + 3..off + 7] == bs[3..] == Word32(dest - (off + 7));
    Word32RoundTrip(code, off + 3, dest - (off + 7));
    ModRm(reg);
  }

  /** The register is split over the prefix and the operand byte. */
  lemma ModRm(reg: Reg)
    ensures var rex, modrm := 0x48 + reg / 8 * 4, reg % 8 * 8 + 5;
      && (rex == 0x48 || rex == 0x4c) && modrm / 0x40 == 0 && modrm % 8 == 5
      && (rex - 0x48) / 4 * 8 + modrm / 8 % 8 == reg
  {
  }

  /** What the processor reads at `off`, and how long it is: two bytes for a
      jump back over at most 126. */
  ghost predicate Lands(insn: Insn, code: seq<Byte>, off: nat, dest: nat, next: nat) {
    && Decode(code, off) == Intended(insn, dest, next)
    && (insn.Jmp? ==> next == off + if -126 <= dest - off < 0 then 2 else 5)
    && (insn.Jcc? ==> next == off + if -126 <= dest - off < 0 then 2 else 6)
  }

  /** An encoded label reference decodes to its destination. */
  lemma EncodeDecodes(insn: Insn, code: seq<Byte>, off: nat, dest: nat)
    requires !insn.Raw?
    requires off < TWO31 - 8 && dest < TWO31 - 8
    requires var bs := Encode(insn, off, dest).bytes;
             off + |bs| <= |code| && code[off..off + |bs|] == bs
    ensures Lands(insn, code, off, dest, off + |Encode(insn, off, dest).bytes|)
  {
    hide Decode, SignedFit8, Word32;
    ShortFits(dest - off - 2);
    match insn
    case Jmp => JmpDecodes(code, off, dest);
    case Jcc(cc) => JccDecodes(cc, code, off, dest);
    case LeaPcrel(reg) => LeaDecodes(reg, code, off, dest);
  }

  // ----- Whole programs

  type Program = seq<Item<Insn>>

  /** No x64 generator is ever too big. */
  lemma {:induction false} NeverTooBig(prog: Program, s: AsmState)
    ensures !Run(Encode, prog, s).MethodTooBig?
  {
    if prog != [] {
      NeverTooBig(prog[..|prog| - 1], s);
    }
  }

  /** Both passes of every well-formed program finish: no assert fires. */
  lemma AlwaysAssembles(prog: Program, numLabels: nat, mem: seq<Byte>)
    requires WellFormed(prog, numLabels)
    ensures var c := Run(Encode, prog, StartCompute(numLabels));
            c.Running? && (|mem| == c.s.off ==> Assembles(Encode, prog, numLabels, mem))
  {
    ComputeNeverAsserts(Encode, prog, numLabels);
    NeverTooBig(prog, StartCompute(numLabels));
    var c := Run(Encode, prog, StartCompute(numLabels)).s;
    if |mem| == c.off {
      EncodeForwardStable();
      assert prog[..|prog|] == prog;
      PassesAgree(Encode, prog, numLabels, mem, |prog|);
      NeverTooBig(prog, StartEmit(c, mem));
    }
  }

  /** What an item without a label fills from `off` to `next`. */
  ghost predicate Fills(item: Item<Insn>, code: seq<Byte>, off: nat, next: nat) {
    match item
    case Place(_) => next == off
    case Align(boundary) => next == AlignUp(off, boundary)
    case Plain(Raw(bs)) => next == off + |bs| <= |code| && code[off..next] == bs
    case _ => true
  }

  /** The items stand in `code` one after the other, and nothing follows. */
  ghost predicate LaidOut(prog: Program, numLabels: nat, code: seq<Byte>)
    requires Run(Encode, prog, StartCompute(numLabels)).Running?
  {
    && OffsetOf(Encode, prog, numLabels, 0) == 0 && OffsetOf(Encode, prog, numLabels, |prog|) == |code|
    && forall n :: 0 <= n < |prog| ==>
         Fills(prog[n], code, OffsetOf(Encode, prog, numLabels, n), OffsetOf(Encode, prog, numLabels, n + 1))
  }

  lemma EmittedLaidOut(prog: Program, numLabels: nat, mem: seq<Byte>)
    requires WellFormed(prog, numLabels) && Assembles(Encode, prog, numLabels, mem)
    ensures LaidOut(prog, numLabels, CodeOf(Encode, prog, numLabels, mem))
  {
    hide AlignUp, WellFormed, OffsetOf, ForwardStable, Run;
    EncodeForwardStable();
    var code := CodeOf(Encode, prog, numLabels, mem);
    EmitOffset(Encode, prog, numLabels, mem, |prog|);
    assert prog[..|prog|] == prog;
    PassesAgree(Encode, prog, numLabels, mem, |prog|);
    FirstOffset(prog, numLabels);
    forall n | 0 <= n < |prog|
      ensures Fills(prog[n], code, OffsetOf(Encode, prog, numLabels, n), OffsetOf(Encode, prog, numLabels, n + 1))
    {
      RoomOf(Encode, prog, numLabels, n);
      if prog[n].Plain? {
        ItemBytes(Encode, prog, numLabels, mem, n);
      }
    }
  }

  lemma FirstOffset(prog: Program, numLabels: nat)
    requires Run(Encode, prog, StartCompute(numLabels)).Running?
    ensures OffsetOf(Encode, prog, numLabels, 0) == 0
  {
    assert prog[..0] == [];
  }

  /** `code` holds at every label reference an instruction that reaches the
      place of that label. */
  ghost predicate BranchesLand(prog: Program, numLabels: nat, code: seq<Byte>)
    requires Run(Encode, prog, StartCompute(numLabels)).Running?
  {
    forall n, p :: 0 <= n < |prog| && 0 <= p < |prog| && prog[n].Branch? && !prog[n].insn.Raw?
                   && prog[p] == Place(prog[n].lab) ==>
      Lands(prog[n].insn, code, OffsetOf(Encode, prog, numLabels, n), OffsetOf(Encode, prog, numLabels, p),
            OffsetOf(Encode, prog, numLabels, n + 1))
  }

  /** In the finished code of every well-formed program below 2 GiB, every
      jump and address computation reaches its label. */
  lemma EmittedBranchesLand(prog: Program, numLabels: nat, mem: seq<Byte>)
    requires WellFormed(prog, numLabels)
    requires Assembles(Encode, prog, numLabels, mem) && |mem| < TWO31 - 8
    ensures BranchesLand(prog, numLabels, CodeOf(Encode, prog, numLabels, mem))
  {
    hide Decode, CodeOf, EncJmp, EncJcc, EncLeaPcrel;
    EncodeForwardStable();
    var code := CodeOf(Encode, prog, numLabels, mem);
    forall n, p | 0 <= n < |prog| && 0 <= p < |prog| && prog[n].Branch? && !prog[n].insn.Raw?
                  && prog[p] == Place(prog[n].lab)
      ensures Lands(prog[n].insn, code, OffsetOf(Encode, prog, numLabels, n), OffsetOf(Encode, prog, numLabels, p),
                    OffsetOf(Encode, prog, numLabels, n + 1))
    {
      BranchBytes(Encode, prog, numLabels, mem, n, p);
      EmitOffset(Encode, prog, numLabels, mem, n);
      EmitOffset(Encode, prog, numLabels, mem, p);
      EncodeDecodes(prog[n].insn, code, OffsetOf(Encode, prog, numLabels, n), OffsetOf(Encode, prog, numLabels, p));
    }
  }

  /** `ok` and `s` report the outcome `r`. */
  ghost predicate Matches(r: Outcome, ok: bool, s: AsmState) {
    if ok then r == Running(s) else r.AssertFailed?
  }

  /** asm_x64_t: the base assembler and the label-dependent generators. */
  class X64Assembler {
    const base: Assembler

    constructor (maxNumLabels: nat)
      ensures base.Valid() && fresh(base) && fresh(base.codeBase) && fresh(base.labelOffsets)
      ensures base.labelOffsets.Length == maxNumLabels
    {
      base := new Assembler(maxNumLabels);
    }

    /** Opcode bytes followed by a 32-bit displacement. */
    method WriteWithWord32(opcode: seq<Byte>, w: int) returns (ok: bool)
      requires base.Valid()
      modifies base`codeOffset, base.codeBase
      ensures base.Valid()
      ensures Matches(Write(old(base.State()), opcode + Word32(w)), ok, base.State())
    {
      WriteTwice(base.State(), opcode, Word32(w));
      ok := base.WriteBytes(opcode);
      if ok {
        ok := base.WriteBytes(Word32(w));
      }
    }

    /** asm_x64_jmp_label. */
    method JmpLabel(lab: nat) returns (ok: bool)
      requires base.Valid()
      modifies base`codeOffset, base.codeBase
      ensures base.Valid()
      ensures lab >= base.labelOffsets.Length ==> !ok
      ensures lab < base.labelOffsets.Length ==>
        Matches(Write(old(base.State()), EncJmp(old(base.codeOffset), base.labelOffsets[lab])), ok, base.State())
    {
      hide Write, Word32, SignedFit8, Assembler.Valid, Assembler.State;
      if lab >= base.labelOffsets.Length {
        return false;
      }
      var dest := base.labelOffsets[lab];
      var rel := dest - base.codeOffset;
      if dest != UNASSIGNED && rel < 0 {
        rel := rel - 2;
        if SignedFit8(rel) {
          ok := base.WriteBytes([0xeb, rel % 0x100]);
          return;
        }
        rel := rel + 2;
      }
      rel := rel - 5;
      ok := WriteWithWord32([0xe9], rel);
    }

    /** asm_x64_jcc_label. */
    method JccLabel(cc: Cc, lab: nat) returns (ok: bool)
      requires base.Valid()
      modifies base`codeOffset, base.codeBase
      ensures base.Valid()
      ensures lab >= base.labelOffsets.Length ==> !ok
      ensures lab < base.labelOffsets.Length ==>
        Matches(Write(old(base.State()), EncJcc(cc, old(base.codeOffset), base.labelOffsets[lab])), ok, base.State())
    {
      hide Write, Word32, SignedFit8, Assembler.Valid, Assembler.State;
      if lab >= base.labelOffsets.Length {
        return false;
      }
      var dest := base.labelOffsets[lab];
      var rel := dest - base.codeOffset;
      if dest != UNASSIGNED && rel < 0 {
        rel := rel - 2;
        if SignedFit8(rel) {
          ok := base.WriteBytes([0x70 + cc, rel % 0x100]);
          return;
        }
        rel := rel + 2;
      }
      rel := rel - 6;
      ok := WriteWithWord32([0x0f, 0x80 + cc], rel);
    }

    /** asm_x64_mov_reg_pcrel. */
    method MovRegPcrel(reg: Reg, lab: nat) returns (ok: bool)
      requires base.Valid()
      modifies base`codeOffset, base.codeBase
      ensures base.Valid()
      ensures lab >= base.labelOffsets.Length ==> !ok
      ensures lab < base.labelOffsets.Length ==>
        Matches(Write(old(base.State()), EncLeaPcrel(reg, old(base.codeOffset), base.labelOffsets[lab])),
                ok, base.State())
    {
      hide Write, Word32, Assembler.Valid, Assembler.State;
      if lab >= base.labelOffsets.Length {
        return false;
      }
      var dest := base.labelOffsets[lab];
      var rel := dest - (base.codeOffset + 7);
      ok := WriteWithWord32([0x48 + reg / 8 * 4, 0x8d, reg % 8 * 8 + 5], rel);
    }

    lemma StateNow()
      ensures base.State().off == base.codeOffset && base.State().labels == base.labelOffsets[..]
    {
    }

    /** One pass of the emitter over a program. */
    method EmitAll(prog: Program) returns (ok: bool)
      requires base.Valid()
      requires forall k :: 0 <= k < |prog| && prog[k].Branch? ==> !prog[k].insn.Raw?
      modifies base`codeOffset, base.codeBase, base.labelOffsets
      ensures base.Valid()
      ensures Matches(Run(Encode, prog, old(base.State())), ok, base.State())
    {
      hide Write, EncJmp, EncJcc, EncLeaPcrel, Assembler.Valid, Assembler.State;
      ghost var start := base.State();
      for i := 0 to |prog|
        invariant base.Valid()
        invariant Run(Encode, prog[..i], start) == Running(base.State())
      {
        RunNext(Encode, prog, start, i);
        StateNow();
        match prog[i] {
          case Place(lab) => ok := base.LabelAssign(lab);
          case Plain(insn) =>
            ok := base.WriteBytes(Encode(insn, base.codeOffset, UNASSIGNED).bytes);
          case Branch(insn, lab) =>
            match insn {
              case Jmp => ok := JmpLabel(lab);
              case Jcc(cc) => ok := JccLabel(cc, lab);
              case LeaPcrel(reg) => ok := MovRegPcrel(reg, lab);
            }
          case Align(boundary) =>
            base.AlignTo(boundary);
            ok := true;
        }
        if !ok {
          FailureIsFinal(Encode, prog, start, i + 1);
          return;
        }
      }
      assert prog[..|prog|] == prog;
      ok := true;
    }

    /** The compute pass and the emit pass.  For every well-formed program no
        assert fires, the memory is filled exactly, and every label reference
        in it reaches its label. */
    method Assemble(prog: Program) returns (ok: bool)
      requires base.Valid() && WellFormed(prog, base.labelOffsets.Length)
      requires forall k :: 0 <= k < |prog| && prog[k].Branch? ==> !prog[k].insn.Raw?
      modifies base, base.labelOffsets
      ensures ok && base.Valid() && base.codeOffset == base.codeBase.Length
      ensures Run(Encode, prog, StartCompute(base.labelOffsets.Length)).Running?
      ensures LaidOut(prog, base.labelOffsets.Length, base.codeBase[..])
      ensures base.codeBase.Length < TWO31 - 8 ==> BranchesLand(prog, base.labelOffsets.Length, base.codeBase[..])
    {
      hide LaidOut, BranchesLand, Encode, Run, ForwardStable;
      ghost var numLabels := base.labelOffsets.Length;
      AlwaysAssembles(prog, numLabels, []);
      base.StartComputePass();
      ok := EmitAll(prog);
      base.StartEmitPass();
      ghost var mem := base.codeBase[..];
      AlwaysAssembles(prog, numLabels, mem);
      EncodeForwardStable();
      EmitOffset(Encode, prog, numLabels, mem, |prog|);
      assert prog[..|prog|] == prog;
      ok := EmitAll(prog);
      EmittedLaidOut(prog, numLabels, mem);
      if base.codeBase.Length < TWO31 - 8 {
        EmittedBranchesLand(prog, numLabels, mem);
      }
    }
  }
}
