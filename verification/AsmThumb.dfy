/** Label-dependent Thumb code generation of py/asmthumb.c, ARMv6-M branches of
    its conditionals (the core of the RP2040). */
module AsmThumb {
  import opened AsmBase
  import opened Bits
  import opened Bytes
  import opened ThumbCpu
  import opened Wrappers

  // ----- Half-words and their encoders (py/asmthumb.h)

  type Op = h: nat | h < 0x1_0000

  /** Little-endian bytes stored by asm_thumb_op16. */
  function Op16(h: Op): (bs: seq<Byte>)
    ensures |bs| == 2
  {
    [h % 0x100, h / 0x100]
  }

  const NOP: Op := 0xbf00

  function LslOp(rd: Lo, rm: Lo, shift: nat): Op
    requires shift < 32
  { shift * 0x40 + rm * 8 + rd }

  function MovOp(rd: Lo, imm: Byte): Op { 0x2000 + rd * 0x100 + imm }

  function AddOp(rd: Lo, imm: Byte): Op { 0x3000 + rd * 0x100 + imm }

  function NegOp(rd: Lo, rm: Lo): Op { 0x4240 + rm * 8 + rd }

  function AddPcOp(rd: Lo): Op { 0x4478 + rd }

  function LdrLiteralOp(rd: Lo, imm: Byte): Op { 0x4800 + rd * 0x100 + imm }

  function SxthOp(rd: Lo, rm: Lo): Op { 0xb200 + rm * 8 + rd }

  /** OP_B_N: the displacement is cut to eleven bits. */
  function BranchOp(rel: int): Op { 0xe000 + rel / 2 % 0x800 }

  /** OP_BCC_N: the displacement is cut to eight bits. */
  function CondBranchOp(cond: Cond, rel: int): Op { 0xd000 + cond * 0x100 + rel / 2 % 0x100 }

  /** The macros SIGNED_FIT9 and SIGNED_FIT12, on 32-bit values. */
  predicate SignedFit9(x: int) {
    var u := x % TWO32;
    u < 0x100 || u >= 0xffff_ff00
  }

  predicate SignedFit12(x: int) {
    var u := x % TWO32;
    u < 0x800 || u >= 0xffff_f800
  }

  /** `cond ^ 1`. */
  function Inverse(cond: Cond): (r: Cond) {
    if cond % 2 == 0 then cond + 1 else cond - 1
  }

  lemma InverseNegates(cond: Cond, f: Flags)
    ensures CondHolds(Inverse(cond), f) == !CondHolds(cond, f)
  {
  }

  // ----- Generators

  /** asm_thumb_b_label. */
  function EncB(off: nat, dest: int): (e: Emission)
    ensures |e.bytes| == 2
  {
    var rel := dest - off - 4;
    if SignedFit12(rel) then Bytes(Op16(BranchOp(rel)))
    else if dest != UNASSIGNED then TooBig(Op16(NOP))
    else Bytes(Op16(NOP))
  }

  /** asm_thumb_bcc_label. */
  function EncBcc(cond: Cond, off: nat, dest: int): Emission {
    var rel := dest - off - 4;
    if dest != UNASSIGNED && rel <= -4 && SignedFit9(rel) then
      Bytes(Op16(CondBranchOp(cond, rel)))
    else
      match EncB(off + 2, dest)
      case TooBig(bs) => TooBig(Op16(CondBranchOp(Inverse(cond), 0)) + bs)
      case Bytes(bs) => Bytes(Op16(CondBranchOp(Inverse(cond), 0)) + bs)
  }

  /** asm_thumb_mov_rlo_i16. */
  function EncMovI16(rd: Lo, i16: int): (bs: seq<Byte>)
    ensures |bs| == 6
  {
    Op16(MovOp(rd, i16 / 0x100 % 0x100)) + Op16(LslOp(rd, rd, 8)) + Op16(AddOp(rd, i16 % 0x100))
  }

  /** `rel |= 1`. */
  function SetBit0(x: int): int {
    if x % 2 == 0 then x + 1 else x
  }

  /** asm_thumb_mov_reg_pcrel. */
  function EncMovPcrel(rd: Lo, off: nat, dest: int): (bs: seq<Byte>) {
    EncMovI16(rd, SetBit0(dest - off) - 12) + Op16(SxthOp(rd, rd)) + Op16(AddPcOp(rd))
  }

  /** A literal word behind a branch over it. */
  function EncLiteral(rd: Lo, w: Word): (bs: seq<Byte>)
    ensures |bs| == 8
  {
    Op16(LdrLiteralOp(rd, 0)) + Op16(BranchOp(2)) + Op16(w % 0x1_0000) + Op16(w / 0x1_0000)
  }

  /** asm_thumb_mov_reg_i32: the literal is kept word aligned. */
  function EncMovI32(rd: Lo, w: Word, off: nat): (bs: seq<Byte>) {
    (if off / 2 % 2 == 1 then Op16(NOP) else []) + EncLiteral(rd, w)
  }

  type Int32 = i: int | -TWO31 <= i < TWO31

  function Unsigned(i: Int32): Word { i % TWO32 }

  function Ctz(v: nat): (t: nat)
    requires v > 0
  {
    if v % 2 == 1 then 0 else 1 + Ctz(v / 2)
  }

  function Clz(v: nat): (z: nat)
    requires 0 < v < TWO32
    decreases TWO32 - v
  {
    if v >= TWO31 then 0 else 1 + Clz(2 * v)
  }

  /** ctz splits a number into an odd part and a power of two. */
  lemma {:induction false} CtzFacts(v: nat) returns (odd: nat)
    requires v > 0
    ensures v == odd * Pow2(Ctz(v)) && odd % 2 == 1
  {
    if v % 2 == 1 {
      odd := v;
    } else {
      odd := CtzFacts(v / 2);
      Double(odd, Pow2(Ctz(v / 2)), v / 2);
    }
  }

  lemma Double(a: nat, b: nat, c: nat)
    requires c == a * b
    ensures 2 * c == a * (2 * b)
  {
  }

  lemma {:induction false} Pow2Monotone(a: nat, b: nat)
    requires a <= b
    ensures Pow2(a) <= Pow2(b)
  {
    if a < b {
      Pow2Monotone(a, b - 1);
    }
  }

  lemma {:induction false} Pow2Add(a: nat, b: nat)
    ensures Pow2(a + b) == Pow2(a) * Pow2(b)
  {
    if a > 0 {
      Pow2Add(a - 1, b);
      assert Pow2(a + b) == 2 * Pow2(a - 1 + b);
    }
  }

  lemma Pow2Of32()
    ensures Pow2(8) == 0x100 && Pow2(16) == 0x1_0000 && Pow2(32) == TWO32
  {
    assert Pow2(8) == 0x100;
    Pow2Add(8, 8);
    Pow2Add(16, 16);
  }

  lemma CtzBound(v: Word)
    requires v > 0
    ensures Ctz(v) < 32
  {
    hide *;
    var odd := CtzFacts(v);
    var p := Pow2(Ctz(v));
    AtLeastOnce(odd, p);
    if Ctz(v) >= 32 {
      Pow2Monotone(32, Ctz(v));
      Pow2Of32();
    }
  }

  lemma AtLeastOnce(odd: nat, p: nat)
    requires odd > 0
    ensures odd * p >= p
  {
  }

  /** The value whose bits asm_thumb_mov_reg_i32_optimised inspects: negative
      values are negated, except the most negative one. */
  function Magnitude(i: Int32): (m: Int32) {
    if i < 0 && i != -TWO31 then -i else i
  }

  /** asm_thumb_mov_reg_i32_optimised. */
  function EncMovConst(rd: Lo, i: Int32, off: nat): (bs: seq<Byte>) {
    if 0 <= i < 0x100 then Op16(MovOp(rd, i))
    else
      var m := Magnitude(i);
      CtzBound(Unsigned(m));
      var tail := if m != i then Op16(NegOp(rd, rd)) else [];
      if Clz(Unsigned(m)) + Ctz(Unsigned(m)) >= 24 then
        EncShifted(rd, m, Ctz(Unsigned(m))) + tail
      else if 0 <= m < 0x1_0000 then EncMovI16(rd, m) + tail
      else EncMovI32(rd, Unsigned(i), off)
  }

  /** mov then lsl; `>>` on a negative int shifts the sign in. */
  function EncShifted(rd: Lo, m: Int32, shift: nat): (bs: seq<Byte>)
    requires shift < 32
  {
    Op16(MovOp(rd, m / Pow2(shift) % 0x100)) + Op16(LslOp(rd, rd, shift))
  }

  // ----- Function entry and exit

  /** The register list pushed for `numLocals` locals: r1, r4-r7 or r1-r7. */
  function RegList(numLocals: nat): Byte {
    if numLocals <= 1 then 0xf2 else 0xfe
  }

  /** Extra words reserved below the pushed registers, always even. */
  function StackAdjust(numLocals: nat): nat {
    if numLocals <= 3 then 0 else (numLocals - 3 + 1) / 2 * 2
  }

  function PushOp(list: Byte): Op { 0xb500 + list }

  function PopOp(list: Byte): Op { 0xbd00 + list }

  /** OP_ADD_SP or OP_SUB_SP. */
  function AdjustOp(up: bool, words: nat): Op
    requires words < 0x80
  {
    if up then 0xb000 + words else 0xb080 + words
  }

  /** The repeated adjustment, at most 127 words at a time. */
  function AdjustOps(up: bool, words: nat): (bs: seq<Byte>)
    ensures |bs| % 2 == 0
  {
    if words < 0x80 then Op16(AdjustOp(up, words))
    else Op16(AdjustOp(up, 127)) + AdjustOps(up, words - 127)
  }

  /** asm_thumb_entry. */
  function EncEntry(numLocals: nat): (bs: seq<Byte>) {
    Op16(PushOp(RegList(numLocals)))
    + if StackAdjust(numLocals) > 0 then AdjustOps(false, StackAdjust(numLocals)) else []
  }

  /** asm_thumb_exit, from the fields that entry stored. */
  function EncExit(list: Byte, adjust: nat): (bs: seq<Byte>) {
    (if adjust > 0 then AdjustOps(true, adjust) else []) + Op16(PopOp(list))
  }

  // ----- Programs

  /** `Raw` stands for the generators whose bytes depend on nothing. */
  datatype Insn = Raw(bytes: seq<Byte>) | MovConst(rd: Lo, value: Int32) | B | Bcc(cond: Cond) | MovPcrel(rd: Lo)

  function Encode(insn: Insn, off: nat, dest: int): Emission {
    match insn
    case Raw(bs) => Bytes(bs)
    case MovConst(rd, value) => Bytes(EncMovConst(rd, value, off))
    case B => EncB(off, dest)
    case Bcc(cond) => EncBcc(cond, off, dest)
    case MovPcrel(rd) => Bytes(EncMovPcrel(rd, off, dest))
  }

  lemma EncodeForwardStable()
    ensures ForwardStable(Encode)
  {
  }

  // ----- Where the emitted code goes

  ghost predicate CodeAt(code: seq<Byte>, off: nat, bs: seq<Byte>) {
    off + |bs| <= |code| && code[off..off + |bs|] == bs
  }

  lemma CodeAtSplit(code: seq<Byte>, off: nat, a: seq<Byte>, b: seq<Byte>)
    requires CodeAt(code, off, a + b)
    ensures CodeAt(code, off, a) && CodeAt(code, off + |a|, b)
  {
    var c := code[off..off + |a + b|];
    assert code[off..off + |a|] == c[..|a|];
    assert code[off + |a|..off + |a| + |b|] == c[|a|..];
  }

  /** The processor at `s.pc` executes the half-word placed there. */
  lemma StepAt(code: seq<Byte>, s: Cpu, h: Op)
    requires |s.r| == 8 && s.pc >= 0 && s.pc % 2 == 0 && CodeAt(code, s.pc, Op16(h))
    ensures StepCpu(code, s) == Execute(Decode(h), code, s)
  {
  }

  lemma Fit12Range(rel: int)
    requires -TWO31 <= rel < TWO31
    ensures SignedFit12(rel) <==> -0x800 <= rel < 0x800
  {
  }

  lemma Fit9Range(rel: int)
    requires -TWO31 <= rel < TWO31
    ensures SignedFit9(rel) <==> -0x100 <= rel < 0x100
  {
  }

  lemma DecodeBranch(rel: int)
    requires -0x800 <= rel < 0x800 && rel % 2 == 0
    ensures Decode(BranchOp(rel)) == Jump(rel)
  {
    var k := rel / 2;
    assert k % 0x800 == if k >= 0 then k else k + 0x800;
  }

  lemma DecodeCondBranch(cond: Cond, rel: int)
    requires -0x100 <= rel < 0x100 && rel % 2 == 0
    ensures Decode(CondBranchOp(cond, rel)) == CondBranch(cond, rel)
  {
    var k := rel / 2;
    var u := if k >= 0 then k else k + 0x100;
    assert k % 0x100 == u;
    var h := CondBranchOp(cond, rel);
    assert h == 0x100 * (0xd0 + cond) + u;
    assert h / 0x100 == 0xd0 + cond && h % 0x100 == u;
  }

  lemma StepBranch(code: seq<Byte>, s: Cpu, rel: int)
    requires |s.r| == 8 && s.pc >= 0 && s.pc % 2 == 0 && CodeAt(code, s.pc, Op16(BranchOp(rel)))
    requires -0x800 <= rel < 0x800 && rel % 2 == 0
    ensures StepCpu(code, s) == Some(s.(pc := s.pc + 4 + rel))
  {
    hide StepCpu, Decode, BranchOp, Op16, CodeAt;
    StepAt(code, s, BranchOp(rel));
    DecodeBranch(rel);
  }

  lemma StepCondBranch(code: seq<Byte>, s: Cpu, cond: Cond, rel: int)
    requires |s.r| == 8 && s.pc >= 0 && s.pc % 2 == 0 && CodeAt(code, s.pc, Op16(CondBranchOp(cond, rel)))
    requires -0x100 <= rel < 0x100 && rel % 2 == 0
    ensures StepCpu(code, s) == Some(s.(pc := if CondHolds(cond, s.flags) then s.pc + 4 + rel else s.pc + 2))
  {
    hide StepCpu, Decode, CondBranchOp, Op16, CodeAt, CondHolds;
    StepAt(code, s, CondBranchOp(cond, rel));
    DecodeCondBranch(cond, rel);
  }

  /** A branch that is emitted with a known label goes to that label. */
  lemma BLands(code: seq<Byte>, off: nat, dest: nat, s: Cpu)
    requires off % 2 == 0 && dest % 2 == 0 && off < TWO31 - 8 && dest < TWO31
    requires EncB(off, dest).Bytes? && CodeAt(code, off, EncB(off, dest).bytes)
    requires |s.r| == 8 && s.pc == off
    ensures StepCpu(code, s) == Some(s.(pc := dest))
  {
    hide StepCpu, BranchOp, Op16, CodeAt, SignedFit12;
    var rel := dest - off - 4;
    Fit12Range(rel);
    StepBranch(code, s, rel);
  }

  /** The inverted branch over a long one. */
  lemma LongBccLands(cond: Cond, code: seq<Byte>, off: nat, dest: nat, s: Cpu)
    requires off % 2 == 0 && dest % 2 == 0 && off < TWO31 - 16 && dest < TWO31
    requires EncB(off + 2, dest).Bytes?
    requires CodeAt(code, off, Op16(CondBranchOp(Inverse(cond), 0)) + EncB(off + 2, dest).bytes)
    requires |s.r| == 8 && s.pc == off
    ensures Reaches(code, s, s.(pc := if CondHolds(cond, s.flags) then dest else off + 4))
  {
    hide StepCpu, RunCpu, CondHolds, Reaches, CondBranchOp, EncB, CodeAt;
    var last := s.(pc := if CondHolds(cond, s.flags) then dest else off + 4);
    ReachesSelf(code, last);
    CodeAtSplit(code, off, Op16(CondBranchOp(Inverse(cond), 0)), EncB(off + 2, dest).bytes);
    StepCondBranch(code, s, Inverse(cond), 0);
    InverseNegates(cond, s.flags);
    if CondHolds(cond, s.flags) {
      var mid := s.(pc := off + 2);
      BLands(code, off + 2, dest, mid);
      ReachesStep(code, mid, last, last);
      ReachesStep(code, s, mid, last);
    } else {
      ReachesStep(code, s, last, last);
    }
  }

  /** A conditional branch, short or as an inverted branch over a long one,
      goes to its label exactly when its condition holds and otherwise to the
      next instruction. */
  lemma BccLands(cond: Cond, code: seq<Byte>, off: nat, dest: nat, s: Cpu)
    requires off % 2 == 0 && dest % 2 == 0 && off < TWO31 - 16 && dest < TWO31
    requires EncBcc(cond, off, dest).Bytes? && CodeAt(code, off, EncBcc(cond, off, dest).bytes)
    requires |s.r| == 8 && s.pc == off
    ensures Reaches(code, s,
              s.(pc := if CondHolds(cond, s.flags) then dest else off + |EncBcc(cond, off, dest).bytes|))
  {
    hide StepCpu, RunCpu, CondHolds, Reaches, CodeAt, Op16, CondBranchOp, EncB, SignedFit9;
    var rel := dest - off - 4;
    Fit9Range(rel);
    if rel <= -4 && SignedFit9(rel) {
      StepCondBranch(code, s, cond, rel);
      var last := s.(pc := if CondHolds(cond, s.flags) then dest else off + 2);
      Op16Size(CondBranchOp(cond, rel));
      ReachesSelf(code, last);
      ReachesStep(code, s, last, last);
    } else {
      LongBccLands(cond, code, off, dest, s);
      LongSize(cond, off, dest);
    }
  }

  lemma Op16Size(op: Op)
    ensures |Op16(op)| == 2
  {
  }

  lemma LongSize(cond: Cond, off: nat, dest: nat)
    requires EncB(off + 2, dest).Bytes?
    ensures |Op16(CondBranchOp(Inverse(cond), 0)) + EncB(off + 2, dest).bytes| == 4
  {
  }

  /** The short form is taken exactly for a label at most 252 bytes back. */
  lemma BccSize(cond: Cond, off: nat, dest: nat)
    requires off < TWO31 - 16 && dest < TWO31
    ensures |EncBcc(cond, off, dest).bytes| == if -0x100 <= dest - off - 4 <= -4 then 2 else 4
  {
    hide CondBranchOp, SignedFit9, SignedFit12, BranchOp;
    Fit9Range(dest - off - 4);
  }

  // ----- Straight-line steps

  lemma DecodeLsl(rd: Lo, shift: nat)
    requires shift < 32
    ensures Decode(LslOp(rd, rd, shift)) == LslImm(rd, rd, shift)
  {
    var h := LslOp(rd, rd, shift);
    var k := 8 * shift + rd;
    assert h == 8 * k + rd;
    assert h / 8 == k && h % 8 == rd;
    assert k / 8 == shift && k % 8 == rd;
    assert h / 0x40 == shift;
  }

  lemma DecodeImmediates(rd: Lo, imm: Byte)
    ensures Decode(MovOp(rd, imm)) == MovImm(rd, imm)
    ensures Decode(AddOp(rd, imm)) == AddImm(rd, imm)
    ensures Decode(LdrLiteralOp(rd, imm)) == LdrLiteral(rd, imm)
  {
    RegisterImmediate(0x20, rd, imm);
    RegisterImmediate(0x30, rd, imm);
    RegisterImmediate(0x48, rd, imm);
  }

  lemma RegisterImmediate(high: nat, rd: Lo, imm: Byte)
    requires high % 8 == 0
    ensures var h := high * 0x100 + rd * 0x100 + imm; h / 0x100 % 8 == rd && h % 0x100 == imm
  {
    var q := high + rd;
    assert high * 0x100 + rd * 0x100 + imm == 0x100 * q + imm;
    assert (0x100 * q + imm) / 0x100 == q;
    assert q % 8 == rd;
  }

  lemma DecodeUnary(rd: Lo)
    ensures Decode(NegOp(rd, rd)) == Neg(rd, rd)
    ensures Decode(SxthOp(rd, rd)) == Sxth(rd, rd)
    ensures Decode(AddPcOp(rd)) == AddPc(rd)
    ensures Decode(NOP) == Nop
  {
    assert NegOp(rd, rd) / 8 == 0x848 + rd && NegOp(rd, rd) % 8 == rd;
    assert SxthOp(rd, rd) / 8 == 0x1640 + rd && SxthOp(rd, rd) % 8 == rd;
    assert AddPcOp(rd) % 8 == rd;
  }

  /** `s` with register `rd` set, `len` bytes further on. */
  function After(s: Cpu, len: nat, rd: Lo, w: Word, f: Flags): Cpu
    requires |s.r| == 8
  {
    s.(pc := s.pc + len, r := s.r[rd := w], flags := f)
  }

  lemma AfterAfter(s: Cpu, len1: nat, mid: Word, f: Flags, len2: nat, rd: Lo, w: Word, g: Flags)
    requires |s.r| == 8
    ensures After(After(s, len1, rd, mid, f), len2, rd, w, g) == After(s, len1 + len2, rd, w, g)
  {
  }

  /** Executing from `s` runs through `len` bytes, changes only register `rd`
      (to `w`) and the flags, and arrives just behind them. */
  ghost predicate Sets(code: seq<Byte>, s: Cpu, len: nat, rd: Lo, w: Word) {
    |s.r| == 8 && exists f: Flags :: Reaches(code, s, After(s, len, rd, w, f))
  }

  lemma SetsStep(code: seq<Byte>, s: Cpu, rd: Lo, w: Word, f: Flags)
    requires |s.r| == 8 && StepCpu(code, s) == Some(After(s, 2, rd, w, f))
    ensures Sets(code, s, 2, rd, w)
  {
    ReachesSelf(code, After(s, 2, rd, w, f));
    ReachesStep(code, s, After(s, 2, rd, w, f), After(s, 2, rd, w, f));
  }

  /** Wherever execution enters at `off` with `x` in register `rd`, it runs
      through `len` bytes and leaves `w` there, changing nothing else but the
      flags. */
  ghost predicate Maps(code: seq<Byte>, off: nat, len: nat, rd: Lo, x: Word, w: Word) {
    forall s: Cpu :: |s.r| == 8 && s.pc == off && s.r[rd] == x ==> Sets(code, s, len, rd, w)
  }

  /** Sequencing two code fragments. */
  lemma MapsThen(code: seq<Byte>, off: nat, len1: nat, len2: nat, rd: Lo, x: Word, m: Word, w: Word)
    requires Maps(code, off, len1, rd, x, m) && Maps(code, off + len1, len2, rd, m, w)
    ensures Maps(code, off, len1 + len2, rd, x, w)
  {
    hide StepCpu, RunCpu, Reaches;
    forall s: Cpu | |s.r| == 8 && s.pc == off && s.r[rd] == x
      ensures Sets(code, s, len1 + len2, rd, w)
    {
      assert Sets(code, s, len1, rd, m);
      var f :| Reaches(code, s, After(s, len1, rd, m, f));
      var t := After(s, len1, rd, m, f);
      assert Sets(code, t, len2, rd, w);
      var g :| Reaches(code, t, After(t, len2, rd, w, g));
      AfterAfter(s, len1, m, f, len2, rd, w, g);
      ReachesTrans(code, s, t, After(s, len1 + len2, rd, w, g));
    }
  }

  lemma MovMaps(code: seq<Byte>, off: nat, rd: Lo, imm: Byte, x: Word)
    requires off % 2 == 0 && CodeAt(code, off, Op16(MovOp(rd, imm)))
    ensures Maps(code, off, 2, rd, x, imm)
  {
    hide StepCpu, Decode, MovOp, Op16, CodeAt, Sets;
    forall s: Cpu | |s.r| == 8 && s.pc == off ensures Sets(code, s, 2, rd, imm) {
      StepAt(code, s, MovOp(rd, imm));
      DecodeImmediates(rd, imm);
      SetsStep(code, s, rd, imm, NZ(s.flags, imm));
    }
  }

  lemma LslMaps(code: seq<Byte>, off: nat, rd: Lo, shift: nat, x: Word)
    requires shift < 32 && off % 2 == 0 && CodeAt(code, off, Op16(LslOp(rd, rd, shift)))
    ensures Maps(code, off, 2, rd, x, x * Pow2(shift) % TWO32)
  {
    hide StepCpu, Decode, LslOp, Op16, CodeAt, Sets;
    forall s: Cpu | |s.r| == 8 && s.pc == off && s.r[rd] == x
      ensures Sets(code, s, 2, rd, x * Pow2(shift) % TWO32)
    {
      StepAt(code, s, LslOp(rd, rd, shift));
      DecodeLsl(rd, shift);
      SetsStep(code, s, rd, x * Pow2(shift) % TWO32, Execute(LslImm(rd, rd, shift), code, s).value.flags);
    }
  }

  lemma AddMaps(code: seq<Byte>, off: nat, rd: Lo, imm: Byte, x: Word)
    requires off % 2 == 0 && CodeAt(code, off, Op16(AddOp(rd, imm)))
    ensures Maps(code, off, 2, rd, x, (x as int + imm) % TWO32)
  {
    hide StepCpu, Decode, AddOp, Op16, CodeAt, Sets;
    forall s: Cpu | |s.r| == 8 && s.pc == off && s.r[rd] == x
      ensures Sets(code, s, 2, rd, (x as int + imm) % TWO32)
    {
      StepAt(code, s, AddOp(rd, imm));
      DecodeImmediates(rd, imm);
      SetsStep(code, s, rd, (x as int + imm) % TWO32, Execute(AddImm(rd, imm), code, s).value.flags);
    }
  }

  lemma NegMaps(code: seq<Byte>, off: nat, rd: Lo, x: Word)
    requires off % 2 == 0 && CodeAt(code, off, Op16(NegOp(rd, rd)))
    ensures Maps(code, off, 2, rd, x, (0 - x as int) % TWO32)
  {
    hide StepCpu, Decode, NegOp, Op16, CodeAt, Sets;
    forall s: Cpu | |s.r| == 8 && s.pc == off && s.r[rd] == x
      ensures Sets(code, s, 2, rd, (0 - x as int) % TWO32)
    {
      StepAt(code, s, NegOp(rd, rd));
      DecodeUnary(rd);
      SetsStep(code, s, rd, (0 - x as int) % TWO32, Execute(Neg(rd, rd), code, s).value.flags);
    }
  }

  lemma SxthMaps(code: seq<Byte>, off: nat, rd: Lo, x: Word)
    requires off % 2 == 0 && CodeAt(code, off, Op16(SxthOp(rd, rd)))
    ensures Maps(code, off, 2, rd, x, SignExtend(x % 0x1_0000, 0x1_0000) % TWO32)
  {
    hide StepCpu, Decode, SxthOp, Op16, CodeAt, Sets;
    forall s: Cpu | |s.r| == 8 && s.pc == off && s.r[rd] == x
      ensures Sets(code, s, 2, rd, SignExtend(x % 0x1_0000, 0x1_0000) % TWO32)
    {
      StepAt(code, s, SxthOp(rd, rd));
      DecodeUnary(rd);
      SetsStep(code, s, rd, SignExtend(x % 0x1_0000, 0x1_0000) % TWO32, s.flags);
    }
  }

  lemma AddPcMaps(code: seq<Byte>, off: nat, rd: Lo, x: Word)
    requires off % 2 == 0 && CodeAt(code, off, Op16(AddPcOp(rd)))
    ensures Maps(code, off, 2, rd, x, (x as int + off + 4) % TWO32)
  {
    hide StepCpu, Decode, AddPcOp, Op16, CodeAt, Sets;
    forall s: Cpu | |s.r| == 8 && s.pc == off && s.r[rd] == x
      ensures Sets(code, s, 2, rd, (x as int + off + 4) % TWO32)
    {
      StepAt(code, s, AddPcOp(rd));
      DecodeUnary(rd);
      SetsStep(code, s, rd, (x as int + off + 4) % TWO32, s.flags);
    }
  }

  lemma NopMaps(code: seq<Byte>, off: nat, rd: Lo, x: Word)
    requires off % 2 == 0 && CodeAt(code, off, Op16(NOP))
    ensures Maps(code, off, 2, rd, x, x)
  {
    hide StepCpu, Decode, Op16, CodeAt, Sets;
    forall s: Cpu | |s.r| == 8 && s.pc == off && s.r[rd] == x ensures Sets(code, s, 2, rd, x) {
      StepAt(code, s, NOP);
      DecodeUnary(rd);
      assert s.r[rd := x] == s.r;
      SetsStep(code, s, rd, x, s.flags);
    }
  }
}
