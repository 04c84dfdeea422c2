/** What the constant loaders of py/asmthumb.c compute when they are executed:
    asm_thumb_mov_rlo_i16, asm_thumb_mov_reg_i32, asm_thumb_mov_reg_pcrel and
    asm_thumb_mov_reg_i32_optimised. */
module ThumbConstants {
  import opened Arith
  import opened Bits
  import opened Bytes
  import opened ThumbCpu
  import opened AsmThumb
  import opened Wrappers

  lemma JoinBytes(i16: int)
    ensures (i16 / 0x100 % 0x100) * 0x100 + i16 % 0x100 == i16 % 0x1_0000
  {
  }

  lemma MovI16Maps(code: seq<Byte>, off: nat, rd: Lo, i16: int, x: Word)
    requires off % 2 == 0 && CodeAt(code, off, EncMovI16(rd, i16))
    ensures Maps(code, off, 6, rd, x, i16 % 0x1_0000)
  {
    hide Maps, CodeAt, Op16, MovOp, LslOp, AddOp;
    var hi: Byte, lo: Byte := i16 / 0x100 % 0x100, i16 % 0x100;
    var a, b, c := Op16(MovOp(rd, hi)), Op16(LslOp(rd, rd, 8)), Op16(AddOp(rd, lo));
    CodeAtSplit(code, off, a + b, c);
    CodeAtSplit(code, off, a, b);
    JoinBytes(i16);
    assert Pow2(8) == 0x100 by { Pow2Of32(); }
    MovMaps(code, off, rd, hi, x);
    LslMaps(code, off + 2, rd, 8, hi);
    MapsThen(code, off, 2, 2, rd, x, hi, hi * 0x100);
    AddMaps(code, off + 4, rd, lo, hi * 0x100);
    MapsThen(code, off, 4, 2, rd, x, hi * 0x100, i16 % 0x1_0000);
  }

  lemma HalfAt(code: seq<Byte>, at: nat, h: Op)
    requires CodeAt(code, at, Op16(h))
    ensures at + 2 <= |code| && Half(code, at) == h
  {
  }

  /** The aligned load of the word that follows two instructions later. */
  lemma LoadLiteral(code: seq<Byte>, s: Cpu, rd: Lo, w: Word)
    requires |s.r| == 8 && s.pc >= 0 && s.pc % 4 == 0
    requires CodeAt(code, s.pc, Op16(LdrLiteralOp(rd, 0)))
    requires CodeAt(code, s.pc + 4, Op16(w % 0x1_0000)) && CodeAt(code, s.pc + 6, Op16(w / 0x1_0000))
    ensures StepCpu(code, s) == Some(After(s, 2, rd, w, s.flags))
  {
    hide Decode, StepCpu, LdrLiteralOp, CodeAt, Op16, Half;
    HalfAt(code, s.pc + 4, w % 0x1_0000);
    HalfAt(code, s.pc + 6, w / 0x1_0000);
    StepAt(code, s, LdrLiteralOp(rd, 0));
    DecodeImmediates(rd, 0);
    assert (s.pc + 4) / 4 * 4 == s.pc + 4;
  }

  /** The aligned literal: load, jump over the word, arrive behind it. */
  lemma LiteralMaps(code: seq<Byte>, off: nat, rd: Lo, w: Word, x: Word)
    requires off % 4 == 0
    requires CodeAt(code, off, EncLiteral(rd, w))
    ensures Maps(code, off, 8, rd, x, w)
  {
    hide Sets, LdrLiteralOp, BranchOp, CodeAt;
    var a, b := Op16(LdrLiteralOp(rd, 0)), Op16(BranchOp(2));
    var c, d := Op16(w % 0x1_0000), Op16(w / 0x1_0000);
    CodeAtSplit(code, off, a + b + c, d);
    CodeAtSplit(code, off, a + b, c);
    CodeAtSplit(code, off, a, b);
    forall s: Cpu | |s.r| == 8 && s.pc == off ensures Sets(code, s, 8, rd, w) {
      LiteralSets(code, s, rd, w);
    }
  }

  lemma AfterJump(s: Cpu, len: nat, more: nat, rd: Lo, w: Word, f: Flags)
    requires |s.r| == 8
    ensures var t := After(s, len, rd, w, f);
      |t.r| == 8 && t.pc == s.pc + len && t.(pc := t.pc + more) == After(s, len + more, rd, w, f)
  {
  }

  /** The load and the jump over the word. */
  lemma LiteralSteps(code: seq<Byte>, s: Cpu, rd: Lo, w: Word)
    requires |s.r| == 8 && s.pc >= 0 && s.pc % 4 == 0
    requires CodeAt(code, s.pc, Op16(LdrLiteralOp(rd, 0))) && CodeAt(code, s.pc + 2, Op16(BranchOp(2)))
    requires CodeAt(code, s.pc + 4, Op16(w % 0x1_0000)) && CodeAt(code, s.pc + 6, Op16(w / 0x1_0000))
    ensures var t, u := After(s, 2, rd, w, s.flags), After(s, 8, rd, w, s.flags);
      |t.r| == 8 && |u.r| == 8 && StepCpu(code, s) == Some(t) && StepCpu(code, t) == Some(u)
  {
    hide StepCpu, LdrLiteralOp, BranchOp, Op16, CodeAt, After;
    var t, u := After(s, 2, rd, w, s.flags), After(s, 8, rd, w, s.flags);
    AfterJump(s, 2, 6, rd, w, s.flags);
    AfterJump(s, 8, 0, rd, w, s.flags);
    assert StepCpu(code, s) == Some(t) by {
      LoadLiteral(code, s, rd, w);
    }
    SkipWord(code, t, u);
  }

  lemma SkipWord(code: seq<Byte>, t: Cpu, u: Cpu)
    requires |t.r| == 8 && t.pc >= 0 && (t.pc - 2) % 4 == 0 && CodeAt(code, t.pc, Op16(BranchOp(2)))
    requires u == t.(pc := t.pc + 6)
    ensures StepCpu(code, t) == Some(u)
  {
    hide StepCpu, BranchOp, Op16, CodeAt;
    assert t.pc % 2 == 0;
    StepBranch(code, t, 2);
  }

  lemma LiteralSets(code: seq<Byte>, s: Cpu, rd: Lo, w: Word)
    requires |s.r| == 8 && s.pc >= 0 && s.pc % 4 == 0
    requires CodeAt(code, s.pc, Op16(LdrLiteralOp(rd, 0))) && CodeAt(code, s.pc + 2, Op16(BranchOp(2)))
    requires CodeAt(code, s.pc + 4, Op16(w % 0x1_0000)) && CodeAt(code, s.pc + 6, Op16(w / 0x1_0000))
    ensures Sets(code, s, 8, rd, w)
  {
    hide StepCpu, LdrLiteralOp, BranchOp, Op16, Reaches, RunCpu, CodeAt, After;
    LiteralSteps(code, s, rd, w);
    var t, u := After(s, 2, rd, w, s.flags), After(s, 8, rd, w, s.flags);
    ReachesSelf(code, u);
    ReachesStep(code, t, u, u);
    ReachesStep(code, s, t, u);
  }

  /** asm_thumb_mov_reg_i32 at either alignment. */
  lemma MovI32Maps(code: seq<Byte>, off: nat, rd: Lo, w: Word, x: Word)
    requires off % 2 == 0 && CodeAt(code, off, EncMovI32(rd, w, off))
    ensures Maps(code, off, |EncMovI32(rd, w, off)|, rd, x, w)
  {
    hide Maps, CodeAt, EncLiteral, Op16;
    var body := EncLiteral(rd, w);
    if off / 2 % 2 == 1 {
      CodeAtSplit(code, off, Op16(NOP), body);
      NopMaps(code, off, rd, x);
      LiteralMaps(code, off + 2, rd, w, x);
      MapsThen(code, off, 2, 8, rd, x, x, w);
    } else {
      assert EncMovI32(rd, w, off) == body;
      LiteralMaps(code, off, rd, w, x);
    }
  }

  /** The address that asm_thumb_mov_reg_pcrel at `off` computes from its
      16-bit distance. */
  function PcrelValue(off: nat, rel: int): Word {
    (SignExtend(rel % 0x1_0000, 0x1_0000) % TWO32 + off + 12) % TWO32
  }

  lemma PcrelMaps(code: seq<Byte>, off: nat, rd: Lo, rel: int, x: Word)
    requires off % 2 == 0 && CodeAt(code, off, EncMovI16(rd, rel))
    requires CodeAt(code, off + 6, Op16(SxthOp(rd, rd))) && CodeAt(code, off + 8, Op16(AddPcOp(rd)))
    ensures Maps(code, off, 10, rd, x, PcrelValue(off, rel))
  {
    hide Maps, CodeAt, EncMovI16, Op16, SxthOp, AddPcOp, SignExtend;
    var low, wide := rel % 0x1_0000, SignExtend(rel % 0x1_0000, 0x1_0000) % TWO32;
    MovI16Maps(code, off, rd, rel, x);
    LowAgain(rel);
    SxthMaps(code, off + 6, rd, low);
    MapsThen(code, off, 6, 2, rd, x, low, wide);
    AddPcMaps(code, off + 8, rd, wide);
    MapsThen(code, off, 8, 2, rd, x, wide, PcrelValue(off, rel));
  }

  lemma LowAgain(rel: int)
    ensures rel % 0x1_0000 % 0x1_0000 == rel % 0x1_0000
  {
  }

  /** asm_thumb_mov_reg_pcrel leaves the value computed from the distance to
      its label, low bit set. */
  lemma MovPcrelMaps(code: seq<Byte>, off: nat, rd: Lo, dest: nat, x: Word)
    requires off % 2 == 0 && dest % 2 == 0
    requires CodeAt(code, off, EncMovPcrel(rd, off, dest))
    ensures Maps(code, off, 10, rd, x, PcrelValue(off, dest + 1 - off - 12))
  {
    hide Maps, CodeAt, EncMovI16, SxthOp, AddPcOp, PcrelValue;
    var rel := dest + 1 - off - 12;
    assert SetBit0(dest - off) - 12 == rel;
    CodeAtSplit(code, off, EncMovI16(rd, rel) + Op16(SxthOp(rd, rd)), Op16(AddPcOp(rd)));
    CodeAtSplit(code, off, EncMovI16(rd, rel), Op16(SxthOp(rd, rd)));
    PcrelMaps(code, off, rd, rel, x);
  }

  /** That is the label's Thumb address exactly when the distance fits 16 signed
      bits; the generator does not test this. */
  lemma PcrelExact(off: nat, dest: nat)
    requires off < TWO31 - 16 && dest < TWO31 - 16
    ensures PcrelValue(off, dest + 1 - off - 12) == dest + 1 <==> -0x8000 <= dest + 1 - off - 12 < 0x8000
  {
    var rel := dest + 1 - off - 12;
    var wide := SignExtend(rel % 0x1_0000, 0x1_0000);
    assert wide == rel <==> -0x8000 <= rel < 0x8000 by { SignExtendRange(rel); }
    assert -0x8000 <= wide < 0x8000;
    hide SignExtend;
    AddWraps(wide, off + 12);
    DistinctWords(wide + off + 12, dest + 1);
  }

  lemma SignExtendRange(rel: int)
    ensures SignExtend(rel % 0x1_0000, 0x1_0000) == rel <==> -0x8000 <= rel < 0x8000
  {
  }

  lemma AddWraps(a: int, b: nat)
    ensures (a % TWO32 + b) % TWO32 == (a + b) % TWO32
  {
  }

  lemma DistinctWords(a: int, b: Word)
    requires -TWO31 <= a < TWO32 && b < TWO31
    ensures a % TWO32 == b <==> a == b
  {
  }

  // ----- mov + lsl

  lemma {:induction false} ClzFacts(v: nat)
    requires 0 < v < TWO32
    ensures TWO31 <= v * Pow2(Clz(v)) < TWO32
    decreases TWO32 - v
  {
    if v < TWO31 {
      ClzFacts(2 * v);
      Regroup(v, Pow2(Clz(2 * v)));
    }
  }

  lemma Regroup(v: nat, p: nat)
    ensures (2 * v) * p == v * (2 * p)
  {
  }

  lemma DivExact(q: nat, p: nat)
    requires p > 0
    ensures q * p / p == q
  {
    DivMod(q, p, 0);
  }

  /** When the significant bits span at most eight places, the byte and the
      shift reproduce the number. */
  lemma ShiftedByte(v: nat)
    requires 0 < v < TWO32 && Clz(v) + Ctz(v) >= 24
    ensures v / Pow2(Ctz(v)) < 0x100 && v / Pow2(Ctz(v)) * Pow2(Ctz(v)) == v
  {
    hide *;
    var odd := CtzFacts(v);
    var p, c := Pow2(Ctz(v)), Pow2(Clz(v));
    DivExact(odd, p);
    ClzFacts(v);
    Pow2Add(Clz(v), Ctz(v));
    Pow2Monotone(24, Clz(v) + Ctz(v));
    ByteBound(odd, p, c);
  }

  /** At most eight significant bits. */
  ghost predicate IsShiftedByte(v: nat) {
    exists k: nat :: v % Pow2(k) == 0 && v / Pow2(k) < 0x100
  }

  /** The test of the leading and trailing zeros finds exactly the shifted bytes. */
  lemma ShiftTestIff(v: nat)
    requires 0 < v < TWO32
    ensures Clz(v) + Ctz(v) >= 24 <==> IsShiftedByte(v)
  {
    hide Clz, Ctz, Pow2;
    if Clz(v) + Ctz(v) >= 24 {
      ShiftedByte(v);
      Exactly(v / Pow2(Ctz(v)), Pow2(Ctz(v)));
    }
    if k: nat :| v % Pow2(k) == 0 && v / Pow2(k) < 0x100 {
      var b := v / Pow2(k);
      Split(v, Pow2(k));
      ClzFacts(v);
      CtzShift(b, k);
      LeadingZeros(b, k, Clz(v));
    }
  }

  /** The source's assert on the two counts never fires. */
  lemma CountsBound(v: nat)
    requires 0 < v < TWO32
    ensures Clz(v) + Ctz(v) < 32
  {
    hide *;
    var odd := CtzFacts(v);
    ClzFacts(v);
    var p, c := Pow2(Ctz(v)), Pow2(Clz(v));
    Pow2Add(Clz(v), Ctz(v));
    Reassociate(odd, p, c);
    AtLeastOnce(odd, c * p);
    if Clz(v) + Ctz(v) >= 32 {
      Pow2Monotone(32, Clz(v) + Ctz(v));
      Pow2Of32();
    }
  }

  lemma Exactly(q: nat, p: nat)
    requires p > 0
    ensures q * p % p == 0
  {
    DivMod(q, p, 0);
  }

  lemma {:induction false} CtzShift(b: nat, k: nat)
    requires b * Pow2(k) > 0
    ensures b > 0 && Ctz(b * Pow2(k)) >= k
    decreases k
  {
    if k > 0 {
      Regroup(b, Pow2(k - 1));
      assert b * Pow2(k) == 2 * (b * Pow2(k - 1)) by { Twofold(b, Pow2(k - 1)); }
      CtzShift(b, k - 1);
    }
  }

  lemma Twofold(b: nat, p: nat)
    ensures b * (2 * p) == 2 * (b * p)
  {
  }

  lemma LeadingZeros(b: nat, k: nat, z: nat)
    requires b < 0x100 && (b * Pow2(k)) * Pow2(z) >= TWO31
    ensures z + k >= 24
  {
    var w := Pow2(z + k);
    assert b * w >= 0x8000_0000 by {
      hide Pow2;
      Reassociate(b, Pow2(k), Pow2(z));
      Pow2Add(z, k);
    }
    hide *;
    if z + k < 24 {
      Pow2Monotone(z + k, 23);
      Pow2Of23();
      SmallProduct(b, w);
    }
  }

  lemma SmallProduct(b: nat, w: nat)
    requires b < 0x100 && w <= 0x80_0000
    ensures b * w < 0x8000_0000
  {
    MulMono(w, b, 0xff);
  }

  lemma Pow2Of23()
    ensures Pow2(23) == 0x80_0000
  {
    assert Pow2(7) == 0x80 && Pow2(8) == 0x100;
    hide Pow2;
    Pow2Add(8, 15);
    Pow2Add(8, 7);
  }

  /** Which sequence is chosen, by its size. */
  lemma ConstSize(rd: Lo, i: Int32, off: nat)
    ensures var n: int := i;
      |EncMovConst(rd, i, off)| ==
      if 0 <= i < 0x100 then 2
      else if i > 0 && IsShiftedByte(n) then 4
      else if i < 0 && IsShiftedByte(-n) then (if i == -TWO31 then 4 else 6)
      else if 0 < i < 0x1_0000 then 6
      else if -0x1_0000 < i < 0 then 8
      else if off / 2 % 2 == 1 then 10 else 8
  {
    hide Clz, Ctz, IsShiftedByte, Op16, MovOp, NegOp, Pow2, EncShifted, EncLiteral, LslOp, AddOp;
    if 0 <= i < 0x100 {
      Op16Size(MovOp(rd, i));
    } else {
      var m := Magnitude(i);
      CtzBound(Unsigned(m));
      ShiftTestIff(Unsigned(m));
      ShiftedLength(rd, m, Ctz(Unsigned(m)));
      Op16Size(NegOp(rd, rd));
      Op16Size(NOP);
    }
  }

  lemma Reassociate(a: nat, b: nat, c: nat)
    ensures (a * b) * c == a * (c * b)
  {
  }

  lemma ByteBound(odd: nat, p: nat, c: nat)
    requires (odd * p) * c < TWO32 && c * p >= Pow2(24)
    ensures odd < 0x100
  {
    Reassociate(odd, p, c);
    if odd >= 0x100 {
      MulMono(c * p, 0x100, odd);
      Pow2Add(8, 24);
      Pow2Of32();
    }
  }

  lemma ShiftedMaps(code: seq<Byte>, off: nat, rd: Lo, m: Int32, x: Word)
    requires m != 0 && Clz(Unsigned(m)) + Ctz(Unsigned(m)) >= 24 && (m > 0 || m == -TWO31)
    requires Ctz(Unsigned(m)) < 32 && off % 2 == 0
    requires CodeAt(code, off, EncShifted(rd, m, Ctz(Unsigned(m))))
    ensures Maps(code, off, 4, rd, x, Unsigned(m))
  {
    hide Maps, CodeAt, Op16, MovOp, LslOp, Ctz, Clz, Pow2;
    var shift := Ctz(Unsigned(m));
    var imm: Byte := m / Pow2(shift) % 0x100;
    ShiftBack(m);
    ByteThenShift(code, off, rd, imm, shift, x, Unsigned(m));
  }

  /** The two instructions, whatever byte and shift. */
  lemma ByteThenShift(code: seq<Byte>, off: nat, rd: Lo, imm: Byte, shift: nat, x: Word, w: Word)
    requires shift < 32 && off % 2 == 0 && imm * Pow2(shift) % TWO32 == w
    requires CodeAt(code, off, Op16(MovOp(rd, imm)) + Op16(LslOp(rd, rd, shift)))
    ensures Maps(code, off, 4, rd, x, w)
  {
    hide Maps, CodeAt, Op16, MovOp, LslOp, Pow2;
    CodeAtSplit(code, off, Op16(MovOp(rd, imm)), Op16(LslOp(rd, rd, shift)));
    Op16Size(MovOp(rd, imm));
    MovMaps(code, off, rd, imm, x);
    LslMaps(code, off + 2, rd, shift, imm);
    MapsThen(code, off, 2, 2, rd, x, imm, w);
  }

  lemma ShiftBack(m: Int32)
    requires m != 0 && Clz(Unsigned(m)) + Ctz(Unsigned(m)) >= 24 && (m > 0 || m == -TWO31)
    ensures var p := Pow2(Ctz(Unsigned(m))); (m / p % 0x100) * p % TWO32 == Unsigned(m)
  {
    hide Ctz, Clz, Pow2;
    if m > 0 {
      ShiftedByte(m);
      WordItself(m / Pow2(Ctz(m)), Pow2(Ctz(m)), m);
    } else {
      MostNegative();
    }
  }

  lemma WordItself(q: nat, p: nat, m: Int32)
    requires m > 0 && q < 0x100 && q * p == m
    ensures Unsigned(m) == m && (q % 0x100) * p % TWO32 == m
  {
  }

  /** INT_MIN: the arithmetic shift gives 0xff, and shifting that back by 31
      leaves just the top bit. */
  lemma MostNegative()
    ensures Unsigned(-TWO31) == TWO31 && Ctz(TWO31) == 31 && Pow2(31) == TWO31
    ensures (-TWO31) / Pow2(31) % 0x100 == 0xff && 0xff * Pow2(31) % TWO32 == TWO31
  {
    hide Ctz;
    Pow2Of32();
    assert Pow2(32) == 2 * Pow2(31);
    CtzPow2(31);
  }

  lemma {:induction false} CtzPow2(k: nat)
    ensures Ctz(Pow2(k)) == k
  {
    if k > 0 {
      CtzPow2(k - 1);
      assert Pow2(k) / 2 == Pow2(k - 1);
    }
  }

  lemma NegateBack(m: Int32, i: Int32)
    requires m as int + i == 0
    ensures (0 - Unsigned(m)) % TWO32 == Unsigned(i)
  {
  }

  lemma MaybeNegate(code: seq<Byte>, off: nat, len: nat, rd: Lo, m: Int32, i: Int32, x: Word)
    requires m == Magnitude(i) && len % 2 == 0 && off % 2 == 0
    requires Maps(code, off, len, rd, x, Unsigned(m))
    requires m != i ==> CodeAt(code, off + len, Op16(NegOp(rd, rd)))
    ensures Maps(code, off, if m != i then len + 2 else len, rd, x, Unsigned(i))
  {
    hide Maps, CodeAt, Op16, NegOp;
    if m != i {
      NegMaps(code, off + len, rd, Unsigned(m));
      NegateBack(m, i);
      MapsThen(code, off, len, 2, rd, x, Unsigned(m), Unsigned(i));
    }
  }

  /** For every 32-bit constant, low register and alignment, executing the
      chosen sequence leaves exactly that constant in the register, changes no
      other register, the stack or memory, and falls through. */
  lemma MovConstMaps(code: seq<Byte>, off: nat, rd: Lo, i: Int32, x: Word)
    requires off % 2 == 0 && CodeAt(code, off, EncMovConst(rd, i, off))
    ensures Maps(code, off, |EncMovConst(rd, i, off)|, rd, x, Unsigned(i))
  {
    hide Maps, CodeAt, Op16, MovOp, NegOp, EncMovI16, EncMovI32, EncShifted, Clz, Ctz;
    if 0 <= i < 0x100 {
      MovMaps(code, off, rd, i, x);
      return;
    }
    var m := Magnitude(i);
    CtzBound(Unsigned(m));
    var shift := Ctz(Unsigned(m));
    var tail := if m != i then Op16(NegOp(rd, rd)) else [];
    if Clz(Unsigned(m)) + shift >= 24 {
      CodeAtSplit(code, off, EncShifted(rd, m, shift), tail);
      ShiftedMaps(code, off, rd, m, x);
      ShiftedLength(rd, m, shift);
      MaybeNegate(code, off, 4, rd, m, i, x);
    } else if 0 <= m < 0x1_0000 {
      CodeAtSplit(code, off, EncMovI16(rd, m), tail);
      MovI16Maps(code, off, rd, m, x);
      MaybeNegate(code, off, 6, rd, m, i, x);
    } else {
      MovI32Maps(code, off, rd, Unsigned(i), x);
    }
  }

  lemma ShiftedLength(rd: Lo, m: Int32, shift: nat)
    requires shift < 32
    ensures |EncShifted(rd, m, shift)| == 4
  {
  }
}
