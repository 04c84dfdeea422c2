/** The stack frame built by asm_thumb_entry and removed by asm_thumb_exit, as
    the processor executes them. */
module ThumbFrame {
  import opened Bits
  import opened Bytes
  import opened ThumbCpu
  import opened AsmThumb
  import opened Wrappers

  /** Words pushed, including the link register. */
  function PushedWords(numLocals: nat): nat {
    if numLocals <= 1 then 6 else 8
  }

  function FrameBytes(numLocals: nat): (n: nat)
    ensures n % 8 == 0
  {
    4 * (PushedWords(numLocals) + StackAdjust(numLocals))
  }

  /** The frame is the smallest multiple of eight bytes with room for the locals
      below the four saved registers and the return address. */
  lemma FrameFits(numLocals: nat)
    ensures 4 * numLocals + 20 <= FrameBytes(numLocals) < 4 * numLocals + 28
  {
  }

  lemma DecodeFrameOps(list: Byte, up: bool, words: nat)
    requires words < 0x80
    ensures Decode(PushOp(list)) == Push(list, true)
    ensures Decode(PopOp(list)) == Pop(list, true)
    ensures Decode(AdjustOp(up, words)) == if up then AddSp(words) else SubSp(words)
  {
  }

  lemma {:induction false} AdjustRuns(code: seq<Byte>, s: Cpu, up: bool, words: nat)
    requires |s.r| == 8 && s.pc >= 0 && s.pc % 2 == 0 && CodeAt(code, s.pc, AdjustOps(up, words))
    ensures Reaches(code, s, s.(pc := s.pc + |AdjustOps(up, words)|,
                                sp := if up then s.sp + 4 * words else s.sp - 4 * words))
    decreases words
  {
    hide StepCpu, RunCpu, Reaches, Decode, CodeAt, AdjustOp;
    var end := s.(pc := s.pc + |AdjustOps(up, words)|, sp := if up then s.sp + 4 * words else s.sp - 4 * words);
    if words < 0x80 {
      AdjustStep(code, s, up, words);
      ReachesSelf(code, end);
      ReachesStep(code, s, end, end);
    } else {
      CodeAtSplit(code, s.pc, Op16(AdjustOp(up, 127)), AdjustOps(up, words - 127));
      AdjustStep(code, s, up, 127);
      var t := s.(pc := s.pc + 2, sp := if up then s.sp + 4 * 127 else s.sp - 4 * 127);
      AdjustRuns(code, t, up, words - 127);
      ReachesStep(code, s, t, end);
    }
  }

  lemma AdjustStep(code: seq<Byte>, s: Cpu, up: bool, words: nat)
    requires words < 0x80 && |s.r| == 8 && s.pc >= 0 && s.pc % 2 == 0
    requires CodeAt(code, s.pc, Op16(AdjustOp(up, words)))
    ensures StepCpu(code, s) == Some(s.(pc := s.pc + 2, sp := if up then s.sp + 4 * words else s.sp - 4 * words))
  {
    hide StepCpu, Decode, AdjustOp, Op16, CodeAt;
    StepAt(code, s, AdjustOp(up, words));
    DecodeFrameOps(0, up, words);
  }

  // ----- Pushing

  /** Memory after `push {list, lr}` with the stack pointer at `sp`. */
  function PushedMem(mem: map<int, Word>, sp: int, numLocals: nat, r: seq<Word>, lr: Word): map<int, Word>
    requires |r| == 8
  {
    StoreList(mem, sp - 4 * PushedWords(numLocals), RegList(numLocals), r, 0)[sp - 4 := lr]
  }

  /** The callee-saved registers and the return address above a frame. */
  ghost predicate Holds(mem: map<int, Word>, sp: int, r: seq<Word>, lr: Word)
    requires |r| == 8
  {
    && sp - 20 in mem && mem[sp - 20] == r[4]
    && sp - 16 in mem && mem[sp - 16] == r[5]
    && sp - 12 in mem && mem[sp - 12] == r[6]
    && sp - 8 in mem && mem[sp - 8] == r[7]
    && sp - 4 in mem && mem[sp - 4] == lr
  }

  /** The members of the two register lists. */
  lemma ListBits(list: Byte, k: nat)
    requires (list == 0xf2 || list == 0xfe) && k < 8
    ensures Listed(list, k) <==> k == 1 || k >= 4 || (list == 0xfe && k != 0)
  {
    assert Pow2(0) == 1 && Pow2(1) == 2 && Pow2(2) == 4 && Pow2(3) == 8;
    assert Pow2(4) == 16 && Pow2(5) == 32 && Pow2(6) == 64 && Pow2(7) == 128;
  }

  /** The position of r4-r7 in the two register lists. */
  lemma {:induction false} ListSlots(list: Byte, k: nat, j: nat)
    requires (list == 0xf2 || list == 0xfe) && k <= j <= 8 && j >= 4
    ensures Between(list, k, j) ==
      if k >= 4 then j - k
      else if list == 0xfe then j - (if k == 0 then 1 else k)
      else j - 4 + (if k <= 1 then 1 else 0)
    decreases j - k
  {
    hide Listed;
    if k < j {
      ListBits(list, k);
      ListSlots(list, k + 1, j);
    }
  }

  lemma ListFacts(list: Byte)
    requires list == 0xf2 || list == 0xfe
    ensures Count(list) == (if list == 0xf2 then 5 else 7)
    ensures Listed(list, 4) && Listed(list, 5) && Listed(list, 6) && Listed(list, 7) && !Listed(list, 0)
    ensures var base := if list == 0xf2 then 1 else 3;
            Between(list, 0, 4) == base && Between(list, 0, 5) == base + 1
            && Between(list, 0, 6) == base + 2 && Between(list, 0, 7) == base + 3
  {
    hide Listed, Between;
    ListBits(list, 0); ListBits(list, 4); ListBits(list, 5); ListBits(list, 6); ListBits(list, 7);
    ListSlots(list, 0, 4); ListSlots(list, 0, 5); ListSlots(list, 0, 6); ListSlots(list, 0, 7); ListSlots(list, 0, 8);
  }

  /** After the push, r4-r7 and the return address are just below the old
      stack pointer. */
  lemma PushHolds(mem: map<int, Word>, sp: int, numLocals: nat, r: seq<Word>, lr: Word)
    requires |r| == 8
    ensures Holds(PushedMem(mem, sp, numLocals, r, lr), sp, r, lr)
    ensures AllIn(PushedMem(mem, sp, numLocals, r, lr), sp - 4 * PushedWords(numLocals), PushedWords(numLocals) - 1)
  {
    hide Listed, StoreList, Between;
    ListFacts(RegList(numLocals));
    var list, a := RegList(numLocals), sp - 4 * PushedWords(numLocals);
    StoreListGet(mem, a, list, r, 0, 4, sp - 20);
    StoreListGet(mem, a, list, r, 0, 5, sp - 16);
    StoreListGet(mem, a, list, r, 0, 6, sp - 12);
    StoreListGet(mem, a, list, r, 0, 7, sp - 8);
    PushAllIn(mem, a, list, r, 0, sp - 4, lr);
  }

  lemma {:induction false} PushAllIn(mem: map<int, Word>, a: int, list: Byte, r: seq<Word>, k: nat, top: int, lr: Word)
    requires k <= 8 == |r|
    ensures AllIn(StoreList(mem, a, list, r, k)[top := lr], a, Between(list, k, 8))
    decreases 8 - k
  {
    hide Listed, StoreList, Between;
    StoreListStep(mem, a, list, r, k);
    BetweenNone(list, 8);
    if k < 8 {
      BetweenStep(list, k, 8);
      if Listed(list, k) {
        PushAllIn(mem[a := r[k]], a + 4, list, r, k + 1, top, lr);
        StoreListFrame(mem[a := r[k]], a + 4, list, r, k + 1, a);
      } else {
        PushAllIn(mem, a, list, r, k + 1, top, lr);
      }
    }
  }

  /** The machine just after the entry code. */
  function Entered(s: Cpu, numLocals: nat): Cpu
    requires |s.r| == 8
  {
    s.(pc := s.pc + |EncEntry(numLocals)|,
       sp := s.sp - FrameBytes(numLocals),
       mem := PushedMem(s.mem, s.sp, numLocals, s.r, s.lr))
  }

  lemma PushStep(code: seq<Byte>, s: Cpu, numLocals: nat)
    requires |s.r| == 8 && s.pc >= 0 && s.pc % 2 == 0 && CodeAt(code, s.pc, Op16(PushOp(RegList(numLocals))))
    ensures StepCpu(code, s) == Some(s.(pc := s.pc + 2, sp := s.sp - 4 * PushedWords(numLocals),
                                        mem := PushedMem(s.mem, s.sp, numLocals, s.r, s.lr)))
  {
    hide StepCpu, Decode, PushOp, Op16, CodeAt, StoreList, Between, Listed;
    StepAt(code, s, PushOp(RegList(numLocals)));
    DecodeFrameOps(RegList(numLocals), true, 0);
    ListFacts(RegList(numLocals));
  }

  lemma EntryRuns(code: seq<Byte>, s: Cpu, numLocals: nat)
    requires |s.r| == 8 && s.pc >= 0 && s.pc % 2 == 0 && CodeAt(code, s.pc, EncEntry(numLocals))
    ensures Reaches(code, s, Entered(s, numLocals))
  {
    hide StepCpu, RunCpu, Reaches, CodeAt, PushedMem, AdjustOps, PushOp;
    var push := Op16(PushOp(RegList(numLocals)));
    var adjust := StackAdjust(numLocals);
    CodeAtSplit(code, s.pc, push, if adjust > 0 then AdjustOps(false, adjust) else []);
    PushStep(code, s, numLocals);
    var t := s.(pc := s.pc + 2, sp := s.sp - 4 * PushedWords(numLocals),
                mem := PushedMem(s.mem, s.sp, numLocals, s.r, s.lr));
    if adjust > 0 {
      AdjustRuns(code, t, false, adjust);
    } else {
      ReachesSelf(code, t);
    }
    ReachesStep(code, s, t, Entered(s, numLocals));
  }

  /** The pop: callee-saved registers, return address and stack pointer come
      back, r0 (the return value) is kept. */
  lemma PopStep(code: seq<Byte>, b: Cpu, numLocals: nat, sp: int, r: seq<Word>, lr: Word)
    requires |b.r| == 8 == |r| && b.pc >= 0 && b.pc % 2 == 0
    requires CodeAt(code, b.pc, Op16(PopOp(RegList(numLocals))))
    requires b.sp == sp - 4 * PushedWords(numLocals) && Holds(b.mem, sp, r, lr)
    requires AllIn(b.mem, b.sp, PushedWords(numLocals) - 1)
    ensures StepCpu(code, b).Some?
    ensures Restored(StepCpu(code, b).value, b, sp, r, lr)
  {
    hide StepCpu, Decode, PopOp, Op16, CodeAt, LoadList, Between, Listed, AllIn;
    StepAt(code, b, PopOp(RegList(numLocals)));
    DecodeFrameOps(RegList(numLocals), true, 0);
    ListFacts(RegList(numLocals));
    var list := RegList(numLocals);
    LoadListGet(b.mem, b.sp, list, b.r, 0, 0);
    LoadListGet(b.mem, b.sp, list, b.r, 0, 4);
    LoadListGet(b.mem, b.sp, list, b.r, 0, 5);
    LoadListGet(b.mem, b.sp, list, b.r, 0, 6);
    LoadListGet(b.mem, b.sp, list, b.r, 0, 7);
  }

  /** `u` is back in the caller: `sp`, r4-r7 as in `r`, at the return address. */
  ghost predicate Restored(u: Cpu, b: Cpu, sp: int, r: seq<Word>, lr: Word)
    requires |r| == 8 == |b.r|
  {
    && |u.r| == 8 && u.sp == sp && u.pc == lr - lr % 2 && u.mem == b.mem
    && u.r[0] == b.r[0] && u.r[4] == r[4] && u.r[5] == r[5] && u.r[6] == r[6] && u.r[7] == r[7]
  }

  lemma ExitRuns(code: seq<Byte>, b: Cpu, numLocals: nat, sp: int, r: seq<Word>, lr: Word)
    requires |b.r| == 8 == |r| && b.pc >= 0 && b.pc % 2 == 0
    requires CodeAt(code, b.pc, EncExit(RegList(numLocals), StackAdjust(numLocals)))
    requires b.sp == sp - FrameBytes(numLocals) && Holds(b.mem, sp, r, lr)
    requires AllIn(b.mem, sp - 4 * PushedWords(numLocals), PushedWords(numLocals) - 1)
    ensures exists u :: Reaches(code, b, u) && Restored(u, b, sp, r, lr)
  {
    hide StepCpu, RunCpu, Reaches, CodeAt, AdjustOps, PopOp, Holds, AllIn;
    var pop := Op16(PopOp(RegList(numLocals)));
    var adjust := StackAdjust(numLocals);
    var t := b;
    if adjust > 0 {
      CodeAtSplit(code, b.pc, AdjustOps(true, adjust), pop);
      t := b.(pc := b.pc + |AdjustOps(true, adjust)|, sp := b.sp + 4 * adjust);
      AdjustRuns(code, b, true, adjust);
    } else {
      assert [] + pop == pop;
      ReachesSelf(code, b);
    }
    PopStep(code, t, numLocals, sp, r, lr);
    var u := StepCpu(code, t).value;
    ReachesSelf(code, u);
    ReachesStep(code, t, u, u);
    ReachesTrans(code, b, t, u);
  }

  /** The body of a function left its caller's part of the stack alone: words
      at and above the last local are as the entry code left them. */
  ghost predicate KeepsFrame(t: Cpu, b: Cpu, numLocals: nat) {
    && b.sp == t.sp && |b.r| == 8
    && (forall a :: a in t.mem ==> a in b.mem)
    && (forall a :: a in t.mem && a >= t.sp + 4 * numLocals ==> b.mem[a] == t.mem[a])
  }

  /** Locals 0..numLocals-1 lie inside the frame and below saved r4-r7. */
  lemma LocalsFit(numLocals: nat)
    ensures 4 * numLocals <= FrameBytes(numLocals) - 20
  {
  }

  /** Entry then exit, for every number of locals and every body that only
      writes its locals: the frame is a multiple of 8 bytes, and the caller
      gets back its stack pointer, r4-r7 and control, with r0 as the body left
      it. */
  lemma FrameRestores(code: seq<Byte>, s: Cpu, numLocals: nat, b: Cpu)
    requires |s.r| == 8 && s.pc >= 0 && s.pc % 2 == 0 && CodeAt(code, s.pc, EncEntry(numLocals))
    requires KeepsFrame(Entered(s, numLocals), b, numLocals)
    requires b.pc >= 0 && b.pc % 2 == 0
    requires CodeAt(code, b.pc, EncExit(RegList(numLocals), StackAdjust(numLocals)))
    ensures Reaches(code, s, Entered(s, numLocals))
    ensures (s.sp - Entered(s, numLocals).sp) % 8 == 0
    ensures exists u :: Reaches(code, b, u) && Restored(u, b, s.sp, s.r, s.lr)
  {
    hide Reaches, CodeAt, AdjustOps, PushedMem, StackAdjust, Holds;
    EntryRuns(code, s, numLocals);
    var t := Entered(s, numLocals);
    PushHolds(s.mem, s.sp, numLocals, s.r, s.lr);
    LocalsFit(numLocals);
    HoldsKept(t.mem, b.mem, s.sp, s.r, s.lr);
    AllInKept(t.mem, b.mem, s.sp - 4 * PushedWords(numLocals), PushedWords(numLocals) - 1);
    ExitRuns(code, b, numLocals, s.sp, s.r, s.lr);
  }

  lemma HoldsKept(m: map<int, Word>, m': map<int, Word>, sp: int, r: seq<Word>, lr: Word)
    requires |r| == 8 && Holds(m, sp, r, lr)
    requires forall a :: a in m ==> a in m'
    requires forall a :: a in m && a >= sp - 20 ==> m'[a] == m[a]
    ensures Holds(m', sp, r, lr)
  {
  }

  lemma {:induction false} AllInKept(m: map<int, Word>, m': map<int, Word>, addr: int, n: nat)
    requires AllIn(m, addr, n) && (forall a :: a in m ==> a in m')
    ensures AllIn(m', addr, n)
    decreases n
  {
    if n > 0 {
      AllInKept(m, m', addr + 4, n - 1);
    }
  }
}
