/** The ARMv6-M instructions that the Thumb generators of py/asmthumb.c emit,
    read back from code bytes as section A5.2 of the ARMv6-M Architecture
    Reference Manual lays them out.  Code sits at a 4-byte aligned base that is
    address 0 here; data memory is a separate map of aligned words. */
module ThumbCpu {
  import opened Bits
  import opened Bytes
  import opened Wrappers

  const TWO32: int := 0x1_0000_0000
  const TWO31: int := 0x8000_0000

  type Word = w: int | 0 <= w < TWO32
  type Lo = r: nat | r < 8
  type Cond = c: nat | c < 14

  datatype Flags = Flags(n: bool, z: bool, c: bool, v: bool)

  /** Low registers, stack pointer, link register, program counter. */
  datatype Cpu = Cpu(r: seq<Word>, sp: int, lr: Word, pc: int, flags: Flags, mem: map<int, Word>)

  datatype Instr =
    | LslImm(rd: Lo, rm: Lo, shift: nat)
    | MovImm(rd: Lo, imm: Byte)
    | AddImm(rd: Lo, imm: Byte)
    | Neg(rd: Lo, rm: Lo)
    | AddPc(rd: Lo)
    | LdrLiteral(rd: Lo, words: nat)
    | AddSp(words: nat)
    | SubSp(words: nat)
    | Sxth(rd: Lo, rm: Lo)
    | Push(list: Byte, withLr: bool)
    | Pop(list: Byte, withPc: bool)
    | Nop
    | CondBranch(cond: Cond, disp: int)
    | Jump(disp: int)
    | Undefined

  function SignExtend(x: nat, modulus: nat): int {
    if 2 * x < modulus then x else x - modulus
  }

  function Decode(h: nat): Instr {
    if h < 0x0800 then LslImm(h % 8, h / 8 % 8, h / 0x40)
    else if 0x2000 <= h < 0x2800 then MovImm(h / 0x100 % 8, h % 0x100)
    else if 0x3000 <= h < 0x3800 then AddImm(h / 0x100 % 8, h % 0x100)
    else if 0x4240 <= h < 0x4280 then Neg(h % 8, h / 8 % 8)
    else if 0x4478 <= h < 0x4480 then AddPc(h % 8)
    else if 0x4800 <= h < 0x5000 then LdrLiteral(h / 0x100 % 8, h % 0x100)
    else if 0xb000 <= h < 0xb080 then AddSp(h % 0x80)
    else if 0xb080 <= h < 0xb100 then SubSp(h % 0x80)
    else if 0xb200 <= h < 0xb240 then Sxth(h % 8, h / 8 % 8)
    else if 0xb400 <= h < 0xb600 then Push(h % 0x100, h >= 0xb500)
    else if 0xbc00 <= h < 0xbe00 then Pop(h % 0x100, h >= 0xbd00)
    else if h == 0xbf00 then Nop
    else if 0xd000 <= h < 0xde00 then CondBranch(h / 0x100 - 0xd0, 2 * SignExtend(h % 0x100, 0x100))
    else if 0xe000 <= h < 0xe800 then Jump(2 * SignExtend(h % 0x800, 0x800))
    else Undefined
  }

  predicate CondHolds(cond: Cond, f: Flags) {
    var base := match cond / 2
      case 0 => f.z
      case 1 => f.c
      case 2 => f.n
      case 3 => f.v
      case 4 => f.c && !f.z
      case 5 => f.n == f.v
      case _ => f.n == f.v && !f.z;
    if cond % 2 == 0 then base else !base
  }

  function NZ(f: Flags, w: Word): Flags {
    f.(n := w >= TWO31, z := w == 0)
  }

  predicate Listed(list: Byte, k: nat) {
    list / Pow2(k) % 2 == 1
  }

  /** Number of listed registers in k..j-1. */
  function Between(list: Byte, k: nat, j: nat): (n: nat)
    requires k <= j
    ensures n <= j - k
    decreases j - k
  {
    if k == j then 0 else (if Listed(list, k) then 1 else 0) + Between(list, k + 1, j)
  }

  function Count(list: Byte): nat {
    Between(list, 0, 8)
  }

  /** Store the listed registers upward from `addr`, lowest register first. */
  function StoreList(mem: map<int, Word>, addr: int, list: Byte, r: seq<Word>, k: nat): map<int, Word>
    requires k <= 8 == |r|
    decreases 8 - k
  {
    if k == 8 then mem
    else if Listed(list, k) then StoreList(mem[addr := r[k]], addr + 4, list, r, k + 1)
    else StoreList(mem, addr, list, r, k + 1)
  }

  function LoadList(mem: map<int, Word>, addr: int, list: Byte, r: seq<Word>, k: nat): (o: Option<seq<Word>>)
    requires k <= 8 == |r|
    ensures o.Some? ==> |o.value| == 8
    decreases 8 - k
  {
    if k == 8 then Some(r)
    else if Listed(list, k) then
      if addr in mem then LoadList(mem, addr + 4, list, r[k := mem[addr]], k + 1) else None
    else LoadList(mem, addr, list, r, k + 1)
  }

  lemma StoreListStep(mem: map<int, Word>, addr: int, list: Byte, r: seq<Word>, k: nat)
    requires k <= 8 == |r|
    ensures StoreList(mem, addr, list, r, k)
      == if k == 8 then mem
         else if Listed(list, k) then StoreList(mem[addr := r[k]], addr + 4, list, r, k + 1)
         else StoreList(mem, addr, list, r, k + 1)
  {
  }

  /** A push leaves memory outside its words alone. */
  lemma {:induction false} StoreListFrame(mem: map<int, Word>, addr: int, list: Byte, r: seq<Word>, k: nat, a: int)
    requires k <= 8 == |r|
    ensures var m := StoreList(mem, addr, list, r, k);
      && (a in mem ==> a in m)
      && (a < addr || a >= addr + 4 * Between(list, k, 8) ==> (a in m <==> a in mem) && (a in mem ==> m[a] == mem[a]))
    decreases 8 - k
  {
    hide Listed, Between, StoreList;
    StoreListStep(mem, addr, list, r, k);
    if k < 8 {
      BetweenStep(list, k, 8);
      if Listed(list, k) {
        StoreListFrame(mem[addr := r[k]], addr + 4, list, r, k + 1, a);
      } else {
        StoreListFrame(mem, addr, list, r, k + 1, a);
      }
    }
  }

  /** Where a push puts register `j`. */
  lemma {:induction false} StoreListGet(
      mem: map<int, Word>, addr: int, list: Byte, r: seq<Word>, k: nat, j: nat, at: int)
    requires k <= j < 8 == |r| && Listed(list, j) && at == addr + 4 * Between(list, k, j)
    ensures at in StoreList(mem, addr, list, r, k) && StoreList(mem, addr, list, r, k)[at] == r[j]
    decreases 8 - k
  {
    hide Listed, Between, StoreList;
    BetweenNone(list, k);
    if k < j {
      BetweenStep(list, k, j);
    }
    StoreListStep(mem, addr, list, r, k);
    if k == j {
      StoreListFrame(mem[addr := r[k]], addr + 4, list, r, k + 1, addr);
    } else if Listed(list, k) {
      StoreListGet(mem[addr := r[k]], addr + 4, list, r, k + 1, j, at);
    } else {
      StoreListGet(mem, addr, list, r, k + 1, j, at);
    }
  }

  ghost predicate AllIn(mem: map<int, Word>, addr: int, n: nat)
    decreases n
  {
    n == 0 || (addr in mem && AllIn(mem, addr + 4, n - 1))
  }

  /** A pop succeeds when its words are there, and reads register `j` from the
      word where a push of the same list put it. */
  lemma {:induction false} LoadListGet(mem: map<int, Word>, addr: int, list: Byte, r: seq<Word>, k: nat, j: nat)
    requires k <= 8 == |r| && j < 8 && AllIn(mem, addr, Between(list, k, 8))
    ensures LoadList(mem, addr, list, r, k).Some?
    ensures var q := LoadList(mem, addr, list, r, k).value;
      if j < k || !Listed(list, j) then q[j] == r[j]
      else addr + 4 * Between(list, k, j) in mem && q[j] == mem[addr + 4 * Between(list, k, j)]
    decreases 8 - k
  {
    hide Listed, Between;
    if k < 8 {
      BetweenStep(list, k, 8);
      if k < j {
        BetweenStep(list, k, j);
      }
      BetweenNone(list, k);
      if Listed(list, k) {
        LoadListGet(mem, addr + 4, list, r[k := mem[addr]], k + 1, j);
      } else {
        LoadListGet(mem, addr, list, r, k + 1, j);
      }
    }
  }

  lemma BetweenStep(list: Byte, k: nat, j: nat)
    requires k < j
    ensures Between(list, k, j) == (if Listed(list, k) then 1 else 0) + Between(list, k + 1, j)
  {
  }

  lemma BetweenNone(list: Byte, k: nat)
    ensures Between(list, k, k) == 0
  {
  }

  function Half(code: seq<Byte>, at: nat): nat
    requires at + 2 <= |code|
  {
    code[at] as int + code[at + 1] as int * 0x100
  }

  function Execute(i: Instr, code: seq<Byte>, s: Cpu): Option<Cpu>
    requires |s.r| == 8
  {
    var t := s.(pc := s.pc + 2);
    match i
    case LslImm(rd, rm, shift) =>
      var w: Word := s.r[rm] * Pow2(shift) % TWO32;
      Some(t.(r := s.r[rd := w],
              flags := NZ(s.flags, w).(c := if shift == 0 then s.flags.c else s.r[rm] * Pow2(shift) / TWO32 % 2 == 1)))
    case MovImm(rd, imm) => Some(t.(r := s.r[rd := imm], flags := NZ(s.flags, imm)))
    case AddImm(rd, imm) =>
      var sum := s.r[rd] as int + imm;
      var w: Word := sum % TWO32;
      Some(t.(r := s.r[rd := w], flags := NZ(s.flags, w).(c := sum >= TWO32, v := s.r[rd] < TWO31 <= sum < TWO32)))
    case Neg(rd, rm) =>
      var w: Word := (0 - s.r[rm] as int) % TWO32;
      Some(t.(r := s.r[rd := w], flags := NZ(s.flags, w).(c := s.r[rm] == 0, v := s.r[rm] == TWO31)))
    case AddPc(rd) =>
      var w: Word := (s.r[rd] as int + s.pc + 4) % TWO32;
      Some(t.(r := s.r[rd := w]))
    case LdrLiteral(rd, words) =>
      var at := (s.pc + 4) / 4 * 4 + words * 4;
      if 0 <= at && at + 4 <= |code| then
        var w: Word := Half(code, at) + 0x1_0000 * Half(code, at + 2);
        Some(t.(r := s.r[rd := w]))
      else None
    case AddSp(words) => Some(t.(sp := s.sp + 4 * words))
    case SubSp(words) => Some(t.(sp := s.sp - 4 * words))
    case Sxth(rd, rm) =>
      var w: Word := SignExtend(s.r[rm] % 0x1_0000, 0x1_0000) % TWO32;
      Some(t.(r := s.r[rd := w]))
    case Push(list, withLr) =>
      var bottom := s.sp - 4 * (Count(list) + if withLr then 1 else 0);
      var m := StoreList(s.mem, bottom, list, s.r, 0);
      Some(t.(sp := bottom, mem := if withLr then m[s.sp - 4 := s.lr] else m))
    case Pop(list, withPc) =>
      var top := s.sp + 4 * Count(list);
      match LoadList(s.mem, s.sp, list, s.r, 0) {
        case None => None
        case Some(r) =>
          if !withPc then Some(t.(sp := top, r := r))
          else if top in s.mem then Some(t.(sp := top + 4, r := r, pc := s.mem[top] - s.mem[top] % 2))
          else None
      }
    case Nop => Some(t)
    case CondBranch(cond, disp) =>
      Some(if CondHolds(cond, s.flags) then s.(pc := s.pc + 4 + disp) else t)
    case Jump(disp) => Some(s.(pc := s.pc + 4 + disp))
    case Undefined => None
  }

  function StepCpu(code: seq<Byte>, s: Cpu): Option<Cpu>
    requires |s.r| == 8
  {
    if s.pc < 0 || s.pc % 2 != 0 || s.pc + 2 > |code| then None
    else Execute(Decode(Half(code, s.pc)), code, s)
  }

  function RunCpu(code: seq<Byte>, s: Cpu, n: nat): Option<Cpu>
    requires |s.r| == 8
    decreases n
  {
    if n == 0 then Some(s)
    else match StepCpu(code, s)
      case None => None
      case Some(t) => if |t.r| == 8 then RunCpu(code, t, n - 1) else None
  }

  /** Executing the code from `s` arrives at `t`. */
  ghost predicate Reaches(code: seq<Byte>, s: Cpu, t: Cpu) {
    |s.r| == 8 && exists n: nat :: RunCpu(code, s, n) == Some(t)
  }

  lemma ReachesSelf(code: seq<Byte>, s: Cpu)
    requires |s.r| == 8
    ensures Reaches(code, s, s)
  {
    assert RunCpu(code, s, 0) == Some(s);
  }

  /** One more instruction in front. */
  lemma ReachesStep(code: seq<Byte>, s: Cpu, t: Cpu, u: Cpu)
    requires |s.r| == 8 && |t.r| == 8 && StepCpu(code, s) == Some(t) && Reaches(code, t, u)
    ensures Reaches(code, s, u)
  {
    var n: nat :| RunCpu(code, t, n) == Some(u);
    assert RunCpu(code, s, n + 1) == Some(u);
  }

  lemma {:induction false} RunCpuAppend(code: seq<Byte>, s: Cpu, n: nat, m: nat)
    requires |s.r| == 8 && RunCpu(code, s, n).Some? && |RunCpu(code, s, n).value.r| == 8
    ensures RunCpu(code, s, n + m) == RunCpu(code, RunCpu(code, s, n).value, m)
    decreases n
  {
    hide StepCpu;
    if n > 0 {
      RunCpuAppend(code, StepCpu(code, s).value, n - 1, m);
    }
  }

  lemma ReachesTrans(code: seq<Byte>, s: Cpu, t: Cpu, u: Cpu)
    requires |t.r| == 8 && Reaches(code, s, t) && Reaches(code, t, u)
    ensures Reaches(code, s, u)
  {
    var n: nat :| RunCpu(code, s, n) == Some(t);
    var m: nat :| RunCpu(code, t, m) == Some(u);
    RunCpuAppend(code, s, n, m);
    assert RunCpu(code, s, n + m) == Some(u);
  }
}
