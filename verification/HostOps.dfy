/**
 * The host instructions the translator emits, over RAX, R9, R10, R11, RCX and the flags.
 * A host flag left undefined by an instruction must not be read: reading it is Stuck.
 */
module HostOps {
  import opened Basics
  import opened PowersOfTwo
  import opened Words
  import opened LittleEndian
  import A64

  datatype Register = RAX | R9 | R10 | R11

  /** R10 and RCX may hold the guest-state pointer instead of data; a byte written over it is all that is known. */
  datatype Cell = Pointer | LowByte(byte: Bits) | Data(bits: Word)

  /** BT defines only the carry. */
  datatype Flags = Unknown | CarryOnly(cf: bool) | Known(cf: bool, zf: bool, sf: bool, of: bool)

  datatype Cpu = Cpu(state: A64.State, pc: Word, retired: nat)

  datatype Host = Host(rax: Word, r9: Word, r10: Cell, r11: Word, rcx: Cell, flags: Flags, cpu: Cpu)

  datatype AluOp = Add | Sub | AndOp | OrOp | XorOp

  datatype Cc = CarrySet | CarryClear | Zero | NotZero | Sign | Overflow | Above

  datatype Op =
    | MovImm(dst: Register, value: Word)
    | MovReg(dst: Register, src: Register)
    | LoadZero
    | LoadX(n: nat, wide: bool)
    | LoadSp(wide: bool)
    | StoreX(n: nat)
    | StoreSp
    | Alu(op: AluOp, wide: bool, dst: Register, src: Register)
    | AluImm(op: AluOp, wide: bool, imm: Word)
    | AluRegImm(op: AluOp, dst: Register, imm: Word)
    | CompareR9R10
    | CompareSize(bound: nat)
    | SizeToR10
    | TestByte(mask: nat)
    | MemLoad(bytes: nat, disp: nat)
    | MemStore(bytes: nat, disp: nat)
    | StoreFar
    | LoadThread(t: A64.ThreadRegister)
    | StoreThread(t: A64.ThreadRegister)
    | CompareLevel(level: u32)
    | LoadHcr
    | OrScr
    | MemLoadSigned(bytes: nat, wide: bool)
    | SignExtendRax
    | NotRax(wide: bool)
    | MulRaxR9(wide: bool)
    | ShiftImm(kind: ShiftKind, wide: bool, dst: Register, amount: nat)
    | ShiftCl(kind: ShiftKind, wide: bool)
    | SaveRcx
    | CountFromR9
    | RestoreRcx
    | TestRax
    | BitTest(bit: nat)
    | CompareImm(imm: Word)
    | SetCc(cc: Cc, dst: Register)
    | ZeroExtendByte(dst: Register)
    | LoadPstate
    | AndPstate
    | OrPstate
    | StorePc(src: Register)
    | AddRetired(count: nat)
    | StoreInstruction(word: bv32)
    | Jcc(cc: Cc, rel: nat)
    | Jmp(rel: nat)
    | Ret(status: A64.Status)

  datatype Outcome = Running(h: Host) | Skip(h: Host, rel: nat) | Done(h: Host, status: A64.Status) | Stuck

  // ---------- Arithmetic and flags ----------

  /** The wrapped result with the carry (borrow, for a subtraction) and signed-overflow flags. */
  function Arithmetic(op: AluOp, a: Bits, b: Bits): (r: (Bits, Flags))
    requires |a| == |b| > 0
    ensures |r.0| == |a|
  {
    var m := Pow2(|a|);
    match op
    case Add =>
      var z := FromInt(Val(a) + Val(b), |a|);
      (z, Known(Val(a) + Val(b) >= m, IsZero(z), Msb(z), !InSignedRange(SVal(a) + SVal(b), |a|)))
    case Sub =>
      var z := FromInt(Val(a) - Val(b), |a|);
      (z, Known(Val(a) < Val(b), IsZero(z), Msb(z), !InSignedRange(SVal(a) - SVal(b), |a|)))
    case AndOp => (And(a, b), LogicFlags(And(a, b)))
    case OrOp => (Or(a, b), LogicFlags(Or(a, b)))
    case XorOp => (Xor(a, b), LogicFlags(Xor(a, b)))
  }

  predicate InSignedRange(v: int, n: nat)
    requires n > 0
  {
    v + Pow2(n - 1) >= 0 && v < Pow2(n - 1)
  }

  function LogicFlags(z: Bits): (flags: Flags)
    requires |z| > 0
  {
    Known(false, IsZero(z), Msb(z), false)
  }

  /** Whether the flags a condition reads are defined. */
  predicate Readable(cc: Cc, f: Flags)
  {
    f.Known? || (f.CarryOnly? && (cc.CarrySet? || cc.CarryClear?))
  }

  predicate Holds(cc: Cc, f: Flags)
    requires Readable(cc, f)
  {
    match cc
    case CarrySet => f.cf
    case CarryClear => !f.cf
    case Zero => f.zf
    case NotZero => !f.zf
    case Sign => f.sf
    case Overflow => f.of
    case Above => !f.cf && !f.zf
  }

  // ---------- Registers ----------

  predicate HasData(h: Host, reg: Register)
  {
    reg.R10? ==> h.r10.Data?
  }

  function Get(h: Host, reg: Register): (v: Word)
    requires HasData(h, reg)
  {
    match reg case RAX => h.rax case R9 => h.r9 case R10 => h.r10.bits case R11 => h.r11
  }

  function Set(h: Host, reg: Register, v: Word): (k: Host)
  {
    match reg case RAX => h.(rax := v) case R9 => h.(r9 := v) case R10 => h.(r10 := Data(v)) case R11 => h.(r11 := v)
  }

  /** A 32-bit result clears the upper half of its register. */
  function SetLow(h: Host, reg: Register, v: Bits): (k: Host)
    requires |v| <= 64
  {
    Set(h, reg, Extend(v, 64))
  }

  function SetPstate(h: Host, p: Word): (k: Host)
  {
    h.(cpu := h.cpu.(state := h.cpu.state.(pstate := p)))
  }

  // ---------- One instruction ----------

  /** Moves between registers. */
  function StepMove(op: Op, h: Host): (o: Outcome)
  {
    match op
    case MovImm(dst, value) => Running(Set(h, dst, value))
    case MovReg(dst, src) => if HasData(h, src) then Running(Set(h, dst, Get(h, src))) else Stuck
    case LoadZero => Running(h.(rax := Zeros(64), flags := LogicFlags(Zeros(32))))
    case SignExtendRax => Running(h.(rax := Low(h.rax, 32) + seq(32, i => h.rax[31])))
    case SaveRcx => Running(h.(r10 := h.rcx))
    case CountFromR9 => Running(h.(rcx := Data(Extend(Low(h.r9, 32), 64))))
    case RestoreRcx => Running(h.(rcx := h.r10))
    case _ => Stuck
  }

  /** Arithmetic and logic, which set the flags. */
  function StepArithmetic(op: Op, h: Host): (o: Outcome)
  {
    match op
    case Alu(o, wide, dst, src) =>
      if !HasData(h, dst) || !HasData(h, src) then Stuck else
      var n := A64.Width(wide);
      var r := Arithmetic(o, Low(Get(h, dst), n), Low(Get(h, src), n));
      Running(SetLow(h, dst, r.0).(flags := r.1))
    case AluImm(o, wide, imm) =>
      var n := A64.Width(wide);
      var r := Arithmetic(o, Low(h.rax, n), Low(imm, n));
      Running(SetLow(h, RAX, r.0).(flags := r.1))
    case AluRegImm(o, dst, imm) =>
      if !HasData(h, dst) then Stuck else
      var r := Arithmetic(o, Get(h, dst), imm);
      Running(Set(h, dst, r.0).(flags := r.1))
    case NotRax(wide) => Running(SetLow(h, RAX, Not(Low(h.rax, A64.Width(wide)))))
    case MulRaxR9(wide) =>
      var n := A64.Width(wide);
      var product := SVal(Low(h.rax, n)) * SVal(Low(h.r9, n));
      Running(SetLow(h, RAX, FromInt(product, n)).(flags := Unknown))
    case _ => Stuck
  }

  /** Shifts, which leave the flags undefined. */
  function StepShift(op: Op, h: Host): (o: Outcome)
  {
    match op
    case ShiftImm(kind, wide, dst, amount) =>
      if !HasData(h, dst) then Stuck else
      var n := A64.Width(wide);
      Running(SetLow(h, dst, Shift(kind, Low(Get(h, dst), n), amount % n)).(flags := Unknown))
    case ShiftCl(kind, wide) =>
      if !h.rcx.Data? then Stuck else
      var n := A64.Width(wide);
      var count := Val(Low(h.rcx.bits, 8)) % n;
      Running(SetLow(h, RAX, Shift(kind, Low(h.rax, n), count)).(flags := Unknown))
    case _ => Stuck
  }

  /** Comparisons, and reading flags into registers. */
  function StepFlags(op: Op, h: Host): (o: Outcome)
  {
    match op
    case CompareR9R10 =>
      if !HasData(h, R10) then Stuck else Running(h.(flags := Arithmetic(Sub, h.r9, Get(h, R10)).1))
    case TestByte(mask) => Running(h.(flags := LogicFlags(And(Low(h.rax, 8), FromNat(mask, 8)))))
    case TestRax => Running(h.(flags := LogicFlags(h.rax)))
    case BitTest(bit) => Running(h.(flags := CarryOnly(h.rax[bit % 64])))
    case CompareImm(imm) => Running(h.(flags := Arithmetic(Sub, Low(h.rax, 32), Low(imm, 32)).1))
    case SetCc(cc, dst) =>
      if !Readable(cc, h.flags) then Stuck else
      var byte := [Holds(cc, h.flags)] + Zeros(7);
      if HasData(h, dst) then Running(Set(h, dst, byte + Get(h, dst)[8..])) else Running(h.(r10 := LowByte(byte)))
    case ZeroExtendByte(dst) =>
      if HasData(h, dst) then Running(SetLow(h, dst, Low(Get(h, dst), 8)))
      else if h.r10.LowByte? && |h.r10.byte| <= 64 then Running(h.(r10 := Data(Extend(h.r10.byte, 64))))
      else Stuck
    case _ => Stuck
  }

  predicate IsMove(op: Op)
  {
    op.MovImm? || op.MovReg? || op.LoadZero? || op.SignExtendRax? || op.SaveRcx? || op.CountFromR9? || op.RestoreRcx?
  }

  predicate IsArithmetic(op: Op)
  {
    op.Alu? || op.AluImm? || op.AluRegImm? || op.NotRax? || op.MulRaxR9?
  }

  predicate IsShift(op: Op)
  {
    op.ShiftImm? || op.ShiftCl?
  }

  /** Register-only instructions. */
  function StepData(op: Op, h: Host): (o: Outcome)
  {
    if IsMove(op) then StepMove(op, h)
    else if IsArithmetic(op) then StepArithmetic(op, h)
    else if IsShift(op) then StepShift(op, h)
    else StepFlags(op, h)
  }

  /** Instructions that address guest memory through RDX, or read its size in R8; outside it they are Stuck. */
  function StepMemory(op: Op, h: Host): (o: Outcome)
  {
    var ram := h.cpu.state.ram;
    match op
    case CompareSize(bound) => Running(h.(flags := Arithmetic(Sub, FromNat(|ram|, 64), FromNat(bound, 64)).1))
    case SizeToR10 => Running(h.(r10 := Data(FromNat(|ram|, 64))))
    case MemLoad(bytes, disp) =>
      if bytes > 8 || Val(h.r9) + disp + bytes > |ram| then Stuck
      else Running(h.(rax := Extend(A64.ReadMem(ram, Val(h.r9) + disp, bytes), 64)))
    case MemLoadSigned(bytes, wide) =>
      var n := A64.Width(wide);
      if bytes == 0 || bytes > 4 || Val(h.r9) + bytes > |ram| then Stuck
      else
        var v := A64.ReadMem(ram, Val(h.r9), bytes);
        Running(h.(rax := Extend(v + seq(n - |v|, i => Msb(v)), 64)))
    case MemStore(bytes, disp) =>
      if bytes > 8 || Val(h.r9) + disp + bytes > |ram| then Stuck
      else
        var after := A64.WriteMem(ram, Val(h.r9) + disp, Low(h.rax, 8 * bytes));
        Running(h.(cpu := h.cpu.(state := h.cpu.state.(ram := after))))
    case _ => Stuck
  }

  predicate AddressesMemory(op: Op)
  {
    op.CompareSize? || op.SizeToR10? || op.MemLoad? || op.MemLoadSigned? || op.MemStore?
  }

  /** Instructions that address the guest state: RCX must point to it. */
  function StepState(op: Op, h: Host): (o: Outcome)
  {
    if !h.rcx.Pointer? then Stuck else
    match op
    case LoadX(n, wide) =>
      if n > 30 then Stuck else Running(SetLow(h, RAX, Low(h.cpu.state.x[n], A64.Width(wide))))
    case LoadSp(wide) => Running(SetLow(h, RAX, Low(h.cpu.state.sp, A64.Width(wide))))
    case StoreX(n) =>
      if n > 30 then Stuck
      else Running(h.(cpu := h.cpu.(state := h.cpu.state.(x := h.cpu.state.x[n := h.rax]))))
    case StoreSp => Running(h.(cpu := h.cpu.(state := h.cpu.state.(sp := h.rax))))
    case LoadPstate => Running(SetLow(h, RAX, Low(h.cpu.state.pstate, 32)))
    case AndPstate => Running(SetPstate(h, And(h.cpu.state.pstate, h.r9)).(flags := Unknown))
    case OrPstate => Running(SetPstate(h, Or(h.cpu.state.pstate, h.rax)).(flags := Unknown))
    case StorePc(src) =>
      if !HasData(h, src) then Stuck else Running(h.(cpu := h.cpu.(pc := Get(h, src))))
    case AddRetired(count) =>
      Running(h.(cpu := h.cpu.(retired := (h.cpu.retired + count) % Pow2(64)), flags := Unknown))
    case StoreFar => Running(h.(cpu := h.cpu.(state := h.cpu.state.(far := h.r11))))
    case LoadThread(t) => Running(h.(rax := A64.GetThread(h.cpu.state, t)))
    case StoreThread(t) => Running(h.(cpu := h.cpu.(state := A64.SetThread(h.cpu.state, t, h.rax))))
    case CompareLevel(level) =>
      Running(h.(flags := Arithmetic(Sub, FromNat(h.cpu.state.special.level, 32), FromNat(level, 32)).1))
    case LoadHcr => Running(h.(rax := h.cpu.state.special.hcr))
    case OrScr =>
      var r := Or(h.rax, h.cpu.state.special.scr);
      Running(h.(rax := r, flags := LogicFlags(r)))
    case StoreInstruction(word) => Running(h.(cpu := h.cpu.(state := h.cpu.state.(instruction := word))))
    case _ => Stuck
  }

  predicate AddressesState(op: Op)
  {
    op.LoadX? || op.LoadSp? || op.StoreX? || op.StoreSp? || op.LoadPstate? || op.AndPstate? || op.OrPstate?
    || op.StorePc? || op.AddRetired? || op.StoreInstruction? || op.StoreFar?
    || op.LoadThread? || op.StoreThread? || op.CompareLevel? || op.LoadHcr? || op.OrScr?
  }

  function Step(op: Op, h: Host): (o: Outcome)
  {
    match op
    case Jcc(cc, rel) =>
      if !Readable(cc, h.flags) then Stuck else if Holds(cc, h.flags) then Skip(h, rel) else Running(h)
    case Jmp(rel) => Skip(h, rel)
    case Ret(status) => Done(h, status)
    case _ =>
      if AddressesState(op) then StepState(op, h)
      else if AddressesMemory(op) then StepMemory(op, h)
      else StepData(op, h)
  }

  // ---------- Code ----------

  /** Runs code to its end or to a return; a jump past the end is Stuck. */
  function Run(ops: seq<Op>, h: Host): (o: Outcome)
    ensures !o.Skip?
    decreases |ops|
  {
    if ops == [] then Running(h) else
    match Step(ops[0], h)
    case Running(h') => Run(ops[1..], h')
    case Skip(h', rel) => if rel < |ops| then Run(ops[1 + rel..], h') else Stuck
    case Done(h', status) => Done(h', status)
    case Stuck => Stuck
  }

  /** Code is compositional: what stays inside its own end can be followed by anything. */
  lemma {:induction false} RunAppend(a: seq<Op>, b: seq<Op>, h: Host)
    requires !Run(a, h).Stuck?
    ensures Run(a + b, h) == if Run(a, h).Running? then Run(b, Run(a, h).h) else Run(a, h)
    decreases |a|
  {
    hide Step;
    if a == [] {
      assert a + b == b;
    } else {
      var next := Step(a[0], h);
      if next.Running? {
        assert (a + b)[1..] == a[1..] + b;
        RunAppend(a[1..], b, next.h);
      } else if next.Skip? {
        assert (a + b)[1 + next.rel..] == a[1 + next.rel..] + b;
        RunAppend(a[1 + next.rel..], b, next.h);
      }
    }
  }

  lemma RunNothing(h: Host)
    ensures Run([], h) == Running(h)
  {
  }

  /** One more instruction at the end of code that falls through. */
  lemma RunThen(a: seq<Op>, op: Op, h: Host)
    requires Run(a, h).Running? && !Step(op, Run(a, h).h).Skip?
    ensures Run(a + [op], h) == Step(op, Run(a, h).h)
  {
    hide Step;
    RunAppend(a, [op], h);
    assert [op][1..] == [];
  }

  /** A conditional jump at the front of code. */
  lemma RunJcc(cc: Cc, rel: nat, rest: seq<Op>, h: Host)
    requires Readable(cc, h.flags) && rel <= |rest|
    ensures Run([Jcc(cc, rel)] + rest, h) == if Holds(cc, h.flags) then Run(rest[rel..], h) else Run(rest, h)
  {
    hide StepData, StepState, StepMemory;
    var ops := [Jcc(cc, rel)] + rest;
    assert ops[1..] == rest;
    assert ops[1 + rel..] == rest[rel..];
  }

  lemma RunJmp(rel: nat, rest: seq<Op>, h: Host)
    requires rel <= |rest|
    ensures Run([Jmp(rel)] + rest, h) == Run(rest[rel..], h)
  {
    hide StepData, StepState, StepMemory;
    var ops := [Jmp(rel)] + rest;
    assert ops[1 + rel..] == rest[rel..];
  }
}
