/**
 * Symbolic execution of host code, one instruction at a time: each lemma extends code that
 * is known to take h to k by one instruction and names the new code and the new state.
 */
module HostRuns {
  import opened Words
  import opened A64
  import opened HostOps
  import opened Emission

  /** The code p takes the host from h to k, without returning. */
  predicate Runs(p: seq<Op>, h: Host, k: Host)
  {
    Run(p, h) == Running(k)
  }

  /** The guest state and the pointer to it are as before. */
  predicate SameGuest(k: Host, k': Host)
  {
    k'.rcx == k.rcx && k'.cpu == k.cpu
  }

  lemma Start(h: Host) returns (p: seq<Op>, k: Host)
    ensures p == [] && k == h && Runs(p, h, k)
  {
    p, k := [], h;
  }

  lemma Advance(p: seq<Op>, h: Host, k: Host, op: Op, k': Host)
    requires Runs(p, h, k) && Step(op, k) == Running(k')
    ensures Runs(p + [op], h, k')
  {
    RunThen(p, op, h);
  }

  lemma Imm(p: seq<Op>, h: Host, k: Host, dst: Register, value: Word) returns (p': seq<Op>, k': Host)
    requires Runs(p, h, k)
    ensures p' == p + [MovImm(dst, value)] && k' == Set(k, dst, value) && Runs(p', h, k')
  {
    hide StepState, StepMemory, StepArithmetic, StepShift, StepFlags;
    hide Runs;
    p', k' := p + [MovImm(dst, value)], Set(k, dst, value);
    Advance(p, h, k, MovImm(dst, value), k');
  }

  lemma Mov(p: seq<Op>, h: Host, k: Host, dst: Register, src: Register) returns (p': seq<Op>, k': Host)
    requires Runs(p, h, k) && HasData(k, src)
    ensures p' == p + [MovReg(dst, src)] && k' == Set(k, dst, Get(k, src)) && Runs(p', h, k')
  {
    hide StepState, StepMemory, StepArithmetic, StepShift, StepFlags;
    hide Runs;
    p', k' := p + [MovReg(dst, src)], Set(k, dst, Get(k, src));
    Advance(p, h, k, MovReg(dst, src), k');
  }

  /** The scratch copy of a first operand. */
  lemma CopyToR9(p: seq<Op>, h: Host, k: Host) returns (p': seq<Op>, k': Host)
    requires Runs(p, h, k)
    ensures p' == p + [MovReg(R9, RAX)] && Runs(p', h, k')
    ensures k'.r9 == k.rax && k'.rax == k.rax && k'.rcx == k.rcx && k'.cpu == k.cpu && k'.flags == k.flags
  {
    hide Runs, Step;
    p', k' := Mov(p, h, k, R9, RAX);
  }

  function Operand(h: Host, n: nat, sp: bool, wide: bool): (v: Bits)
    requires n < 32
    ensures |v| == Width(wide)
  {
    if sp then XSP(h.cpu.state, n, wide) else X(h.cpu.state, n, wide)
  }

  function Loaded(h: Host, n: nat, sp: bool, wide: bool): (k: Host)
    requires n < 32
  {
    h.(rax := Extend(Operand(h, n, sp, wide), 64),
       flags := if n == 31 && !sp then HostOps.LogicFlags(Zeros(32)) else h.flags)
  }

  /** Nothing but RAX and the flags differs. */
  predicate SameButResult(k: Host, k': Host)
  {
    k'.r9 == k.r9 && k'.r10 == k.r10 && k'.r11 == k.r11 && k'.rcx == k.rcx && k'.cpu == k.cpu
  }

  lemma LoadOperand(p: seq<Op>, h: Host, k: Host, n: nat, sp: bool, wide: bool) returns (p': seq<Op>, k': Host)
    requires Runs(p, h, k) && n < 32 && k.rcx.Pointer?
    ensures p' == p + Load(n, sp, wide) && Runs(p', h, k')
    ensures k'.rax == Extend(Operand(k, n, sp, wide), 64) && SameButResult(k, k')
  {
    hide Runs;
    p', k' := p + Load(n, sp, wide), Loaded(k, n, sp, wide);
    if n == 31 && !sp {
      assert Extend(Zeros(Width(wide)), 64) == Zeros(64);
    }
    Advance(p, h, k, Load(n, sp, wide)[0], k');
  }

  function Saved(h: Host, n: nat, sp: bool, v: Bits): (k: Host)
    requires n < 32 && |v| <= 64
  {
    h.(cpu := h.cpu.(state := if sp then SetXSP(h.cpu.state, n, v) else SetX(h.cpu.state, n, v)))
  }

  /** Storing a zero-extended result is the architecture's register write. */
  lemma SaveResult(p: seq<Op>, h: Host, k: Host, n: nat, sp: bool, v: Bits) returns (p': seq<Op>, k': Host)
    requires Runs(p, h, k) && n < 32 && k.rcx.Pointer? && |v| <= 64 && k.rax == Extend(v, 64)
    ensures p' == p + Save(n, sp) && k' == Saved(k, n, sp, v) && Runs(p', h, k')
  {
    hide Runs;
    p', k' := p + Save(n, sp), Saved(k, n, sp, v);
    if n == 31 && !sp {
      assert p' == p;
    } else {
      Advance(p, h, k, Save(n, sp)[0], k');
    }
  }

  /** An ALU instruction on two operands of the working width. */
  lemma Compute(p: seq<Op>, h: Host, k: Host, op: AluOp, wide: bool, src: Register, a: Bits, b: Bits)
    returns (p': seq<Op>, k': Host)
    requires Runs(p, h, k) && HasData(k, src) && |a| == |b| == Width(wide)
    requires Low(k.rax, Width(wide)) == a && Low(Get(k, src), Width(wide)) == b
    ensures p' == p + [Alu(op, wide, RAX, src)] && Runs(p', h, k')
    ensures k'.rax == Extend(Arithmetic(op, a, b).0, 64) && k'.flags == Arithmetic(op, a, b).1 && SameButResult(k, k')
  {
    hide StepState, StepMemory, StepMove, StepShift, StepFlags;
    hide Runs, Arithmetic, Extend, Low;
    var r := Arithmetic(op, a, b);
    p', k' := p + [Alu(op, wide, RAX, src)], k.(rax := Extend(r.0, 64), flags := r.1);
    Advance(p, h, k, Alu(op, wide, RAX, src), k');
  }

  lemma ComputeImm(p: seq<Op>, h: Host, k: Host, op: AluOp, wide: bool, imm: Word, a: Bits)
    returns (p': seq<Op>, k': Host)
    requires Runs(p, h, k) && |a| == Width(wide) && Low(k.rax, Width(wide)) == a
    ensures p' == p + [AluImm(op, wide, imm)] && Runs(p', h, k')
    ensures var r := Arithmetic(op, a, Low(imm, Width(wide)));
      k'.rax == Extend(r.0, 64) && k'.flags == r.1 && SameButResult(k, k')
  {
    hide StepState, StepMemory, StepMove, StepShift, StepFlags;
    hide Runs, Arithmetic, Extend, Low;
    var r := Arithmetic(op, a, Low(imm, Width(wide)));
    p', k' := p + [AluImm(op, wide, imm)], k.(rax := Extend(r.0, 64), flags := r.1);
    Advance(p, h, k, AluImm(op, wide, imm), k');
  }

  lemma Invert(p: seq<Op>, h: Host, k: Host, wide: bool, a: Bits) returns (p': seq<Op>, k': Host)
    requires Runs(p, h, k) && |a| == Width(wide) && Low(k.rax, Width(wide)) == a
    ensures p' == p + [NotRax(wide)] && Runs(p', h, k')
    ensures k'.rax == Extend(Not(a), 64) && SameButResult(k, k')
  {
    hide StepState, StepMemory, StepMove, StepShift, StepFlags;
    hide Runs, Extend, Low, Not;
    p', k' := p + [NotRax(wide)], k.(rax := Extend(Not(a), 64));
    Advance(p, h, k, NotRax(wide), k');
  }

  lemma Multiply(p: seq<Op>, h: Host, k: Host, wide: bool, a: Bits, b: Bits) returns (p': seq<Op>, k': Host)
    requires Runs(p, h, k) && |a| == |b| == Width(wide)
    requires Low(k.rax, Width(wide)) == a && Low(k.r9, Width(wide)) == b
    ensures p' == p + [MulRaxR9(wide)] && Runs(p', h, k')
    ensures k'.rax == Extend(FromInt(SVal(a) * SVal(b), Width(wide)), 64) && SameButResult(k, k')
  {
    hide StepState, StepMemory, StepMove, StepShift, StepFlags;
    hide Runs, Extend, Low, FromInt, SVal;
    p' := p + [MulRaxR9(wide)];
    k' := k.(rax := Extend(FromInt(SVal(a) * SVal(b), Width(wide)), 64), flags := Unknown);
    Advance(p, h, k, MulRaxR9(wide), k');
  }

  /** A shift of RAX in place. */
  lemma ShiftRax(p: seq<Op>, h: Host, k: Host, kind: ShiftKind, wide: bool, amount: nat, a: Bits)
    returns (p': seq<Op>, k': Host)
    requires Runs(p, h, k) && |a| == Width(wide) && amount < |a| && Low(k.rax, Width(wide)) == a
    ensures p' == p + [ShiftImm(kind, wide, RAX, amount)] && Runs(p', h, k')
    ensures k'.rax == Extend(Shift(kind, a, amount), 64) && SameButResult(k, k')
  {
    hide Runs, Extend, Low, Shift, Step;
    p', k' := ShiftBy(p, h, k, kind, wide, RAX, amount, a);
  }

  lemma ShiftBy(p: seq<Op>, h: Host, k: Host, kind: ShiftKind, wide: bool, dst: Register, amount: nat, a: Bits)
    returns (p': seq<Op>, k': Host)
    requires Runs(p, h, k) && HasData(k, dst) && |a| == Width(wide) && amount < |a|
    requires Low(Get(k, dst), Width(wide)) == a
    ensures p' == p + [ShiftImm(kind, wide, dst, amount)] && Runs(p', h, k')
    ensures k' == Set(k, dst, Extend(Shift(kind, a, amount), 64)).(flags := Unknown)
  {
    hide StepState, StepMemory, StepMove, StepArithmetic, StepFlags;
    hide Runs, Extend, Low, Shift;
    p' := p + [ShiftImm(kind, wide, dst, amount)];
    k' := Set(k, dst, Extend(Shift(kind, a, amount), 64)).(flags := Unknown);
    Advance(p, h, k, ShiftImm(kind, wide, dst, amount), k');
  }

  /** Any other instruction: the caller names its effect. */
  lemma Do(p: seq<Op>, h: Host, k: Host, op: Op, k': Host) returns (p': seq<Op>)
    requires Runs(p, h, k) && Step(op, k) == Running(k')
    ensures p' == p + [op] && Runs(p', h, k')
  {
    p' := p + [op];
    Advance(p, h, k, op, k');
  }

  /** The usual two operands: the second in R9, the first in RAX. */
  lemma LoadPair(p: seq<Op>, h: Host, k: Host, m: nat, n: nat, sp: bool, wide: bool) returns (p': seq<Op>, k': Host)
    requires Runs(p, h, k) && m < 32 && n < 32 && k.rcx.Pointer?
    ensures p' == p + Load(m, false, wide) + [MovReg(R9, RAX)] + Load(n, sp, wide) && Runs(p', h, k')
    ensures k'.rax == Extend(Operand(k, n, sp, wide), 64) && k'.r9 == Extend(Operand(k, m, false, wide), 64)
    ensures k'.rcx.Pointer? && k'.cpu == k.cpu
  {
    hide Runs, Extend, Step, X, XSP, Load;
    p', k' := LoadOperand(p, h, k, m, false, wide);
    p', k' := CopyToR9(p', h, k');
    p', k' := LoadOperand(p', h, k', n, sp, wide);
  }

  lemma ShiftByNothing(kind: ShiftKind, x: Bits)
    requires |x| > 0
    ensures Shift(kind, x, 0) == x
  {
    assert Shift(kind, x, 0) == x;
  }

  /** A shift that is emitted only when its amount is not zero. */
  lemma ShiftIfAny(p: seq<Op>, h: Host, k: Host, kind: ShiftKind, wide: bool, amount: nat, a: Bits)
    returns (p': seq<Op>, k': Host)
    requires Runs(p, h, k) && |a| == Width(wide) && amount < |a| && k.rax == Extend(a, 64)
    ensures p' == p + (if amount > 0 then [ShiftImm(kind, wide, RAX, amount)] else []) && Runs(p', h, k')
    ensures k'.rax == Extend(Shift(kind, a, amount), 64) && SameButResult(k, k')
  {
    hide Runs, Extend, Low, Shift, Step;
    if amount > 0 {
      LowExtend(a, 64);
      p', k' := ShiftRax(p, h, k, kind, wide, amount, a);
    } else {
      ShiftByNothing(kind, a);
      p', k' := p, k;
      assert p + [] == p;
    }
  }
}
