/** Committing host flags to the guest's condition flags (save_arithmetic_flags). */
module FlagSaving {
  import opened Words
  import opened A64
  import opened HostOps
  import opened Emission
  import opened HostRuns

  /** The low byte of a register holds one flag. */
  predicate HoldsFlag(h: Host, reg: Register, b: bool)
  {
    if HasData(h, reg) then Low(Get(h, reg), 8) == [b] + Zeros(7)
    else h.r10 == LowByte([b] + Zeros(7))
  }

  lemma SetFlagByte(p: seq<Op>, h: Host, k: Host, cc: Cc, dst: Register) returns (p': seq<Op>, k': Host)
    requires Runs(p, h, k) && k.flags.Known?
    ensures p' == p + [SetCc(cc, dst)] && Runs(p', h, k')
    ensures HoldsFlag(k', dst, Holds(cc, k.flags)) && k'.flags == k.flags && SameGuest(k, k')
    ensures !dst.R9? ==> k'.r9 == k.r9
    ensures !dst.R10? ==> k'.r10 == k.r10
    ensures !dst.R11? ==> k'.r11 == k.r11
  {
    hide StepState, StepMemory, StepMove, StepArithmetic, StepShift;
    hide Runs;
    var byte := [Holds(cc, k.flags)] + Zeros(7);
    k' := if HasData(k, dst) then Set(k, dst, byte + Get(k, dst)[8..]) else k.(r10 := LowByte(byte));
    p' := Do(p, h, k, SetCc(cc, dst), k');
    if HasData(k, dst) {
      assert Low(byte + Get(k, dst)[8..], 8) == byte;
    }
  }

  lemma WidenFlagByte(p: seq<Op>, h: Host, k: Host, dst: Register, b: bool) returns (p': seq<Op>, k': Host)
    requires Runs(p, h, k) && HoldsFlag(k, dst, b)
    ensures p' == p + [ZeroExtendByte(dst)] && Runs(p', h, k')
    ensures k' == Set(k, dst, Extend([b], 64))
  {
    hide StepState, StepMemory, StepMove, StepArithmetic, StepShift;
    hide Runs;
    k' := Set(k, dst, Extend([b], 64));
    assert Extend([b] + Zeros(7), 64) == Extend([b], 64);
    p' := Do(p, h, k, ZeroExtendByte(dst), k');
  }

  /** The four registers hold N, Z, C and V as single bits. */
  predicate HoldsNzcv(k: Host, f: Nzcv)
  {
    && k.r9 == Extend([f.n], 64)
    && k.r10 == Data(Extend([f.z], 64))
    && k.r11 == Extend([f.c], 64)
    && k.rax == Extend([f.v], 64)
  }

  /** What the host flags must be for the guest flags to be f: the carry is inverted on subtraction. */
  predicate HostFlagsMean(flags: Flags, subtract: bool, f: Nzcv)
  {
    flags == Known(if subtract then !f.c else f.c, f.z, f.n, f.v)
  }

  /** The four flags, each in the low byte of its register. */
  predicate HoldsBytes(k: Host, f: Nzcv)
  {
    HoldsFlag(k, R9, f.n) && HoldsFlag(k, R10, f.z) && HoldsFlag(k, R11, f.c) && HoldsFlag(k, RAX, f.v)
  }

  lemma SetFlagBytes(p: seq<Op>, h: Host, k: Host, subtract: bool, f: Nzcv) returns (p': seq<Op>, k': Host)
    requires Runs(p, h, k) && HostFlagsMean(k.flags, subtract, f)
    ensures p' == p + [SetCc(Sign, R9)] + [SetCc(Zero, R10)] + [SetCc(if subtract then CarryClear else CarrySet, R11)]
      + [SetCc(Overflow, RAX)]
    ensures Runs(p', h, k') && HoldsBytes(k', f) && SameGuest(k, k')
  {
    hide Runs, Step, HoldsFlag;
    p', k' := SetFlagByte(p, h, k, Sign, R9);
    var k1 := k';
    p', k' := SetFlagByte(p', h, k', Zero, R10);
    HoldsFlagKept(k1, k', R9, f.n);
    var k2 := k';
    p', k' := SetFlagByte(p', h, k', if subtract then CarryClear else CarrySet, R11);
    HoldsFlagKept(k2, k', R9, f.n);
    HoldsFlagKept(k2, k', R10, f.z);
    var k3 := k';
    p', k' := SetFlagByte(p', h, k', Overflow, RAX);
    HoldsFlagKept(k3, k', R9, f.n);
    HoldsFlagKept(k3, k', R10, f.z);
    HoldsFlagKept(k3, k', R11, f.c);
  }

  lemma WidenFlagBytes(p: seq<Op>, h: Host, k: Host, f: Nzcv) returns (p': seq<Op>, k': Host)
    requires Runs(p, h, k) && HoldsBytes(k, f)
    ensures p' == p + [ZeroExtendByte(R9)] + [ZeroExtendByte(R10)] + [ZeroExtendByte(R11)] + [ZeroExtendByte(RAX)]
    ensures Runs(p', h, k') && HoldsNzcv(k', f) && SameGuest(k, k')
  {
    hide Runs, Step, HoldsFlag, Extend;
    p', k' := WidenFlagByte(p, h, k, R9, f.n);
    HoldsFlagKept(k, k', R10, f.z);
    p', k' := WidenFlagByte(p', h, k', R10, f.z);
    HoldsFlagKept(k, k', R11, f.c);
    p', k' := WidenFlagByte(p', h, k', R11, f.c);
    HoldsFlagKept(k, k', RAX, f.v);
    p', k' := WidenFlagByte(p', h, k', RAX, f.v);
  }

  lemma CaptureRuns(p: seq<Op>, h: Host, k: Host, subtract: bool, f: Nzcv) returns (p': seq<Op>, k': Host)
    requires Runs(p, h, k) && HostFlagsMean(k.flags, subtract, f)
    ensures p' == p + CaptureFlags(subtract) && Runs(p', h, k')
    ensures HoldsNzcv(k', f) && SameGuest(k, k')
  {
    hide Runs, Step, HoldsBytes, HoldsNzcv, HostFlagsMean;
    p', k' := SetFlagBytes(p, h, k, subtract, f);
    p', k' := WidenFlagBytes(p', h, k', f);
    assert p' == p + CaptureFlags(subtract);
  }

  lemma HoldsFlagKept(k: Host, k': Host, reg: Register, b: bool)
    requires HoldsFlag(k, reg, b)
    requires match reg case RAX => k'.rax == k.rax case R9 => k'.r9 == k.r9 case R10 => k'.r10 == k.r10 case R11 => k'.r11 == k.r11
    ensures HoldsFlag(k', reg, b)
  {
  }

  /** The four flags at their places in the low half of the state word. */
  function FlagWord(f: Nzcv): (w: Bits)
    ensures |w| == 32
  {
    Zeros(28) + [f.v, f.c, f.z, f.n]
  }

  lemma OneBit(b: bool, amount: nat)
    requires amount < 32
    ensures Low(Extend([b], 64), 32) == Extend([b], 32)
    ensures Shift(LSL, Extend([b], 32), amount) == Zeros(amount) + [b] + Zeros(31 - amount)
  {
    assert Low(Extend([b], 64), 32) == Extend([b], 32);
    assert Shift(LSL, Extend([b], 32), amount) == Zeros(amount) + [b] + Zeros(31 - amount);
  }

  lemma FlagsJoin(f: Nzcv)
    ensures var v := Zeros(28) + [f.v] + Zeros(3);
      var n := Zeros(31) + [f.n] + Zeros(0);
      var z := Zeros(30) + [f.z] + Zeros(1);
      var c := Zeros(29) + [f.c] + Zeros(2);
      Or(Or(Or(v, n), z), c) == FlagWord(f)
  {
    var v := Zeros(28) + [f.v] + Zeros(3);
    var n := Zeros(31) + [f.n] + Zeros(0);
    var z := Zeros(30) + [f.z] + Zeros(1);
    var c := Zeros(29) + [f.c] + Zeros(2);
    assert Or(Or(Or(v, n), z), c) == FlagWord(f);
  }

  /** The four flags, each shifted to its own place. */
  predicate HoldsPlaced(k: Host, v: Bits, n: Bits, z: Bits, c: Bits)
  {
    && |v| == |n| == |z| == |c| == 32
    && k.rax == Extend(v, 64) && k.r9 == Extend(n, 64) && k.r10 == Data(Extend(z, 64)) && k.r11 == Extend(c, 64)
  }

  lemma ShiftFlags(p: seq<Op>, h: Host, k: Host, f: Nzcv) returns (p': seq<Op>, k': Host)
    requires Runs(p, h, k) && HoldsNzcv(k, f)
    ensures p' == p + [ShiftImm(LSL, false, R9, 31)] + [ShiftImm(LSL, false, R10, 30)]
                    + [ShiftImm(LSL, false, R11, 29)] + [ShiftImm(LSL, false, RAX, 28)]
    ensures Runs(p', h, k') && SameGuest(k, k')
    ensures HoldsPlaced(k', Zeros(28) + [f.v] + Zeros(3), Zeros(31) + [f.n] + Zeros(0),
                        Zeros(30) + [f.z] + Zeros(1), Zeros(29) + [f.c] + Zeros(2))
  {
    hide Runs, Step, Extend, Low, Shift, Zeros;
    OneBit(f.n, 31);
    p', k' := ShiftBy(p, h, k, LSL, false, R9, 31, Extend([f.n], 32));
    OneBit(f.z, 30);
    p', k' := ShiftBy(p', h, k', LSL, false, R10, 30, Extend([f.z], 32));
    OneBit(f.c, 29);
    p', k' := ShiftBy(p', h, k', LSL, false, R11, 29, Extend([f.c], 32));
    OneBit(f.v, 28);
    p', k' := ShiftBy(p', h, k', LSL, false, RAX, 28, Extend([f.v], 32));
  }

  lemma JoinFlags(p: seq<Op>, h: Host, k: Host, v: Bits, n: Bits, z: Bits, c: Bits) returns (p': seq<Op>, k': Host)
    requires Runs(p, h, k) && HoldsPlaced(k, v, n, z, c)
    ensures p' == p + [Alu(OrOp, false, RAX, R9)] + [Alu(OrOp, false, RAX, R10)] + [Alu(OrOp, false, RAX, R11)]
    ensures Runs(p', h, k') && SameGuest(k, k') && k'.rax == Extend(Or(Or(Or(v, n), z), c), 64)
  {
    hide Runs, Step, Extend, Low, Or;
    LowExtend(v, 64);
    LowExtend(n, 64);
    LowExtend(z, 64);
    LowExtend(c, 64);
    LowExtend(Or(v, n), 64);
    LowExtend(Or(Or(v, n), z), 64);
    p', k' := Compute(p, h, k, OrOp, false, R9, v, n);
    p', k' := Compute(p', h, k', OrOp, false, R10, Or(v, n), z);
    p', k' := Compute(p', h, k', OrOp, false, R11, Or(Or(v, n), z), c);
  }

  lemma PlaceRuns(p: seq<Op>, h: Host, k: Host, f: Nzcv) returns (p': seq<Op>, k': Host)
    requires Runs(p, h, k) && HoldsNzcv(k, f)
    ensures p' == p + PlaceFlags() && Runs(p', h, k')
    ensures k'.rax == Extend(FlagWord(f), 64) && SameGuest(k, k')
  {
    hide Runs, Step, Extend, Zeros, Or, FlagWord, HoldsNzcv, HoldsPlaced;
    p', k' := ShiftFlags(p, h, k, f);
    p', k' := JoinFlags(p', h, k', Zeros(28) + [f.v] + Zeros(3), Zeros(31) + [f.n] + Zeros(0),
                        Zeros(30) + [f.z] + Zeros(1), Zeros(29) + [f.c] + Zeros(2));
    FlagsJoin(f);
    assert p' == p + PlaceFlags();
  }

  /** Clearing the four flags and OR-ing in a flag word replaces exactly those four bits. */
  lemma ReplaceBits(r: State, f: Nzcv)
    ensures Or(And(r.pstate, Not(FlagBits())), Extend(FlagWord(f), 64)) == SetNzcv(r, f).pstate
  {
    var z := Or(And(r.pstate, Not(FlagBits())), Extend(FlagWord(f), 64));
    forall i | 0 <= i < 64 ensures z[i] == SetNzcv(r, f).pstate[i] {
      assert FlagBits()[i] <==> 28 <= i < 32;
    }
  }

  /** One read-modify-write of the guest state word. */
  lemma PstateRuns(p: seq<Op>, h: Host, k: Host, or: bool) returns (p': seq<Op>, k': Host)
    requires Runs(p, h, k) && k.rcx.Pointer?
    ensures p' == p + [if or then OrPstate else AndPstate] && Runs(p', h, k')
    ensures k'.rcx.Pointer? && k'.rax == k.rax
    ensures k'.cpu == k.cpu.(state := k.cpu.state.(pstate :=
      if or then Or(k.cpu.state.pstate, k.rax) else And(k.cpu.state.pstate, k.r9)))
  {
    hide StepData, StepMemory;
    hide Runs, And, Or;
    k' := SetPstate(k, if or then Or(k.cpu.state.pstate, k.rax) else And(k.cpu.state.pstate, k.r9)).(flags := Unknown);
    p' := Do(p, h, k, if or then OrPstate else AndPstate, k');
  }

  lemma ReplaceRuns(p: seq<Op>, h: Host, k: Host, f: Nzcv) returns (p': seq<Op>, k': Host)
    requires Runs(p, h, k) && k.rcx.Pointer? && k.rax == Extend(FlagWord(f), 64)
    ensures p' == p + ReplaceFlags() && Runs(p', h, k')
    ensures k'.rcx.Pointer? && k'.cpu == k.cpu.(state := SetNzcv(k.cpu.state, f))
  {
    hide Runs, Step, Extend, And, Or, Not, FlagBits, FlagWord, SetNzcv;
    p', k' := Imm(p, h, k, R9, Not(FlagBits()));
    p', k' := PstateRuns(p', h, k', false);
    p', k' := PstateRuns(p', h, k', true);
    ReplaceBits(k.cpu.state, f);
    OnlyPstate(k.cpu.state, f);
    assert p' == p + ReplaceFlags();
  }

  lemma OnlyPstate(r: State, f: Nzcv)
    ensures SetNzcv(r, f) == r.(pstate := SetNzcv(r, f).pstate)
  {
  }

  /** The whole flag-saving sequence commits f and nothing else. */
  lemma SaveFlagsRuns(p: seq<Op>, h: Host, k: Host, subtract: bool, f: Nzcv) returns (p': seq<Op>, k': Host)
    requires Runs(p, h, k) && k.rcx.Pointer? && HostFlagsMean(k.flags, subtract, f)
    ensures p' == p + SaveFlags(subtract) && Runs(p', h, k')
    ensures k'.rcx.Pointer? && k'.cpu == k.cpu.(state := SetNzcv(k.cpu.state, f))
  {
    hide Runs, Step, SetNzcv, HostFlagsMean, HoldsNzcv, FlagWord, CaptureFlags, PlaceFlags, ReplaceFlags;
    p', k' := CaptureRuns(p, h, k, subtract, f);
    p', k' := PlaceRuns(p', h, k', f);
    p', k' := ReplaceRuns(p', h, k', f);
    assert p' == p + SaveFlags(subtract);
  }
}
