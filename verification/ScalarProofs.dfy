/** Loads and stores of one register: the emitted checks admit exactly the accesses the architecture performs. */
module ScalarProofs {
  import opened PowersOfTwo
  import opened Words
  import opened LittleEndian
  import opened A64
  import opened HostOps
  import opened Emission
  import opened HostRuns
  import opened FlagBridge
  import opened EpilogueProofs
  import opened PairEmission
  import opened PairProofs
  import opened ScalarEmission

  // ---------- The address ----------

  /** The index as it stands in RAX before the shift. */
  function Widened(x: Word, option: nat): (v: Word)
  {
    if option % 2 == 1 then x
    else if option == 6 then Low(x, 32) + seq(32, i => x[31])
    else Extend(Low(x, 32), 64)
  }

  /** Widening and shifting the index is the architecture's register extension. */
  lemma WidenedAgrees(x: Word, option: nat, shift: nat)
    requires option < 8 && option / 2 % 2 == 1 && shift < 4
    ensures Shift(LSL, Widened(x, option), shift) == ExtendReg(x, option, shift)
  {
    assert option == 2 || option == 3 || option == 6 || option == 7;
    var z, e := Shift(LSL, Widened(x, option), shift), ExtendReg(x, option, shift);
    forall i | 0 <= i < 64 ensures z[i] == e[i] {
    }
    assert z == e;
  }

  /** The index register, widened: RAX holds it. */
  lemma WidenRuns(p: seq<Op>, h: Host, k: Host, rm: nat, option: nat) returns (p': seq<Op>, k': Host)
    requires Runs(p, h, k) && k.rcx.Pointer? && rm < 32 && option < 8
    ensures p' == p + Load(rm, false, option % 2 == 1) + (if option == 6 then [SignExtendRax] else []) && Runs(p', h, k')
    ensures k'.rax == Widened(X(k.cpu.state, rm, true), option) && k'.r11 == k.r11 && SameGuest(k, k')
  {
    hide Runs, Load, StepState, StepMemory, StepArithmetic, StepShift, StepFlags;
    var x := X(k.cpu.state, rm, true);
    p', k' := LoadOperand(p, h, k, rm, false, option % 2 == 1);
    NarrowOperand(k.cpu.state, rm);
    ExtendFull(x);
    LowExtend(Low(x, 32), 64);
    if option == 6 {
      var k1 := k'.(rax := Low(k'.rax, 32) + seq(32, i => k'.rax[31]));
      p' := Do(p', h, k', SignExtendRax, k1);
      k' := k1;
    } else {
      assert p' + [] == p';
    }
  }

  lemma NarrowOperand(r: State, n: nat)
    requires n < 32
    ensures X(r, n, false) == Low(X(r, n, true), 32)
  {
    assert X(r, n, false) == Low(X(r, n, true), 32);
  }

  /** The index code up to the addition: the extended index in RAX, the base set aside. */
  lemma ExtendedRuns(w: bv32, h: Host) returns (p: seq<Op>, k: Host)
    requires h.rcx.Pointer? && IsRegisterOffset(w) && ExtendOption(w) / 2 % 2 == 1
    ensures IndexCode(w) == p + [Alu(Add, true, RAX, R11)]
    ensures Runs(p, h, k) && SameGuest(h, k) && k.r11 == h.rax && k.rax == ScalarOffset(h.cpu.state, w)
  {
    hide Runs, Load, Field, Shift, Extend, Low, ExtendReg, Widened, X, Matches;
    var option, shift := ExtendOption(w), IndexShift(w);
    p, k := Start(h);
    p, k := Mov(p, h, k, R11, RAX);
    p, k := WidenRuns(p, h, k, Reg(w, 16), option);
    var x: Word := k.rax;
    WidenedAgrees(X(h.cpu.state, Reg(w, 16), true), option, shift);
    ExtendFull(x);
    ExtendFull(Shift(LSL, x, shift));
    p, k := ShiftIfAny(p, h, k, LSL, true, shift, x);
    assert IndexCode(w) == p + [Alu(Add, true, RAX, R11)];
  }

  /** The index code leaves base plus extended index in RAX. */
  lemma IndexRuns(w: bv32, h: Host) returns (k: Host)
    requires h.rcx.Pointer? && IsRegisterOffset(w) && ExtendOption(w) / 2 % 2 == 1
    ensures Runs(IndexCode(w), h, k) && SameGuest(h, k)
    ensures k.rax == FromInt(Val(h.rax) + Val(ScalarOffset(h.cpu.state, w)), 64)
  {
    hide Runs, IndexCode, ScalarOffset, Val, FromNat, Extend, Low, Arithmetic;
    var offset := ScalarOffset(h.cpu.state, w);
    var p;
    p, k := ExtendedRuns(w, h);
    ExtendFull(k.rax);
    ExtendFull(k.r11);
    p, k := Compute(p, h, k, Add, true, R11, offset, h.rax);
    AddCommutes(offset, h.rax);
  }

  lemma AddCommutes(a: Word, b: Word)
    ensures Extend(Arithmetic(Add, a, b).0, 64) == FromInt(Val(b) + Val(a), 64)
  {
    hide Val, FromNat, Extend;
    ExtendFull(FromInt(Val(a) + Val(b), 64));
  }

  /** The addressing forms do not overlap. */
  lemma FormsApart(w: bv32)
    ensures IsUnsignedOffset(w) ==> !IsRegisterOffset(w) && !IsUnscaled(w) && !IsWriteBack(w)
    ensures IsRegisterOffset(w) ==> !IsUnscaled(w) && !IsWriteBack(w)
  {
  }

  /** A form without an index has the displacement for its offset. */
  lemma OffsetIsDisplacement(r: State, w: bv32)
    requires IsMemory(w) && !IsPair(w) && !IsRegisterOffset(w)
    ensures ScalarOffset(r, w) == FromInt(ScalarDisplacement(w), 64)
  {
    hide FromInt, Field, Signed, Matches, IsPair;
    FormsApart(w);
  }

  /** Reducing a summand first does not change a sum. */
  lemma SumReduced(a: nat, b: int)
    ensures FromInt(a + Val(FromInt(b, 64)), 64) == FromInt(a + b, 64)
  {
    hide FromNat, Val, Pow2;
    var m := Pow2(64);
    ValFromNat(b % m, 64);
    ModUnique(b % m, m, 0, b % m);
    var q := b / m;
    assert b == q * m + b % m;
    ModShift(a + b % m, q, m);
  }

  /** The offset is added to the base in RAX. */
  lemma OffsetRuns(w: bv32, h: Host) returns (k: Host)
    requires h.rcx.Pointer? && IsMemory(w) && !IsPair(w) && ScalarValid(w) && h.rax == XSP(h.cpu.state, Reg(w, 5), true)
    ensures Runs(OffsetCode(w), h, k) && SameGuest(h, k) && k.rax == ScalarAddress(h.cpu.state, w)
  {
    hide Runs, Field, Val, FromNat, Arithmetic, Extend, Low, XSP, ScalarOffset, IndexCode, Matches, IsPair, IsUnsignedOffset, IsUnscaled;
    if IsRegisterOffset(w) {
      FormsApart(w);
      k := IndexRuns(w, h);
    } else {
      var p;
      p, k := Start(h);
      OffsetIsDisplacement(h.cpu.state, w);
      SumReduced(Val(h.rax), ScalarDisplacement(w));
      if !IsPostIndexed(w) {
        var d: Word := FromInt(ScalarDisplacement(w), 64);
        ExtendFull(d);
        ExtendFull(h.rax);
        p, k := ComputeImm(p, h, k, Add, true, d, h.rax);
        DisplacedSum(h.rax, ScalarDisplacement(w));
        ExtendFull(ScalarUpdated(h.cpu.state, w));
        assert p == OffsetCode(w);
      }
    }
  }

  lemma ScalarAddressRuns(w: bv32, h: Host) returns (k: Host)
    requires h.rcx.Pointer? && IsMemory(w) && !IsPair(w) && ScalarValid(w) && h.rax == XSP(h.cpu.state, Reg(w, 5), true)
    ensures Runs(ScalarAddressCode(w), h, k) && SameGuest(h, k)
    ensures k.rax == ScalarAddress(h.cpu.state, w) && k.r9 == k.rax && k.r11 == k.rax
  {
    hide Runs, Field, XSP, OffsetCode, ScalarAddress, ScalarValid, IsMemory, IsPair, Reg;
    k := OffsetRuns(w, h);
    var p := OffsetCode(w);
    p, k := Mov(p, h, k, R11, RAX);
    p, k := Mov(p, h, k, R9, RAX);
    assert p == ScalarAddressCode(w);
  }

  /** What is decoded is what is allocated, but for the prefetches. */
  lemma ScalarValidity(w: bv32)
    ensures ScalarValid(w) <==> ScalarAllocated(w) && !IsPrefetch(w)
  {
    hide Field, Matches, Reg;
  }

  // ---------- The access ----------

  lemma SignedLoads(p: seq<Op>, h: Host, k: Host, n: nat, wide: bool, reg: nat) returns (p': seq<Op>, k': Host)
    requires Runs(p, h, k) && k.rcx.Pointer? && 0 < n <= 4 && reg < 32 && Val(k.r9) + n <= |k.cpu.state.ram|
    ensures p' == p + ([MemLoadSigned(n, wide)] + Save(reg, false)) && Runs(p', h, k')
    ensures k'.r9 == k.r9 && k'.r11 == k.r11 && k'.rcx == k.rcx
    ensures var v := ReadMem(k.cpu.state.ram, Val(k.r9), n);
      k'.cpu == k.cpu.(state := SetX(k.cpu.state, reg, v + seq(Width(wide) - |v|, i => Msb(v))))
  {
    hide StepState, StepData;
    hide Runs, Val, Extend, ReadMem, SetX, Save;
    var v := ReadMem(k.cpu.state.ram, Val(k.r9), n);
    var z := v + seq(Width(wide) - |v|, i => Msb(v));
    var k1 := k.(rax := Extend(z, 64));
    p' := Do(p, h, k, MemLoadSigned(n, wide), k1);
    p', k' := SaveResult(p', h, k1, reg, false, z);
    assert p' == p + ([MemLoadSigned(n, wide)] + Save(reg, false));
  }

  lemma ShortStores(p: seq<Op>, h: Host, k: Host, n: nat, reg: nat) returns (p': seq<Op>, k': Host)
    requires Runs(p, h, k) && k.rcx.Pointer? && (n == 1 || n == 2 || n == 4 || n == 8) && reg < 32
    requires Val(k.r9) + n <= |k.cpu.state.ram|
    ensures p' == p + (Load(reg, false, n == 8) + [MemStore(n, 0)]) && Runs(p', h, k')
    ensures k'.r9 == k.r9 && k'.r11 == k.r11 && k'.rcx == k.rcx
    ensures k'.cpu == k.cpu.(state := k.cpu.state.(ram := WriteMem(k.cpu.state.ram, Val(k.r9), Low(X(k.cpu.state, reg, true), 8 * n))))
  {
    hide StepState, StepData;
    hide Runs, Val, Extend, WriteMem, Load;
    var k1;
    p', k1 := LoadOperand(p, h, k, reg, false, n == 8);
    var x := X(k.cpu.state, reg, n == 8);
    LowExtend(x, 64);
    assert Low(k1.rax, 8 * n) == Low(X(k.cpu.state, reg, true), 8 * n) by {
      assert Low(Low(k1.rax, |x|), 8 * n) == Low(k1.rax, 8 * n);
    }
    k' := k1.(cpu := k1.cpu.(state := k1.cpu.state.(ram := WriteMem(k1.cpu.state.ram, Val(k.r9), Low(k1.rax, 8 * n)))));
    p' := Do(p', h, k1, MemStore(n, 0), k');
    assert p' == p + (Load(reg, false, n == 8) + [MemStore(n, 0)]);
  }

  lemma ScalarElementRuns(p: seq<Op>, h: Host, k: Host, w: bv32) returns (p': seq<Op>, k': Host)
    requires Runs(p, h, k) && k.rcx.Pointer? && ScalarValid(w) && Val(k.r9) + AccessBytes(w) <= |k.cpu.state.ram|
    ensures p' == p + ScalarElement(w) && Runs(p', h, k')
    ensures k'.r9 == k.r9 && k'.r11 == k.r11 && k'.rcx == k.rcx
    ensures k'.cpu == k.cpu.(state := TransferScalar(k.cpu.state, w, Val(k.r9)))
  {
    hide Runs, Step, Field, Val, ReadMem, WriteMem, X, SetX, Load, Save, Reg, Low;
    var n := AccessBytes(w);
    if Opc(w) == 0 {
      p', k' := ShortStores(p, h, k, n, Reg(w, 0));
    } else if Opc(w) == 1 {
      p', k' := ElementLoads(p, h, k, n, Val(k.r9), 0, Reg(w, 0));
    } else {
      p', k' := SignedLoads(p, h, k, n, Opc(w) == 2, Reg(w, 0));
    }
  }

  lemma ScalarWriteBackRuns(p: seq<Op>, h: Host, k: Host, w: bv32, updated: Word) returns (p': seq<Op>, k': Host)
    requires Runs(p, h, k) && k.rcx.Pointer?
    requires IsWriteBack(w) ==> updated == if IsPostIndexed(w) then FromInt(Val(k.r11) + ScalarDisplacement(w), 64) else k.r11
    ensures p' == p + ScalarWriteBack(w) && Runs(p', h, k')
    ensures k'.rcx.Pointer? && k'.cpu == k.cpu.(state := WriteBackScalar(k.cpu.state, w, updated))
  {
    hide Runs, Field, Val, FromInt, SetXSP, Save, ScalarDisplacement, Reg, IsWriteBack, IsPostIndexed;
    if !IsWriteBack(w) {
      p', k' := p, k;
      assert p + [] == p;
    } else {
      p', k' := BaseWriteRuns(p, h, k, Reg(w, 5), IsPostIndexed(w), ScalarDisplacement(w), updated);
    }
  }

  /** What write-back stores, seen from the address the access used. */
  lemma UpdatedFromAddress(r: State, w: bv32)
    requires IsMemory(w) && !IsPair(w)
    ensures IsWriteBack(w) ==>
      ScalarUpdated(r, w)
      == if IsPostIndexed(w) then FromInt(Val(ScalarAddress(r, w)) + ScalarDisplacement(w), 64) else ScalarAddress(r, w)
  {
    hide FromInt, Val, Field, XSP, ScalarOffset, ScalarDisplacement, Reg, IsMemory, IsPair, Matches;
    FormsApart(w);
    if IsWriteBack(w) {
      OffsetIsDisplacement(r, w);
      SumReduced(Val(XSP(r, Reg(w, 5), true)), ScalarDisplacement(w));
    }
  }

  /** The access, the write-back, and the jump over the exits. */
  lemma ScalarPassRuns(w: bv32, h: Host, updated: Word, exits: seq<Op>) returns (k: Host)
    requires h.rcx.Pointer? && ScalarValid(w) && Val(h.r9) + AccessBytes(w) <= |h.cpu.state.ram|
    requires IsWriteBack(w) ==> updated == if IsPostIndexed(w) then FromInt(Val(h.r11) + ScalarDisplacement(w), 64) else h.r11
    ensures Run(ScalarTransfer(w) + [Jmp(|exits|)] + exits, h) == Running(k) && k.rcx.Pointer?
    ensures k.cpu == h.cpu.(state := WriteBackScalar(TransferScalar(h.cpu.state, w, Val(h.r9)), w, updated))
  {
    hide Runs, Val, FromInt, ScalarElement, ScalarWriteBack, TransferScalar, WriteBackScalar, ScalarDisplacement, Matches, Field;
    var p;
    p, k := Start(h);
    p, k := ScalarElementRuns(p, h, k, w);
    p, k := ScalarWriteBackRuns(p, h, k, w, updated);
    assert p == ScalarTransfer(w);
    JumpOver(p, exits, h, k);
  }

  // ---------- Range, alignment and exits ----------

  /** From the base comparison on: the access happens exactly when it is inside memory. */
  lemma ScalarRangeRuns(w: bv32, h: Host, cfg: Config, updated: Word, exit: nat, exits: seq<Op>) returns (k: Host)
    requires h.rcx.Pointer? && ScalarValid(w) && exit <= |exits| && h.r9 == h.r11
    requires IsWriteBack(w) ==> updated == if IsPostIndexed(w) then FromInt(Val(h.r11) + ScalarDisplacement(w), 64) else h.r11
    ensures var ok := Inside(h.cpu.state, cfg, Val(h.r11), AccessBytes(w));
      && Run(ScalarRange(w, cfg, exit, |exits|) + exits, h) == (if ok then Running(k) else Run(exits[exit..], k))
      && (ok ==> k.cpu == h.cpu.(state :=
            WriteBackScalar(TransferScalar(h.cpu.state, w, Val(h.r11) - cfg.base), w, updated)))
      && (!ok ==> Leaves(k, h.cpu, h.r11))
    ensures k.rcx.Pointer?
  {
    hide Run, Step, Val, FromNat, FromInt, Arithmetic, Runs, Guard, RangeCheck, BaseCheck, ScalarTransfer, TransferScalar,
      WriteBackScalar, ScalarDisplacement, ScalarValid, IsWriteBack, IsPostIndexed, Holds, Opc;
    var n := AccessBytes(w);
    var rest := ScalarTransfer(w) + [Jmp(|exits|)];
    var sized := Guard([CompareSize(n)], CarrySet, Guard([SizeToR10] + RangeCheck(n), Above, rest, exit), exit);
    var p, k1 := Start(h);
    p, k1 := BaseRuns(p, h, k1, cfg);
    assert p == BaseCheck(cfg);
    CarryHolds(k1.flags);
    GuardRuns(p, CarrySet, sized, exit, exits, h, k1);
    k := k1;
    if Val(h.r11) >= cfg.base {
      k := FirstRange(n, k1, exit, exits, rest);
      if Inside(h.cpu.state, cfg, Val(h.r11), n) {
        k := ScalarPassRuns(w, k, updated, exits);
      }
    }
  }

  /** The exits, found at their offsets. */
  lemma ScalarExitsAt(w: bv32, pc: Word, n: nat, cfg: Config)
    ensures var exits := ScalarExits(w, pc, n, cfg);
      && ScalarAlignOffset(w, pc, n, cfg) <= |exits| && ScalarDataOffset(w, pc, n, cfg) <= |exits|
      && exits[ScalarAlignOffset(w, pc, n, cfg)..] == ScalarAlignExit(w, pc, n) + FaultExit(pc, n, DataAbort)
      && exits[ScalarDataOffset(w, pc, n, cfg)..] == FaultExit(pc, n, DataAbort)
      && exits[0..] == exits
  {
    hide FaultExit;
  }

  /** The part of the architecture's definition after the stack-alignment check. */
  function ScalarAlignedPart(r: State, cfg: Config, w: bv32): (effect: Effect)
    requires ScalarValid(w)
  {
    var address := ScalarAddress(r, w);
    if Val(address) % AccessBytes(w) != 0 then Fault(r.(far := address), AlignmentFault)
    else if !Inside(r, cfg, Val(address), AccessBytes(w)) then Fault(r.(far := address), DataAbort)
    else Through(WriteBackScalar(TransferScalar(r, w, Val(address) - cfg.base), w, ScalarUpdated(r, w)))
  }

  /** The range part, and the data-abort exit it may leave for. */
  lemma ScalarRangeDone(w: bv32, h: Host, pc: Word, n: nat, cfg: Config)
    requires h.rcx.Pointer? && IsMemory(w) && !IsPair(w) && ScalarValid(w)
    requires h.r9 == h.r11 == ScalarAddress(h.cpu.state, w) && Val(h.r11) % AccessBytes(w) == 0
    ensures var exits := ScalarExits(w, pc, n, cfg);
      PairDone(ScalarRange(w, cfg, ScalarDataOffset(w, pc, n, cfg), |exits|) + exits, h, ScalarAlignedPart(h.cpu.state, cfg, w), pc, n)
  {
    hide Run, Step, Val, FromInt, Runs, ScalarRange, ScalarExits, TransferScalar, WriteBackScalar, FaultExit, Returns, Retire,
      ScalarAlignOffset, ScalarDataOffset, ScalarAddress, ScalarUpdated, ScalarDisplacement, IsMemory, IsPair, ScalarValid,
      IsWriteBack, IsPostIndexed, AccessBytes, Opc, Inside;
    var exits := ScalarExits(w, pc, n, cfg);
    var r := h.cpu.state;
    ScalarExitsAt(w, pc, n, cfg);
    UpdatedFromAddress(r, w);
    var exit := ScalarDataOffset(w, pc, n, cfg);
    var k := ScalarRangeRuns(w, h, cfg, ScalarUpdated(r, w), exit, exits);
    if !Inside(r, cfg, Val(h.r11), AccessBytes(w)) {
      FaultExitRuns([], k, h.cpu, h.r11, pc, n, DataAbort);
      assert FaultExit(pc, n, DataAbort) + [] == FaultExit(pc, n, DataAbort);
      SameRun(ScalarRange(w, cfg, exit, |exits|) + exits, h, exits[exit..], k,
        h.cpu.(state := r.(far := h.r11), pc := pc, retired := Retire(h.cpu.retired, n)), DataAbort);
    }
  }

  function AccessBits(w: bv32): (b: nat)
    ensures b <= 3 && Pow2(b) == AccessBytes(w)
  {
    FivePowers();
    assert Pow2(0) == 1;
    if AccessBytes(w) == 8 then 3 else if AccessBytes(w) == 4 then 2 else if AccessBytes(w) == 2 then 1 else 0
  }

  /** Address, alignment test and range, with the base in RAX. */
  lemma ScalarAlignedRuns(w: bv32, h: Host, pc: Word, n: nat, cfg: Config)
    requires h.rcx.Pointer? && IsMemory(w) && !IsPair(w) && ScalarValid(w) && h.rax == XSP(h.cpu.state, Reg(w, 5), true)
    ensures PairDone(ScalarAligned(w, pc, n, cfg) + ScalarExits(w, pc, n, cfg), h, ScalarAlignedPart(h.cpu.state, cfg, w), pc, n)
  {
    hide Run, Step, Val, Runs, Guard, ScalarAddressCode, ScalarRange, FaultExit, Returns, Retire, ScalarExits, ScalarAlignOffset, ScalarDataOffset,
      ScalarAddress, ScalarUpdated, TransferScalar, WriteBackScalar, IsMemory, IsPair, ScalarValid, XSP, Reg, Inside, Pow2, Holds, PairDone, AccessBytes, Opc;
    var exits := ScalarExits(w, pc, n, cfg);
    var range := ScalarRange(w, cfg, ScalarDataOffset(w, pc, n, cfg), |exits|);
    var p := ScalarAddressCode(w);
    var k := ScalarAddressRuns(w, h);
    if AccessBytes(w) > 1 {
      var t;
      p, t := TestByteRuns(p, h, k, AccessBits(w));
      ScalarTested(w, h, t, p, pc, n, cfg);
    } else {
      ScalarRangeDone(w, k, pc, n, cfg);
      PairAfter(p, h, k, range + exits, ScalarAlignedPart(h.cpu.state, cfg, w), pc, n);
      assert ScalarAligned(w, pc, n, cfg) + exits == p + (range + exits);
    }
  }

  /** After the alignment test: the alignment exit, or the range. */
  lemma ScalarTested(w: bv32, h: Host, t: Host, p: seq<Op>, pc: Word, n: nat, cfg: Config)
    requires h.rcx.Pointer? && IsMemory(w) && !IsPair(w) && ScalarValid(w) && AccessBytes(w) > 1
    requires p == ScalarAddressCode(w) + [TestByte(AccessBytes(w) - 1)] && Runs(p, h, t) && SameGuest(h, t)
    requires t.r9 == t.r11 == ScalarAddress(h.cpu.state, w)
    requires t.flags.Known? && (t.flags.zf <==> Val(t.r11) % AccessBytes(w) == 0)
    ensures PairDone(ScalarAligned(w, pc, n, cfg) + ScalarExits(w, pc, n, cfg), h, ScalarAlignedPart(h.cpu.state, cfg, w), pc, n)
  {
    hide Run, Step, Val, Runs, Guard, ScalarAddressCode, ScalarRange, FaultExit, Returns, Retire, ScalarExits, ScalarAlignOffset, ScalarDataOffset,
      ScalarAddress, ScalarUpdated, TransferScalar, WriteBackScalar, IsMemory, IsPair, ScalarValid, Inside, Pow2, Holds, AccessBytes, Opc;
    var exits := ScalarExits(w, pc, n, cfg);
    var range := ScalarRange(w, cfg, ScalarDataOffset(w, pc, n, cfg), |exits|);
    var exit := ScalarAlignOffset(w, pc, n, cfg);
    var code := ScalarAligned(w, pc, n, cfg) + exits;
    ScalarExitsAt(w, pc, n, cfg);
    ZeroHolds(t.flags);
    GuardRuns(p, NotZero, range, exit, exits, h, t);
    if t.flags.zf {
      ScalarRangeDone(w, t, pc, n, cfg);
      PairDoneAt(code, h, range + exits, t, ScalarAlignedPart(h.cpu.state, cfg, w), pc, n);
    } else {
      FaultExitRuns(FaultExit(pc, n, DataAbort), t, h.cpu, t.r11, pc, n, AlignmentFault);
      SameRun(code, h, exits[exit..], t,
        h.cpu.(state := h.cpu.state.(far := t.r11), pc := pc, retired := Retire(h.cpu.retired, n)), AlignmentFault);
    }
  }

  /** The architecture's definition, split at the stack-alignment check. */
  lemma SplitScalar(r: State, cfg: Config, w: bv32)
    requires !cfg.bigEndian && r.instruction == w && ScalarValid(w)
    ensures ScalarAllocated(w) && !IsPrefetch(w)
    ensures LoadStoreScalar(r, cfg, w)
      == if ChecksSp(w, cfg) && Val(r.sp) % 16 != 0 then Fault(r.(far := r.sp), SpAlignmentFault) else ScalarAlignedPart(r, cfg, w)
  {
    hide Field, Val, FromNat, TransferScalar, WriteBackScalar, ScalarAddress, ScalarUpdated, Pow2, Reg, Matches, Inside;
    ExtendFull(r.sp);
    assert r == r.(instruction := w);
  }

  lemma ScalarChecksRun(w: bv32, h: Host, pc: Word, n: nat, cfg: Config)
    requires h.rcx.Pointer? && IsMemory(w) && !IsPair(w) && ScalarValid(w) && !cfg.bigEndian && h.cpu.state.instruction == w
    ensures PairDone(ScalarChecks(w, pc, n, cfg) + ScalarExits(w, pc, n, cfg), h,
      if ScalarAllocated(w) then LoadStoreScalar(h.cpu.state, cfg, w) else A64.Undefined(h.cpu.state, w), pc, n)
  {
    hide Run, Step, Val, Runs, Guard, ScalarAligned, FaultExit, Returns, Retire, ScalarAlignedPart, LoadStoreScalar, ScalarAllocated, IsPrefetch,
      IsMemory, IsPair, ScalarValid, Holds, Low, Extend, Load;
    var exits := ScalarExits(w, pc, n, cfg);
    var aligned := ScalarAligned(w, pc, n, cfg);
    var r := h.cpu.state;
    SplitScalar(r, cfg, w);
    if ChecksSp(w, cfg) {
      ScalarExitsAt(w, pc, n, cfg);
      var k := SpRuns(h);
      ZeroHolds(k.flags);
      GuardRuns(SpCheck(), NotZero, aligned, 0, exits, h, k);
      if Val(r.sp) % 16 != 0 {
        FaultExitRuns(ScalarAlignExit(w, pc, n) + FaultExit(pc, n, DataAbort), k, h.cpu, r.sp, pc, n, SpAlignmentFault);
        SameRun(Guard(SpCheck(), NotZero, aligned, 0) + exits, h, exits[0..], k,
          h.cpu.(state := r.(far := r.sp), pc := pc, retired := Retire(h.cpu.retired, n)), SpAlignmentFault);
      } else {
        ExtendFull(r.sp);
        ScalarAlignedRuns(w, k, pc, n, cfg);
        PairDoneAt(Guard(SpCheck(), NotZero, aligned, 0) + exits, h, aligned + exits, k, ScalarAlignedPart(r, cfg, w), pc, n);
      }
    } else {
      var p, k := Start(h);
      p, k := LoadOperand(p, h, k, Reg(w, 5), true, true);
      ExtendFull(XSP(r, Reg(w, 5), true));
      assert p == Load(Reg(w, 5), true, true);
      ScalarAlignedRuns(w, k, pc, n, cfg);
      PairAfter(p, h, k, aligned + exits, ScalarAlignedPart(r, cfg, w), pc, n);
      assert ScalarChecks(w, pc, n, cfg) + exits == p + (aligned + exits);
    }
  }
}
