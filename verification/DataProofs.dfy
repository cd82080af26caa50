/** The straight-line classes: each emitted sequence does what the architecture says of its word. */
module DataProofs {
  import opened Basics
  import opened PowersOfTwo
  import opened Words
  import opened A64
  import opened HostOps
  import opened Emission
  import opened HostRuns
  import opened FlagBridge
  import opened FlagSaving
  import opened ConditionProofs
  import opened BitfieldProofs

  /** Falls through with only the register file of the guest changed. */
  predicate Lands(ops: seq<Op>, h: Host, r: State)
  {
    var o := Run(ops, h);
    o.Running? && o.h.rcx.Pointer? && o.h.cpu == h.cpu.(state := r)
  }

  lemma Landed(p: seq<Op>, h: Host, k: Host)
    requires Runs(p, h, k) && k.rcx.Pointer? && k.cpu == h.cpu.(state := k.cpu.state)
    ensures Lands(p, h, k.cpu.state)
  {
  }

  // ---------- Shifts and products ----------

  /** The host's masked count in CL is the architecture's amount modulo the width. */
  lemma CountAgrees(x: Bits, wide: bool)
    requires |x| == Width(wide)
    ensures Val(Low(Extend(Low(Extend(x, 64), 32), 64), 8)) % Width(wide) == Val(x) % Width(wide)
  {
    hide Val, Low, Extend, Pow2;
    CountByte(x);
    ValLow(x, 8);
    assert Pow2(8) == 256 by { FivePowers(); Pow2Next(6); Pow2Next(7); }
  }

  lemma CountByte(x: Bits)
    requires 32 <= |x| <= 64
    ensures Low(Extend(Low(Extend(x, 64), 32), 64), 8) == Low(x, 8)
  {
    assert Low(Extend(Low(Extend(x, 64), 32), 64), 8) == Low(x, 8);
  }

  /** The three moves that put a count in CL, shift, and bring the state pointer back. */
  lemma ShiftThroughCl(p: seq<Op>, h: Host, k: Host, kind: ShiftKind, wide: bool, a: Bits, count: Bits)
    returns (p': seq<Op>, k': Host)
    requires Runs(p, h, k) && k.rcx.Pointer? && |a| == |count| == Width(wide)
    requires k.rax == Extend(a, 64) && k.r9 == Extend(count, 64)
    ensures p' == p + [SaveRcx] + [CountFromR9] + [ShiftCl(kind, wide)] + [RestoreRcx] && Runs(p', h, k')
    ensures k'.rax == Extend(Shift(kind, a, Val(count) % Width(wide)), 64) && k'.rcx.Pointer? && k'.cpu == k.cpu
  {
    hide StepState, StepMemory, StepArithmetic, StepFlags;
    hide Runs, Extend, Shift, Val, Low;
    var k1 := k.(r10 := Pointer);
    p' := Do(p, h, k, SaveRcx, k1);
    var k2 := k1.(rcx := Data(Extend(Low(k1.r9, 32), 64)));
    p' := Do(p', h, k1, CountFromR9, k2);
    CountAgrees(count, wide);
    LowExtend(a, 64);
    var k3 := k2.(rax := Extend(Shift(kind, a, Val(count) % Width(wide)), 64), flags := Unknown);
    p' := Do(p', h, k2, ShiftCl(kind, wide), k3);
    k' := k3.(rcx := Pointer);
    p' := Do(p', h, k3, RestoreRcx, k');
  }

  lemma VariableShiftRuns(w: bv32, h: Host)
    requires h.rcx.Pointer?
    ensures Lands(VariableShiftCode(w), h, VariableShift(h.cpu.state, w).state)
  {
    hide Run, Field, Extend, Shift, Val, X, Runs, Step, Lands, SetX, Load, Save, Flag;
    var wide := Flag(w, 31);
    var count := X(h.cpu.state, Reg(w, 16), wide);
    var source := X(h.cpu.state, Reg(w, 5), wide);
    var p, k := Start(h);
    p, k := LoadPair(p, h, k, Reg(w, 16), Reg(w, 5), false, wide);
    p, k := ShiftThroughCl(p, h, k, Kind(w, 10), wide, source, count);
    p, k := SaveResult(p, h, k, Reg(w, 0), false, Shift(Kind(w, 10), source, Val(count) % Width(wide)));
    assert p == VariableShiftCode(w);
    Landed(p, h, k);
  }

  /** The wrapped product may be taken before or after the sum. */
  lemma WrapEarly(addend: int, product: int, m: int)
    requires m > 0
    ensures (addend + product % m) % m == (addend + product) % m
    ensures (addend - product % m) % m == (addend - product) % m
  {
    var q := product / m;
    assert product == q * m + product % m;
    ModShift(addend + product % m, q, m);
    ModShift(addend - product % m, -q, m);
  }

  /** Accumulating a product already reduced to the width gives the exact result, reduced. */
  lemma AccumulateReduced(product: Bits, exact: int, addend: Bits, subtract: bool)
    requires |product| == |addend| > 0 && product == FromInt(exact, |addend|)
    ensures Arithmetic(if subtract then Sub else Add, addend, product).0
      == FromInt(if subtract then Val(addend) - exact else Val(addend) + exact, |addend|)
  {
    hide Val, FromNat, Pow2;
    var n := |addend|;
    var m := Pow2(n);
    assert Val(product) == exact % m by {
      ValFromNat(exact % m, n);
      ModUnique(exact % m, m, 0, exact % m);
    }
    WrapEarly(Val(addend), exact, m);
  }

  /** Both signs of the accumulate step agree with the exact sum, reduced. */
  lemma AccumulateAgrees(x: Bits, y: Bits, addend: Bits, subtract: bool)
    requires |x| == |y| == |addend| > 0
    ensures var n := |x|;
      var product := FromInt(SVal(x) * SVal(y), n);
      Arithmetic(if subtract then Sub else Add, addend, product).0
      == FromInt(if subtract then Val(addend) - Val(x) * Val(y) else Val(addend) + Val(x) * Val(y), n)
  {
    hide Val, SVal, FromNat, Pow2, Arithmetic;
    ProductAgrees(x, y);
    AccumulateReduced(FromInt(SVal(x) * SVal(y), |x|), Val(x) * Val(y), addend, subtract);
  }

  /** The product of the two sources, left in RAX. */
  lemma ProductRuns(w: bv32, h: Host) returns (p: seq<Op>, k: Host)
    requires h.rcx.Pointer?
    ensures var wide := Flag(w, 31);
      p == Load(Reg(w, 16), false, wide) + [MovReg(R9, RAX)] + Load(Reg(w, 5), false, wide) + [MulRaxR9(wide)]
    ensures Runs(p, h, k) && SameGuest(h, k)
    ensures var wide := Flag(w, 31);
      k.rax == Extend(FromInt(SVal(X(h.cpu.state, Reg(w, 5), wide)) * SVal(X(h.cpu.state, Reg(w, 16), wide)), Width(wide)), 64)
  {
    hide Field, Extend, SVal, X, Runs, Step, FromInt, Low, Load;
    var wide := Flag(w, 31);
    var y := X(h.cpu.state, Reg(w, 16), wide);
    var x := X(h.cpu.state, Reg(w, 5), wide);
    LowExtend(x, 64);
    LowExtend(y, 64);
    p, k := Start(h);
    p, k := LoadPair(p, h, k, Reg(w, 16), Reg(w, 5), false, wide);
    p, k := Multiply(p, h, k, wide, x, y);
  }

  lemma MultiplyAddRuns(w: bv32, h: Host)
    requires h.rcx.Pointer?
    ensures Lands(MultiplyAddCode(w), h, MultiplyAdd(h.cpu.state, w).state)
  {
    hide Field, Extend, Val, SVal, X, Runs, Step, Lands, SetX, Arithmetic, FromInt, Low, Load, Save;
    var wide := Flag(w, 31);
    var y := X(h.cpu.state, Reg(w, 16), wide);
    var x := X(h.cpu.state, Reg(w, 5), wide);
    var addend := X(h.cpu.state, Reg(w, 10), wide);
    var product := FromInt(SVal(x) * SVal(y), Width(wide));
    var op := if Flag(w, 15) then Sub else Add;
    LowExtend(addend, 64);
    LowExtend(product, 64);
    var p, k := ProductRuns(w, h);
    p, k := CopyToR9(p, h, k);
    p, k := LoadOperand(p, h, k, Reg(w, 10), false, wide);
    p, k := Compute(p, h, k, op, wide, R9, addend, product);
    AccumulateAgrees(x, y, addend, Flag(w, 15));
    p, k := SaveResult(p, h, k, Reg(w, 0), false, Arithmetic(op, addend, product).0);
    assert p == MultiplyAddCode(w);
    Landed(p, h, k);
  }

  // ---------- Conditional select and compare ----------

  /** The arm taken when the condition is false: optional inversion, then optional increment. */
  function SelectedOther(r: State, w: bv32): (v: Bits)
    ensures |v| == Width(Flag(w, 31))
  {
    var b := X(r, Reg(w, 16), Flag(w, 31));
    var inverted := if Flag(w, 30) then Not(b) else b;
    if Flag(w, 10) then FromNat(Val(inverted) + 1, |inverted|) else inverted
  }

  /** Adding the host constant one is the architecture's increment. */
  lemma IncrementAgrees(a: Bits)
    requires 32 <= |a| <= 64
    ensures Arithmetic(Add, a, Low(FromNat(1, 64), |a|)).0 == FromNat(Val(a) + 1, |a|)
  {
    hide Val, FromNat, Low;
    var n := |a|;
    LowFromNat(1, 64, n);
    ValOne(n);
    WrapAgain(Val(a) + 1, n);
  }

  lemma ValOne(n: nat)
    requires n > 0
    ensures Val(FromNat(1, n)) == 1
  {
    ValFromNat(1, n);
    Pow2Monotonic(1, n);
    Pow2Next(0);
    ModUnique(1, Pow2(n), 0, 1);
  }

  /** Reducing before truncation changes nothing. */
  lemma WrapAgain(v: nat, n: nat)
    ensures FromInt(v, n) == FromNat(v, n)
  {
    hide Val, FromNat;
    ValFromNat(v, n);
    ValFromNat(v % Pow2(n), n);
    ModUnique(v % Pow2(n), Pow2(n), 0, v % Pow2(n));
    ValInjective(FromInt(v, n), FromNat(v, n));
  }

  lemma SelectOtherRuns(w: bv32, h: Host) returns (k: Host)
    requires h.rcx.Pointer?
    ensures Runs(SelectOther(w), h, k) && SameGuest(h, k)
    ensures k.rax == Extend(SelectedOther(h.cpu.state, w), 64)
  {
    hide Runs, Step, Extend, Low, Field, Val, FromNat, X, Arithmetic, Load, Not;
    var wide := Flag(w, 31);
    var b := X(h.cpu.state, Reg(w, 16), wide);
    var p;
    p, k := Start(h);
    p, k := LoadOperand(p, h, k, Reg(w, 16), false, wide);
    LowExtend(b, 64);
    if Flag(w, 30) {
      p, k := Invert(p, h, k, wide, b);
      LowExtend(Not(b), 64);
    }
    var inverted := if Flag(w, 30) then Not(b) else b;
    if Flag(w, 10) {
      p, k := ComputeImm(p, h, k, Add, wide, FromNat(1, 64), inverted);
      IncrementAgrees(inverted);
    }
    assert p == SelectOther(w);
  }

  /** The value chosen by the condition, left in RAX. */
  lemma SelectArms(w: bv32, h: Host) returns (p: seq<Op>, k: Host, v: Bits)
    requires h.rcx.Pointer?
    ensures var cond := Reg4(w, 12);
      var first := Load(Reg(w, 5), false, Flag(w, 31));
      p == if cond >= 14 then first else IfElse(ConditionTest(cond), FalseCc(cond), first, SelectOther(w))
    ensures Runs(p, h, k) && SameGuest(h, k) && |v| <= 64 && k.rax == Extend(v, 64)
    ensures v == if ConditionHolds(Reg4(w, 12), GetNzcv(h.cpu.state)) then X(h.cpu.state, Reg(w, 5), Flag(w, 31))
                 else SelectedOther(h.cpu.state, w)
  {
    hide Runs, Step, Extend, Field, X, Load, SelectOther, SelectedOther, ConditionTest, GetNzcv, IfElse, FalseCc, ConditionHolds;
    var cond := Reg4(w, 12);
    var first := Load(Reg(w, 5), false, Flag(w, 31));
    var f := GetNzcv(h.cpu.state);
    v := if ConditionHolds(cond, f) then X(h.cpu.state, Reg(w, 5), Flag(w, 31)) else SelectedOther(h.cpu.state, w);
    if cond >= 14 {
      AlwaysHolds(cond, f);
      p, k := Start(h);
      p, k := LoadOperand(p, h, k, Reg(w, 5), false, Flag(w, 31));
      assert p == first;
    } else {
      var test, t := Start(h);
      test, t := ConditionTestRuns(test, h, t, cond);
      assert test == ConditionTest(cond);
      if ConditionHolds(cond, f) {
        var q;
        q, k := Start(t);
        q, k := LoadOperand(q, t, k, Reg(w, 5), false, Flag(w, 31));
        assert q == first;
      } else {
        k := SelectOtherRuns(w, t);
      }
      p := IfElse(ConditionTest(cond), FalseCc(cond), first, SelectOther(w));
      IfElseRuns(ConditionTest(cond), FalseCc(cond), first, SelectOther(w), h, t, k);
    }
  }

  lemma AlwaysHolds(cond: nat, f: Nzcv)
    requires 14 <= cond < 16
    ensures ConditionHolds(cond, f)
  {
  }

  lemma SelectRuns(w: bv32, h: Host)
    requires h.rcx.Pointer?
    ensures Lands(SelectCode(w), h, ConditionalSelect(h.cpu.state, w).state)
  {
    hide Runs, Step, Extend, Field, X, Load, Save, SelectOther, ConditionTest, GetNzcv, IfElse, FalseCc, ConditionHolds, Lands, SetX;
    var p, k, v := SelectArms(w, h);
    p, k := SaveResult(p, h, k, Reg(w, 0), false, v);
    assert p == SelectCode(w);
    Landed(p, h, k);
  }

  /** The sum or difference selected by bit 30, with its flags. */
  function SumOf(w: bv32, a: Bits, b: Bits): (sum: (Bits, Nzcv))
    requires |a| == |b| > 0
    ensures |sum.0| == |a|
  {
    if Flag(w, 30) then AddWithCarry(a, Not(b), true) else AddWithCarry(a, b, false)
  }

  lemma SumAgrees(w: bv32, a: Bits, b: Bits)
    requires |a| == |b| > 0
    ensures Arithmetic(AddOrSub(w), a, b).0 == SumOf(w, a, b).0
    ensures HostFlagsMean(Arithmetic(AddOrSub(w), a, b).1, Flag(w, 30), SumOf(w, a, b).1)
  {
    hide Arithmetic, AddWithCarry, Field, Not;
    if Flag(w, 30) {
      SubAgrees(a, b);
    } else {
      AddAgrees(a, b);
    }
  }

  /** The second operand of a conditional comparison. */
  function CompareOperand(r: State, w: bv32): (b: Bits)
    ensures |b| == Width(Flag(w, 31))
  {
    if Flag(w, 11) then FromNat(Reg(w, 16), Width(Flag(w, 31))) else X(r, Reg(w, 16), Flag(w, 31))
  }

  lemma CompareLoads(w: bv32, h: Host) returns (p: seq<Op>, k: Host)
    requires h.rcx.Pointer?
    ensures var wide := Flag(w, 31);
      p == (if Flag(w, 11) then [MovImm(RAX, FromNat(Reg(w, 16), 64))] else Load(Reg(w, 16), false, wide))
           + [MovReg(R9, RAX)] + Load(Reg(w, 5), false, wide)
    ensures Runs(p, h, k) && SameGuest(h, k)
    ensures Low(k.rax, Width(Flag(w, 31))) == X(h.cpu.state, Reg(w, 5), Flag(w, 31))
    ensures Low(k.r9, Width(Flag(w, 31))) == CompareOperand(h.cpu.state, w)
  {
    hide Runs, Step, Extend, Low, Field, FromNat, X, Load;
    var wide := Flag(w, 31);
    p, k := Start(h);
    if Flag(w, 11) {
      p, k := Imm(p, h, k, RAX, FromNat(Reg(w, 16), 64));
      LowFromNat(Reg(w, 16), 64, Width(wide));
    } else {
      p, k := LoadOperand(p, h, k, Reg(w, 16), false, wide);
      LowExtend(X(h.cpu.state, Reg(w, 16), wide), 64);
    }
    p, k := CopyToR9(p, h, k);
    p, k := LoadOperand(p, h, k, Reg(w, 5), false, wide);
    LowExtend(X(h.cpu.state, Reg(w, 5), wide), 64);
  }

  lemma CompareOperandsRuns(w: bv32, h: Host) returns (k: Host)
    requires h.rcx.Pointer?
    ensures Runs(CompareOperands(w), h, k) && k.rcx.Pointer?
    ensures k.cpu == h.cpu.(state := SetNzcv(h.cpu.state,
      SumOf(w, X(h.cpu.state, Reg(w, 5), Flag(w, 31)), CompareOperand(h.cpu.state, w)).1))
  {
    hide Runs, Step, Extend, Low, Field, FromNat, X, Load, SumOf, CompareOperand, Arithmetic, HostFlagsMean, SetNzcv, SaveFlags;
    var a := X(h.cpu.state, Reg(w, 5), Flag(w, 31));
    var b := CompareOperand(h.cpu.state, w);
    var p;
    p, k := CompareLoads(w, h);
    p, k := Compute(p, h, k, AddOrSub(w), Flag(w, 31), R9, a, b);
    SumAgrees(w, a, b);
    p, k := SaveFlagsRuns(p, h, k, Flag(w, 30), SumOf(w, a, b).1);
    assert p == CompareOperands(w);
  }

  /** The immediate flags, shifted to their place. */
  lemma FallbackWord(v: nat)
    requires v < 16
    ensures var f := FromNat(v, 4);
      Shift(LSL, FromNat(v, 64), 28) == Extend(FlagWord(Nzcv(f[3], f[2], f[1], f[0])), 64)
  {
    hide FromNat;
    var f := FromNat(v, 4);
    var b := FromNat(v, 64);
    LowFromNat(v, 64, 4);
    SmallWord(v, 64);
    var left := Shift(LSL, b, 28);
    var right := Extend(FlagWord(Nzcv(f[3], f[2], f[1], f[0])), 64);
    forall i | 0 <= i < 64 ensures left[i] == right[i] {
      if 28 <= i < 32 {
        assert f[i - 28] == b[i - 28];
      }
    }
  }

  lemma CompareFallbackRuns(w: bv32, h: Host) returns (k: Host)
    requires h.rcx.Pointer?
    ensures Runs(CompareFallback(w), h, k) && k.rcx.Pointer?
    ensures var f := FromNat(Reg4(w, 0), 4);
      k.cpu == h.cpu.(state := SetNzcv(h.cpu.state, Nzcv(f[3], f[2], f[1], f[0])))
  {
    hide Runs, Step, Extend, Field, FromNat, FlagWord, SetNzcv, Shift, ReplaceFlags;
    var f := FromNat(Reg4(w, 0), 4);
    var p;
    p, k := Start(h);
    p, k := Imm(p, h, k, RAX, Shift(LSL, FromNat(Reg4(w, 0), 64), 28));
    FallbackWord(Reg4(w, 0));
    p, k := ReplaceRuns(p, h, k, Nzcv(f[3], f[2], f[1], f[0]));
    assert p == CompareFallback(w);
  }

  lemma ConditionalCompareRuns(w: bv32, h: Host)
    requires h.rcx.Pointer?
    ensures Lands(ConditionalCompareCode(w), h, ConditionalCompare(h.cpu.state, w).state)
  {
    hide Runs, Step, Field, FromNat, X, SetNzcv, CompareOperands, CompareFallback, ConditionTest, GetNzcv, IfElse, FalseCc, ConditionHolds, Lands;
    var cond := Reg4(w, 12);
    var f := GetNzcv(h.cpu.state);
    if cond >= 14 {
      AlwaysHolds(cond, f);
      var k := CompareOperandsRuns(w, h);
      Landed(CompareOperands(w), h, k);
    } else {
      var test, t := Start(h);
      test, t := ConditionTestRuns(test, h, t, cond);
      assert test == ConditionTest(cond);
      var k;
      if ConditionHolds(cond, f) {
        k := CompareOperandsRuns(w, t);
      } else {
        k := CompareFallbackRuns(w, t);
      }
      IfElseRuns(test, FalseCc(cond), CompareOperands(w), CompareFallback(w), h, t, k);
      Landed(ConditionalCompareCode(w), h, k);
    }
  }

  // ---------- Logical operations ----------

  lemma LogicAgrees(op: nat, a: Bits, b: Bits)
    requires op < 4 && |a| == |b| > 0
    ensures Arithmetic(AluLogic(op), a, b).0 == Logic(op, a, b)
    ensures op == 3 ==> HostFlagsMean(Arithmetic(AluLogic(op), a, b).1, false, A64.LogicFlags(Logic(op, a, b)))
  {
  }

  /** The result, and for ANDS and BICS the flags. */
  function LogicCommit(r: State, w: bv32, v: Bits, stack: bool): (s: State)
    requires 0 < |v| <= 64
  {
    var written := if stack then SetXSP(r, Reg(w, 0), v) else SetX(r, Reg(w, 0), v);
    if Field(w, 29, 2) == 3 then SetNzcv(written, A64.LogicFlags(v)) else written
  }

  lemma LogicTail(p: seq<Op>, h: Host, k: Host, w: bv32, v: Bits, stack: bool) returns (p': seq<Op>, k': Host)
    requires Runs(p, h, k) && SameGuest(h, k) && h.rcx.Pointer? && 0 < |v| <= 64 && k.rax == Extend(v, 64)
    requires Field(w, 29, 2) == 3 ==> HostFlagsMean(k.flags, false, A64.LogicFlags(v))
    ensures p' == p + Save(Reg(w, 0), stack) + (if Field(w, 29, 2) == 3 then SaveFlags(false) else [])
    ensures Runs(p', h, k') && k'.rcx.Pointer? && k'.cpu == h.cpu.(state := LogicCommit(h.cpu.state, w, v, stack))
  {
    hide Runs, Step, Extend, Field, Save, SaveFlags, HostFlagsMean, A64.LogicFlags, SetX, SetXSP, SetNzcv;
    p', k' := SaveResult(p, h, k, Reg(w, 0), stack, v);
    if Field(w, 29, 2) == 3 {
      p', k' := SaveFlagsRuns(p', h, k', false, A64.LogicFlags(v));
    } else {
      assert p' + [] == p';
    }
  }

  lemma OpRange(w: bv32)
    ensures Field(w, 29, 2) < 4 && Field(w, 22, 2) < 4
  {
    FivePowers();
  }

  lemma LogicalImmediateRuns(w: bv32, h: Host, mask: Word)
    requires h.rcx.Pointer? && MaskValue(w) == Some(mask)
    ensures Lands(LogicalImmediateCode(w, mask), h, LogicalImmediate(h.cpu.state, w).state)
    ensures LogicalImmediate(h.cpu.state, w).Through?
  {
    hide Runs, Step, Extend, Low, Field, X, Load, Save, SaveFlags, HostFlagsMean, A64.LogicFlags, SetX, SetXSP, SetNzcv, Lands, Arithmetic, DecodeBitMasks, Logic;
    var wide := Flag(w, 31);
    var op := Field(w, 29, 2);
    OpRange(w);
    var a := X(h.cpu.state, Reg(w, 5), wide);
    var b := DecodeBitMasks(BitOf(w, 22), Six(w, 10), Six(w, 16), true, Width(wide)).value.0;
    LowExtend(a, 64);
    LowExtend(b, 64);
    var p, k := Start(h);
    p, k := LoadOperand(p, h, k, Reg(w, 5), false, wide);
    p, k := Imm(p, h, k, R9, mask);
    p, k := Compute(p, h, k, AluLogic(op), wide, R9, a, b);
    LogicAgrees(op, a, b);
    p, k := LogicTail(p, h, k, w, Logic(op, a, b), op != 3);
    assert p == LogicalImmediateCode(w, mask);
    Landed(p, h, k);
  }

  // ---------- Bitfields, wide moves and addresses ----------

  lemma UnsignedBitfieldRuns(w: bv32, h: Host)
    requires h.rcx.Pointer? && BitfieldDefined(w)
    ensures BitfieldMove(h.cpu.state, w, false).Through?
    ensures Lands(UnsignedBitfieldCode(w), h, BitfieldMove(h.cpu.state, w, false).state)
  {
    hide Runs, Step, Extend, Field, X, Save, SelectedBits, Inserted, BitfieldMove, SetX, Lands;
    var p, k := SelectedBitsRuns(w, h);
    UnsignedAgrees(h.cpu.state, w);
    p, k := SaveResult(p, h, k, Reg(w, 0), false, Inserted(w, X(h.cpu.state, Reg(w, 5), Flag(w, 31))));
    assert p == UnsignedBitfieldCode(w);
    Landed(p, h, k);
  }

  /** The destination is loaded, cleared where selected, and joined with the bits kept in R10. */
  lemma MergeRuns(p: seq<Op>, h: Host, k: Host, w: bv32, inserted: Bits) returns (p': seq<Op>, k': Host)
    requires BitfieldDefined(w) && Runs(p, h, k) && k.rcx.Pointer? && |inserted| == Width(Flag(w, 31))
    requires k.r10 == Data(Extend(inserted, 64))
    ensures var wide := Flag(w, 31);
      p' == p + Load(Reg(w, 0), false, wide)
            + [MovImm(R9, Not(Shift(LSL, LowOnes(BitfieldLength(w)), Position(w))))]
            + [Alu(AndOp, wide, RAX, R9)] + [Alu(OrOp, wide, RAX, R10)]
    ensures Runs(p', h, k') && SameGuest(k, k')
    ensures k'.rax == Extend(Or(Kept(w, X(k.cpu.state, Reg(w, 0), Flag(w, 31))), inserted), 64)
  {
    hide Runs, Step, Extend, Low, Field, X, Load, Shift, And, Or, Not, LowOnes, BitfieldLength, Position;
    var wide := Flag(w, 31);
    var dst := X(k.cpu.state, Reg(w, 0), wide);
    var clear: Word := Not(Shift(LSL, LowOnes(BitfieldLength(w)), Position(w)));
    LowExtend(inserted, 64);
    LowExtend(And(dst, Low(clear, Width(wide))), 64);
    p', k' := LoadOperand(p, h, k, Reg(w, 0), false, wide);
    p', k' := AndConstant(p', h, k', wide, dst, clear);
    p', k' := Compute(p', h, k', OrOp, wide, R10, And(dst, Low(clear, Width(wide))), inserted);
  }

  lemma BitfieldMoveRuns(w: bv32, h: Host)
    requires h.rcx.Pointer? && BitfieldDefined(w)
    ensures BitfieldMove(h.cpu.state, w, true).Through?
    ensures Lands(BitfieldMoveCode(w), h, BitfieldMove(h.cpu.state, w, true).state)
  {
    hide Runs, Step, Extend, Field, X, Load, Save, SelectedBits, Inserted, Kept, BitfieldMove, SetX, Lands, Or, Not, Shift, LowOnes, Position, BitfieldLength;
    var wide := Flag(w, 31);
    var inserted := Inserted(w, X(h.cpu.state, Reg(w, 5), wide));
    var p, k := SelectedBitsRuns(w, h);
    p, k := Mov(p, h, k, R10, RAX);
    p, k := MergeRuns(p, h, k, w, inserted);
    MergeAgrees(h.cpu.state, w);
    p, k := SaveResult(p, h, k, Reg(w, 0), false, Or(Kept(w, X(h.cpu.state, Reg(w, 0), wide)), inserted));
    assert p == BitfieldMoveCode(w);
    Landed(p, h, k);
  }

  lemma PcRelativeRuns(w: bv32, pc: nat, h: Host)
    requires h.rcx.Pointer?
    ensures Lands(PcRelativeCode(pc, w), h, PcRelative(h.cpu.state, pc, w).state)
  {
    hide Runs, Step, Field, Save, SetX, Lands, FromInt;
    var displacement := Signed(4 * Field(w, 5, 19) + Field(w, 29, 2), 21);
    var target := if Flag(w, 31) then pc - pc % 4096 + 4096 * displacement else pc + displacement;
    var p, k := Start(h);
    p, k := Imm(p, h, k, RAX, FromInt(target, 64));
    ExtendFull(FromInt(target, 64));
    p, k := SaveResult(p, h, k, Reg(w, 0), false, FromInt(target, 64));
    assert p == PcRelativeCode(pc, w);
    Landed(p, h, k);
  }

  // ---------- Wide moves ----------

  /** A 16-bit immediate at its place over a base. */
  function Placed(imm: Bits, pos: nat, base: Bits): (v: Bits)
    requires |imm| == 16 && pos + 16 <= |base|
    ensures |v| == |base|
  {
    seq(|base|, i requires 0 <= i < |base| => if pos <= i < pos + 16 then imm[i - pos] else base[i])
  }

  /** The immediate, widened and shifted by the translator. */
  lemma ShiftedImmediate(v: nat, pos: nat, i: nat)
    requires v < Pow2(16) && pos + 16 <= 64 && i < 64
    ensures Shift(LSL, FromNat(v, 64), pos)[i] == (pos <= i < pos + 16 && FromNat(v, 16)[i - pos])
  {
    hide FromNat;
    WideFromNat(v, 16, 64);
    if i >= pos {
      assert FromNat(v, 64)[i - pos] == Extend(FromNat(v, 16), 64)[i - pos];
    }
  }

  /** A number that fits in k bits has no bits above them. */
  lemma {:induction false} WideFromNat(v: nat, k: nat, n: nat)
    requires v < Pow2(k) && k <= n
    ensures FromNat(v, n) == Extend(FromNat(v, k), n)
  {
    if k == 0 {
      ZeroWord(n);
      assert Extend(FromNat(v, k), n) == Zeros(n);
    } else {
      WideFromNat(v / 2, k - 1, n - 1);
      assert Extend(FromNat(v, k), n) == [v % 2 == 1] + Extend(FromNat(v / 2, k - 1), n - 1);
    }
  }

  lemma MoveZeroValue(w: bv32)
    requires MoveWideDefined(w)
    ensures var n := Width(Flag(w, 31));
      Shift(LSL, FromNat(Field(w, 5, 16), 64), 16 * Quarter(w))
      == Extend(Placed(FromNat(Field(w, 5, 16), 16), 16 * Quarter(w), Zeros(n)), 64)
  {
    hide Field, FromNat;
    var n := Width(Flag(w, 31));
    var pos := 16 * Quarter(w);
    var left := Shift(LSL, FromNat(Field(w, 5, 16), 64), pos);
    var right := Extend(Placed(FromNat(Field(w, 5, 16), 16), pos, Zeros(n)), 64);
    forall i | 0 <= i < 64 ensures left[i] == right[i] {
      ShiftedImmediate(Field(w, 5, 16), pos, i);
    }
    assert left == right;
  }

  lemma MoveNotValue(v: Bits, wide: bool)
    requires |v| == Width(wide)
    ensures (if wide then Not(Extend(v, 64)) else Extend(Low(Not(Extend(v, 64)), 32), 64)) == Extend(Not(v), 64)
  {
    var left := if wide then Not(Extend(v, 64)) else Extend(Low(Not(Extend(v, 64)), 32), 64);
    assert left == Extend(Not(v), 64);
  }

  /** MOVK: the cleared and rewritten destination. */
  lemma MoveKeepValue(v: nat, pos: nat, base: Bits)
    requires v < Pow2(16) && pos + 16 <= |base| <= 64
    ensures Or(And(Extend(base, 64), Not(Shift(LSL, LowOnes(16), pos))), Shift(LSL, FromNat(v, 64), pos))
      == Extend(Placed(FromNat(v, 16), pos, base), 64)
  {
    hide FromNat;
    var clear := Not(Shift(LSL, LowOnes(16), pos));
    var left := Or(And(Extend(base, 64), clear), Shift(LSL, FromNat(v, 64), pos));
    var right := Extend(Placed(FromNat(v, 16), pos, base), 64);
    forall i | 0 <= i < 64 ensures left[i] == right[i] {
      ShiftedImmediate(v, pos, i);
      assert clear[i] <==> !(pos <= i < pos + 16);
    }
    assert left == right;
  }

  lemma MoveKeepRuns(w: bv32, h: Host) returns (p: seq<Op>, k: Host)
    requires h.rcx.Pointer? && MoveWideDefined(w)
    ensures var wide := Flag(w, 31);
      var shift := 16 * Quarter(w);
      p == Load(Reg(w, 0), false, wide) + [MovImm(R9, Not(Shift(LSL, LowOnes(16), shift)))]
           + [Alu(AndOp, true, RAX, R9)] + [MovImm(R9, Shift(LSL, FromNat(Field(w, 5, 16), 64), shift))]
           + [Alu(OrOp, true, RAX, R9)]
    ensures Runs(p, h, k) && SameGuest(h, k)
    ensures k.rax == Extend(Placed(FromNat(Field(w, 5, 16), 16), 16 * Quarter(w), X(h.cpu.state, Reg(w, 0), Flag(w, 31))), 64)
  {
    hide Runs, Step, Extend, Low, Field, X, Load, Shift, And, Or, Not, LowOnes, FromNat, Placed;
    var wide := Flag(w, 31);
    var pos := 16 * Quarter(w);
    var base := X(h.cpu.state, Reg(w, 0), wide);
    var clear: Word := Not(Shift(LSL, LowOnes(16), pos));
    var v: Word := Shift(LSL, FromNat(Field(w, 5, 16), 64), pos);
    p, k := Start(h);
    p, k := LoadOperand(p, h, k, Reg(w, 0), false, wide);
    ExtendFull(Extend(base, 64));
    ExtendFull(clear);
    p, k := AndConstant(p, h, k, true, Extend(base, 64), clear);
    p, k := Imm(p, h, k, R9, v);
    ExtendFull(And(Extend(base, 64), clear));
    ExtendFull(v);
    p, k := Compute(p, h, k, OrOp, true, R9, And(Extend(base, 64), clear), v);
    ExtendFull(Or(And(Extend(base, 64), clear), v));
    MoveKeepValue(Field(w, 5, 16), pos, base);
  }

  /** The value MOVZ, MOVK and MOVN write. */
  function Moved(r: State, w: bv32): (v: Bits)
    requires MoveWideDefined(w)
    ensures |v| == Width(Flag(w, 31))
  {
    var wide := Flag(w, 31);
    var base := if IsMoveKeep(w) then X(r, Reg(w, 0), wide) else Zeros(Width(wide));
    var placed := Placed(FromNat(Field(w, 5, 16), 16), 16 * Quarter(w), base);
    if IsMoveNot(w) then Not(placed) else placed
  }

  lemma MovedEffect(r: State, w: bv32)
    requires MoveWideDefined(w)
    ensures MoveWide(r, w) == Through(SetX(r, Reg(w, 0), Moved(r, w)))
  {
    hide Field, FromNat, X;
  }

  lemma KeepIsNotNot(w: bv32)
    requires IsMoveKeep(w)
    ensures !IsMoveNot(w)
  {
  }

  lemma MoveWideRuns(w: bv32, h: Host)
    requires h.rcx.Pointer? && MoveWideDefined(w)
    ensures MoveWide(h.cpu.state, w).Through?
    ensures Lands(MoveWideCode(w), h, MoveWide(h.cpu.state, w).state)
  {
    hide Runs, Step, Extend, Field, X, Load, Save, SetX, Lands, Placed, FromNat, Not, Shift, LowOnes, IsMoveKeep, IsMoveNot, MoveWide, Low;
    MovedEffect(h.cpu.state, w);
    var wide := Flag(w, 31);
    var p, k;
    if IsMoveKeep(w) {
      KeepIsNotNot(w);
      p, k := MoveKeepRuns(w, h);
    } else {
      var v: Word := Shift(LSL, FromNat(Field(w, 5, 16), 64), 16 * Quarter(w));
      MoveZeroValue(w);
      MoveNotValue(Placed(FromNat(Field(w, 5, 16), 16), 16 * Quarter(w), Zeros(Width(wide))), wide);
      p, k := Start(h);
      p, k := Imm(p, h, k, RAX, if !IsMoveNot(w) then v else if wide then Not(v) else Extend(Low(Not(v), 32), 64));
    }
    p, k := SaveResult(p, h, k, Reg(w, 0), false, Moved(h.cpu.state, w));
    assert p == MoveWideCode(w);
    Landed(p, h, k);
  }

  // ---------- Shifted and extended operands, and sums ----------

  lemma ShiftOperandRuns(w: bv32, h: Host) returns (p: seq<Op>, k: Host)
    requires h.rcx.Pointer? && (Flag(w, 31) || Six(w, 10) < 32)
    ensures p == ShiftOperand(w) && Runs(p, h, k) && SameGuest(h, k)
    ensures k.rax == Extend(Shift(Kind(w, 22), X(h.cpu.state, Reg(w, 16), Flag(w, 31)), Six(w, 10)), 64)
  {
    hide Runs, Step, Extend, Field, X, Load, Shift;
    p, k := Start(h);
    p, k := LoadOperand(p, h, k, Reg(w, 16), false, Flag(w, 31));
    p, k := ShiftIfAny(p, h, k, Kind(w, 22), Flag(w, 31), Six(w, 10), X(h.cpu.state, Reg(w, 16), Flag(w, 31)));
  }

  /** The second operand of a logical instruction, possibly inverted. */
  function LogicOperand(r: State, w: bv32): (b: Bits)
    requires Flag(w, 31) || Six(w, 10) < 32
    ensures |b| == Width(Flag(w, 31))
  {
    var shifted := Shift(Kind(w, 22), X(r, Reg(w, 16), Flag(w, 31)), Six(w, 10));
    if Flag(w, 21) then Not(shifted) else shifted
  }

  lemma LogicOperandRuns(w: bv32, h: Host) returns (p: seq<Op>, k: Host)
    requires h.rcx.Pointer? && (Flag(w, 31) || Six(w, 10) < 32)
    ensures p == ShiftOperand(w) + (if Flag(w, 21) then [NotRax(Flag(w, 31))] else [])
    ensures Runs(p, h, k) && SameGuest(h, k) && k.rax == Extend(LogicOperand(h.cpu.state, w), 64)
  {
    hide Runs, Step, Extend, Field, X, ShiftOperand, Shift, Not, Low;
    var shifted := Shift(Kind(w, 22), X(h.cpu.state, Reg(w, 16), Flag(w, 31)), Six(w, 10));
    p, k := ShiftOperandRuns(w, h);
    if Flag(w, 21) {
      LowExtend(shifted, 64);
      p, k := Invert(p, h, k, Flag(w, 31), shifted);
    } else {
      assert p + [] == p;
    }
  }

  /** MOV: OR with the zero register is the operand itself. */
  lemma MoveAliasAgrees(r: State, w: bv32, b: Bits)
    requires IsMoveAlias(w) && |b| == Width(Flag(w, 31))
    ensures Logic(Field(w, 29, 2), X(r, Reg(w, 5), Flag(w, 31)), b) == b
  {
    hide Field;
    assert Or(Zeros(|b|), b) == b;
  }

  /** The logical result, left in RAX, with its host flags when they are wanted. */
  lemma LogicRuns(w: bv32, h: Host) returns (p: seq<Op>, k: Host, v: Bits)
    requires h.rcx.Pointer? && (Flag(w, 31) || Six(w, 10) < 32)
    ensures p == ShiftOperand(w) + (if Flag(w, 21) then [NotRax(Flag(w, 31))] else [])
      + (if IsMoveAlias(w) then []
         else [MovReg(R9, RAX)] + Load(Reg(w, 5), false, Flag(w, 31)) + [Alu(AluLogic(Field(w, 29, 2)), Flag(w, 31), RAX, R9)])
    ensures v == Logic(Field(w, 29, 2), X(h.cpu.state, Reg(w, 5), Flag(w, 31)), LogicOperand(h.cpu.state, w))
    ensures Runs(p, h, k) && SameGuest(h, k) && k.rax == Extend(v, 64)
    ensures Field(w, 29, 2) == 3 ==> HostFlagsMean(k.flags, false, A64.LogicFlags(v))
  {
    hide Runs, Step, Extend, Field, X, Load, ShiftOperand, LogicOperand, Low, Logic, Arithmetic, HostFlagsMean, A64.LogicFlags, AluLogic;
    var wide := Flag(w, 31);
    var op := Field(w, 29, 2);
    OpRange(w);
    var a := X(h.cpu.state, Reg(w, 5), wide);
    var b := LogicOperand(h.cpu.state, w);
    v := Logic(op, a, b);
    p, k := LogicOperandRuns(w, h);
    if IsMoveAlias(w) {
      MoveAliasAgrees(h.cpu.state, w, b);
      assert p + [] == p;
    } else {
      var before := p;
      p, k := CopyToR9(p, h, k);
      p, k := LoadOperand(p, h, k, Reg(w, 5), false, wide);
      LowExtend(a, 64);
      LowExtend(b, 64);
      p, k := Compute(p, h, k, AluLogic(op), wide, R9, a, b);
      LogicAgrees(op, a, b);
      assert p == before + ([MovReg(R9, RAX)] + Load(Reg(w, 5), false, wide) + [Alu(AluLogic(op), wide, RAX, R9)]);
    }
  }

  lemma LogicalShiftedRuns(w: bv32, h: Host)
    requires h.rcx.Pointer? && (Flag(w, 31) || Six(w, 10) < 32)
    ensures LogicalShifted(h.cpu.state, w).Through?
    ensures Lands(LogicalShiftedCode(w), h, LogicalShifted(h.cpu.state, w).state)
  {
    hide Runs, Step, Extend, Field, X, Load, Save, SaveFlags, ShiftOperand, Logic, Shift, Not, HostFlagsMean, A64.LogicFlags, SetX, SetNzcv, Lands, IsMoveAlias, AluLogic;
    var p, k, v := LogicRuns(w, h);
    p, k := LogicTail(p, h, k, w, v, false);
    assert p == LogicalShiftedCode(w);
    Landed(p, h, k);
  }

  lemma SumTail(p: seq<Op>, h: Host, k: Host, w: bv32, a: Bits, b: Bits, stack: bool) returns (p': seq<Op>, k': Host)
    requires Runs(p, h, k) && SameGuest(h, k) && h.rcx.Pointer? && |a| == |b| && 0 < |a| <= 64
    requires k.rax == Extend(Arithmetic(AddOrSub(w), a, b).0, 64) && k.flags == Arithmetic(AddOrSub(w), a, b).1
    ensures p' == p + AddTail(w, stack) && Runs(p', h, k') && k'.rcx.Pointer?
    ensures k'.cpu == h.cpu.(state := AddSubtract(h.cpu.state, w, a, b, stack).state)
  {
    hide Runs, Step, Extend, Field, Save, SaveFlags, HostFlagsMean, SetX, SetXSP, SetNzcv, Arithmetic, AddWithCarry, Not;
    var sum := SumOf(w, a, b);
    SumAgrees(w, a, b);
    p', k' := SaveResult(p, h, k, Reg(w, 0), stack && !Flag(w, 29), sum.0);
    if Flag(w, 29) {
      p', k' := SaveFlagsRuns(p', h, k', Flag(w, 30), sum.1);
    }
    assert p' == p + AddTail(w, stack);
  }

  lemma AddImmediateRuns(w: bv32, h: Host)
    requires h.rcx.Pointer?
    ensures Lands(AddImmediateCode(w), h, AddImmediate(h.cpu.state, w).state)
  {
    hide Runs, Step, Extend, Low, Field, XSP, Load, AddTail, Arithmetic, AddSubtract, Lands, FromNat, AddOrSub;
    var wide := Flag(w, 31);
    var v := Field(w, 10, 12) * (if Flag(w, 22) then 4096 else 1);
    var a := XSP(h.cpu.state, Reg(w, 5), wide);
    var b := FromNat(v, Width(wide));
    LowExtend(a, 64);
    LowFromNat(v, 64, Width(wide));
    var p, k := Start(h);
    p, k := LoadOperand(p, h, k, Reg(w, 5), true, wide);
    p, k := ComputeImm(p, h, k, AddOrSub(w), wide, FromNat(v, 64), a);
    p, k := SumTail(p, h, k, w, a, b, true);
    assert p == AddImmediateCode(w);
    Landed(p, h, k);
  }

  /** The shared tail of the register forms: the second operand is in RAX. */
  lemma AddRegistersRuns(p: seq<Op>, h: Host, k: Host, w: bv32, b: Bits, stack: bool) returns (p': seq<Op>, k': Host)
    requires Runs(p, h, k) && SameGuest(h, k) && h.rcx.Pointer? && |b| == Width(Flag(w, 31)) && k.rax == Extend(b, 64)
    ensures p' == p + AddRegisters(w, stack) && Runs(p', h, k') && k'.rcx.Pointer?
    ensures k'.cpu == h.cpu.(state := AddSubtract(h.cpu.state, w, Operand(h, Reg(w, 5), stack, Flag(w, 31)), b, stack).state)
  {
    hide Runs, Step, Extend, Low, Field, X, XSP, Load, AddTail, Arithmetic, AddSubtract, AddOrSub;
    var wide := Flag(w, 31);
    var a := Operand(h, Reg(w, 5), stack, wide);
    p', k' := CopyToR9(p, h, k);
    p', k' := LoadOperand(p', h, k', Reg(w, 5), stack, wide);
    LowExtend(a, 64);
    LowExtend(b, 64);
    p', k' := Compute(p', h, k', AddOrSub(w), wide, R9, a, b);
    p', k' := SumTail(p', h, k', w, a, b, stack);
    assert p' == p + AddRegisters(w, stack);
  }

  lemma AddShiftedRuns(w: bv32, h: Host)
    requires h.rcx.Pointer? && Field(w, 22, 2) != 3 && (Flag(w, 31) || Six(w, 10) < 32)
    ensures AddShifted(h.cpu.state, w).Through?
    ensures Lands(AddShiftedCode(w), h, AddShifted(h.cpu.state, w).state)
  {
    hide Runs, Step, Extend, Field, X, XSP, ShiftOperand, Shift, AddRegisters, AddSubtract, Lands;
    var p, k := ShiftOperandRuns(w, h);
    var b := Shift(Kind(w, 22), X(h.cpu.state, Reg(w, 16), Flag(w, 31)), Six(w, 10));
    p, k := AddRegistersRuns(p, h, k, w, b, false);
    assert p == AddShiftedCode(w);
    AddIsThrough(h.cpu.state, w, X(h.cpu.state, Reg(w, 5), Flag(w, 31)), b, false);
    Landed(p, h, k);
  }

  lemma AddIsThrough(r: State, w: bv32, a: Bits, b: Bits, stack: bool)
    requires |a| == |b| && 0 < |a| <= 64
    ensures AddSubtract(r, w, a, b, stack).Through?
  {
  }

  function ExtendSize(option: nat): (n: nat)
  {
    match option % 4 case 0 => 8 case 1 => 16 case 2 => 32 case _ => 64
  }

  /** The pair of shifts and the final left shift, on bits. */
  function PairShifted(x: Bits, option: nat, amount: nat): (z: Bits)
    requires |x| >= 32 && amount <= 4
    ensures |z| == |x|
  {
    var spare := |x| - ExtendSize(option);
    var extended := if spare > 0 then Shift(if option >= 4 then ASR else LSR, Shift(LSL, x, spare), spare) else x;
    Shift(LSL, extended, amount)
  }

  /** The shift pair selects the low bits and extends them as the architecture does. */
  lemma ExtendAgrees(x: Bits, option: nat, amount: nat)
    requires (|x| == 32 || |x| == 64) && option < 8 && amount <= 4
    ensures PairShifted(x, option, amount) == ExtendReg(x, option, amount)
  {
    var n := |x|;
    var size := ExtendSize(option);
    var z, e := PairShifted(x, option, amount), ExtendReg(x, option, amount);
    forall i | 0 <= i < n ensures z[i] == e[i] {
      var j := i - amount;
      if size >= n {
      } else if j >= 0 {
        var left := Shift(LSL, x, n - size);
        var back := Shift(if option >= 4 then ASR else LSR, left, n - size);
        assert z[i] == back[j];
        if j < size {
          assert back[j] == left[j + n - size] == x[j];
        } else {
          assert back[j] == (option >= 4 && left[n - 1]);
          assert left[n - 1] == x[size - 1];
        }
      }
    }
  }

  lemma ExtendOperandRuns(w: bv32, h: Host) returns (p: seq<Op>, k: Host)
    requires h.rcx.Pointer? && Three(w, 10) <= 4
    ensures p == ExtendOperand(w) && Runs(p, h, k) && SameGuest(h, k)
    ensures k.rax == Extend(ExtendReg(X(h.cpu.state, Reg(w, 16), Flag(w, 31)), Three(w, 13), Three(w, 10)), 64)
  {
    hide Runs, Step, Extend, Low, Field, X, Load, Shift, ExtendReg;
    var wide := Flag(w, 31);
    var option := Three(w, 13);
    var x := X(h.cpu.state, Reg(w, 16), wide);
    var spare := Width(wide) - ExtendSize(option);
    p, k := Start(h);
    p, k := LoadOperand(p, h, k, Reg(w, 16), false, wide);
    var extended := x;
    if spare > 0 {
      LowExtend(x, 64);
      p, k := ShiftRax(p, h, k, LSL, wide, spare, x);
      LowExtend(Shift(LSL, x, spare), 64);
      p, k := ShiftRax(p, h, k, if option >= 4 then ASR else LSR, wide, spare, Shift(LSL, x, spare));
      extended := Shift(if option >= 4 then ASR else LSR, Shift(LSL, x, spare), spare);
    }
    p, k := ShiftIfAny(p, h, k, LSL, wide, Three(w, 10), extended);
    ExtendAgrees(x, option, Three(w, 10));
    assert p == ExtendOperand(w);
  }

  lemma AddExtendedRuns(w: bv32, h: Host)
    requires h.rcx.Pointer? && Three(w, 10) <= 4
    ensures AddExtended(h.cpu.state, w).Through?
    ensures Lands(AddExtendedCode(w), h, AddExtended(h.cpu.state, w).state)
  {
    hide Runs, Step, Extend, Field, X, XSP, ExtendOperand, ExtendReg, AddRegisters, AddSubtract, Lands;
    var p, k := ExtendOperandRuns(w, h);
    var b := ExtendReg(X(h.cpu.state, Reg(w, 16), Flag(w, 31)), Three(w, 13), Three(w, 10));
    p, k := AddRegistersRuns(p, h, k, w, b, true);
    assert p == AddExtendedCode(w);
    AddIsThrough(h.cpu.state, w, XSP(h.cpu.state, Reg(w, 5), Flag(w, 31)), b, true);
    Landed(p, h, k);
  }
}
