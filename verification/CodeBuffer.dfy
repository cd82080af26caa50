/**
 * The emitter: code is appended, and forward jumps are emitted with a blank displacement and
 * patched once their target is known (runtime/jit.c, jcc, fix_to, fix and translate_impl).
 */
module CodeBuffer {
  import opened Basics
  import PowersOfTwo
  import opened Words
  import opened A64
  import opened HostOps
  import opened Emission
  import opened Translator
  import opened PairEmission
  import opened ScalarEmission
  import opened SystemEmission
  import LogicalMask

  predicate IsJump(op: Op)
  {
    op.Jcc? || op.Jmp?
  }

  /** A jump with its displacement filled in. */
  function Aimed(op: Op, rel: nat): (r: Op)
    requires IsJump(op)
  {
    if op.Jcc? then Jcc(op.cc, rel) else Jmp(rel)
  }

  /** Patching the jump after a prefix, with the distance to the current end. */
  lemma PatchedAt(before: seq<Op>, op: Op, after: seq<Op>, rel: nat)
    requires IsJump(op)
    ensures (before + [op] + after)[|before| := Aimed(op, rel)] == before + [Aimed(op, rel)] + after
  {
  }

  /** Patching the jump of a guard, once its body and the exits are in place. */
  lemma GuardPatched(pre: seq<Op>, check: seq<Op>, cc: Cc, rest: seq<Op>, exits: seq<Op>, exit: nat)
    requires exit <= |exits|
    ensures (pre + check + [Jcc(cc, 0)] + rest + exits)[|pre| + |check| := Jcc(cc, |rest| + exit)]
      == pre + Guard(check, cc, rest, exit) + exits
  {
    PatchedAt(pre + check, Jcc(cc, 0), rest + exits, |rest| + exit);
    assert pre + check + [Jcc(cc, 0)] + rest + exits == (pre + check) + [Jcc(cc, 0)] + (rest + exits);
  }

  /** Three checks that leave for the same exit: two on the carry, one on a comparison. */
  function ThreeChecks(first: seq<Op>, second: seq<Op>, third: seq<Op>, rest: seq<Op>, exit: nat): (code: seq<Op>)
  {
    Guard(first, CarrySet, Guard(second, CarrySet, Guard(third, Above, rest, exit), exit), exit)
  }

  /** The same checks before their jumps are aimed. */
  function BlankChecks(first: seq<Op>, second: seq<Op>, third: seq<Op>): (code: seq<Op>)
  {
    first + [Jcc(CarrySet, 0)] + second + [Jcc(CarrySet, 0)] + third + [Jcc(Above, 0)]
  }

  lemma RangeIsChecks(w: bv32, cfg: Config, exit: nat, exits: nat)
    ensures ScalarRange(w, cfg, exit, exits)
      == ThreeChecks(BaseCheck(cfg), [CompareSize(AccessBytes(w))], [SizeToR10] + RangeCheck(AccessBytes(w)),
                     ScalarTransfer(w) + [Jmp(exits)], exit)
  {
  }

  lemma FirstIsChecks(w: bv32, cfg: Config, exit: nat, exits: nat)
    ensures FirstChecks(w, cfg, exit, exits)
      == ThreeChecks(BaseCheck(cfg), [CompareSize(PairBytes(w))], [SizeToR10] + RangeCheck(PairBytes(w)),
                     SecondChecks(w, exit, exits), exit)
  {
  }

  lemma SecondIsChecks(w: bv32, exit: nat, exits: nat)
    ensures var bytes := PairBytes(w);
      SecondChecks(w, exit, exits)
      == ThreeChecks([AluRegImm(Add, R11, FromNat(bytes, 64))], [CompareSize(2 * bytes)], RangeCheck(bytes),
                     [AluRegImm(Sub, R11, FromNat(bytes, 64))] + PairEmission.Transfers(w) + [Jmp(exits)], exit)
  {
  }

  ghost function BlankTest(w: bv32): (code: seq<Op>)
  {
    ScalarAddressCode(w) + if AccessBytes(w) > 1 then [TestByte(AccessBytes(w) - 1)] + [Jcc(NotZero, 0)] else []
  }

  lemma BlankSize(first: seq<Op>, second: seq<Op>, third: seq<Op>)
    ensures |BlankChecks(first, second, third)| == |first| + |second| + |third| + 3
  {
  }

  class Code {
    var ops: seq<Op>
    const capacity: nat

    constructor (capacity: nat)
      ensures ops == [] && this.capacity == capacity
    {
      this.capacity := capacity;
      ops := [];
    }

    method Emit(code: seq<Op>)
      modifies this
      ensures ops == old(ops) + code
    {
      ops := ops + code;
    }

    /** Emits a jump with a blank displacement; the result is where to patch it. */
    method EmitJump(jump: Op) returns (p: nat)
      requires IsJump(jump)
      modifies this
      ensures p == old(|ops|) && ops == old(ops) + [Aimed(jump, 0)]
    {
      p := |ops|;
      ops := ops + [Aimed(jump, 0)];
    }

    /** Aims the jump at p at a later position. */
    method FixTo(p: nat, target: nat)
      requires p < |ops| && IsJump(ops[p]) && target > p
      modifies this
      ensures ops == old(ops)[p := Aimed(old(ops)[p], target - p - 1)]
    {
      ops := ops[p := Aimed(ops[p], target - p - 1)];
    }

    /** Aims the jump at p at the current end. */
    method Fix(p: nat)
      requires p < |ops| && IsJump(ops[p])
      modifies this
      ensures ops == old(ops)[p := Aimed(old(ops)[p], |old(ops)| - p - 1)]
    {
      FixTo(p, |ops|);
    }

    /** Two arms that rejoin: the first jump is fixed at the second arm, the second at the end. */
    method EmitIfElse(test: seq<Op>, cc: Cc, yes: seq<Op>, no: seq<Op>)
      modifies this
      ensures ops == old(ops) + IfElse(test, cc, yes, no)
    {
      ghost var start := ops + test;
      Emit(test);
      var other := EmitJump(Jcc(cc, 0));
      Emit(yes);
      var done := EmitJump(Jmp(0));
      PatchedAt(start, Jcc(cc, 0), yes + [Jmp(0)], |yes| + 1);
      assert ops == start + [Jcc(cc, 0)] + (yes + [Jmp(0)]);
      Fix(other);
      Emit(no);
      ghost var until := start + [Jcc(cc, |yes| + 1)] + yes;
      assert ops == until + [Jmp(0)] + no;
      PatchedAt(until, Jmp(0), no, |no|);
      Fix(done);
      assert ops == old(ops) + IfElse(test, cc, yes, no);
    }

    /** Two arms that return: the jump is fixed at the second. */
    method EmitIfReturn(test: seq<Op>, cc: Cc, yes: seq<Op>, no: seq<Op>)
      modifies this
      ensures ops == old(ops) + IfReturn(test, cc, yes, no)
    {
      ghost var start := ops + test;
      Emit(test);
      var fall := EmitJump(Jcc(cc, 0));
      Emit(yes);
      assert ops == start + [Jcc(cc, 0)] + yes;
      PatchedAt(start, Jcc(cc, 0), yes, |yes|);
      Fix(fall);
      Emit(no);
      assert ops == old(ops) + IfReturn(test, cc, yes, no);
    }

    method EmitSelect(w: bv32)
      modifies this
      ensures ops == old(ops) + SelectCode(w)
    {
      hide Field, ConditionTest, FalseCc, IfElse, Load, Save, SelectOther;
      var cond := Reg4(w, 12);
      var first := Load(Reg(w, 5), false, Flag(w, 31));
      if cond >= 14 {
        Emit(first);
      } else {
        EmitIfElse(ConditionTest(cond), FalseCc(cond), first, SelectOther(w));
      }
      Emit(Save(Reg(w, 0), false));
      assert ops == old(ops) + SelectCode(w);
    }

    method EmitConditionalCompare(w: bv32)
      modifies this
      ensures ops == old(ops) + ConditionalCompareCode(w)
    {
      hide Field, ConditionTest, FalseCc, IfElse, CompareOperands, CompareFallback;
      var cond := Reg4(w, 12);
      if cond >= 14 {
        Emit(CompareOperands(w));
      } else {
        EmitIfElse(ConditionTest(cond), FalseCc(cond), CompareOperands(w), CompareFallback(w));
      }
    }

    method EmitConditionalBranch(w: bv32, pc: nat, n: nat)
      modifies this
      ensures ops == old(ops) + ConditionalBranchCode(w, pc, n)
    {
      hide Field, ConditionTest, FalseCc, IfReturn, FromInt, Finish;
      var cond := Reg4(w, 0);
      var taken := Finish(FromInt(pc + 4 * Signed(Field(w, 5, 19), 19), 64), n + 1, Next);
      if cond >= 14 {
        Emit(taken);
      } else {
        EmitIfReturn(ConditionTest(cond), FalseCc(cond), taken, Finish(Onward(pc), n + 1, Next));
      }
    }

    method EmitTestBranch(w: bv32, pc: nat, n: nat)
      modifies this
      ensures ops == old(ops) + TestBranchCode(w, pc, n)
    {
      hide Field, IfReturn, FromInt, Finish, Load;
      var position := 32 * BitOf(w, 31) + Reg(w, 19);
      EmitIfReturn(
        Load(Reg(w, 0), false, position >= 32) + [BitTest(position)],
        if Flag(w, 24) then CarryClear else CarrySet,
        Finish(FromInt(pc + 4 * Signed(Field(w, 5, 14), 14), 64), n + 1, Next),
        Finish(Onward(pc), n + 1, Next));
    }

    method EmitCompareBranch(w: bv32, pc: nat, n: nat)
      modifies this
      ensures ops == old(ops) + CompareBranchCode(w, pc, n)
    {
      hide Field, IfReturn, FromInt, Finish, Load;
      EmitIfReturn(
        Load(Reg(w, 0), false, Flag(w, 31)) + [TestRax],
        if Flag(w, 24) then Zero else NotZero,
        Finish(FromInt(pc + 4 * Signed(Field(w, 5, 19), 19), 64), n + 1, Next),
        Finish(Onward(pc), n + 1, Next));
    }

    /** A check and its jump, still blank. */
    method OpenGuard(check: seq<Op>, cc: Cc) returns (p: nat)
      modifies this
      ensures p == |old(ops)| + |check| && ops == old(ops) + check + [Jcc(cc, 0)]
    {
      Emit(check);
      p := EmitJump(Jcc(cc, 0));
    }

    /** The jump of a check is aimed at its exit. */
    method CloseGuard(p: nat, target: nat, ghost pre: seq<Op>, ghost check: seq<Op>, ghost cc: Cc, ghost rest: seq<Op>,
                      ghost exits: seq<Op>, ghost exit: nat)
      requires ops == pre + check + [Jcc(cc, 0)] + rest + exits && exit <= |exits|
      requires p == |pre| + |check| && target == p + 1 + |rest| + exit
      modifies this
      ensures ops == pre + Guard(check, cc, rest, exit) + exits
      ensures |Guard(check, cc, rest, exit)| == |check| + 1 + |rest|
    {
      GuardPatched(pre, check, cc, rest, exits, exit);
      assert ops[p] == Jcc(cc, 0);
      FixTo(p, target);
    }

    /** The jump over the exits, once they are in place. */
    method CloseJump(p: nat, ghost pre: seq<Op>, ghost exits: seq<Op>)
      requires ops == pre + [Jmp(0)] + exits && p == |pre|
      modifies this
      ensures ops == pre + [Jmp(|exits|)] + exits
    {
      PatchedAt(pre, Jmp(0), exits, |exits|);
      Fix(p);
    }

    /** Three checks with blank jumps. */
    method OpenChecks(first: seq<Op>, second: seq<Op>, third: seq<Op>) returns (p: nat, q: nat, r: nat)
      modifies this
      ensures ops == old(ops) + BlankChecks(first, second, third)
      ensures p == |old(ops)| + |first| && q == p + 1 + |second| && r == q + 1 + |third|
    {
      p := OpenGuard(first, CarrySet);
      q := OpenGuard(second, CarrySet);
      r := OpenGuard(third, Above);
    }

    /** Their jumps all go to one exit. */
    method CloseChecks(p: nat, q: nat, r: nat, target: nat, ghost pre: seq<Op>, ghost first: seq<Op>, ghost second: seq<Op>,
                       ghost third: seq<Op>, ghost rest: seq<Op>, ghost exits: seq<Op>, ghost exit: nat)
      requires ops == pre + BlankChecks(first, second, third) + rest + exits && exit <= |exits|
      requires p == |pre| + |first| && q == p + 1 + |second| && r == q + 1 + |third| && target == r + 1 + |rest| + exit
      modifies this
      ensures ops == pre + ThreeChecks(first, second, third, rest, exit) + exits
      ensures |ThreeChecks(first, second, third, rest, exit)| == |BlankChecks(first, second, third)| + |rest|
    {
      hide Guard;
      ghost var s1 := pre + first + [Jcc(CarrySet, 0)];
      ghost var s2 := s1 + second + [Jcc(CarrySet, 0)];
      assert ops == s2 + third + [Jcc(Above, 0)] + rest + exits;
      CloseGuard(r, target, s2, third, Above, rest, exits, exit);
      ghost var inner := Guard(third, Above, rest, exit);
      CloseGuard(q, target, s1, second, CarrySet, inner, exits, exit);
      CloseGuard(p, target, pre, first, CarrySet, Guard(second, CarrySet, inner, exit), exits, exit);
    }

    /** The exits of a load or store, and where each starts. */
    method EmitScalarExits(w: bv32, pc: Word, n: nat, cfg: Config) returns (align: nat, data: nat)
      modifies this
      ensures ops == old(ops) + ScalarExits(w, pc, n, cfg)
      ensures align == |old(ops)| + ScalarAlignOffset(w, pc, n, cfg) && data == |old(ops)| + ScalarDataOffset(w, pc, n, cfg)
      ensures ScalarAlignOffset(w, pc, n, cfg) <= ScalarDataOffset(w, pc, n, cfg) <= |ScalarExits(w, pc, n, cfg)|
    {
      hide FaultExit, AccessBytes;
      if ChecksSp(w, cfg) { Emit(FaultExit(pc, n, SpAlignmentFault)); }
      align := |ops|;
      if AccessBytes(w) > 1 { Emit(FaultExit(pc, n, AlignmentFault)); }
      data := |ops|;
      Emit(FaultExit(pc, n, DataAbort));
    }

    /** The address, then its alignment test with a blank jump; a byte has none. */
    method OpenTest(w: bv32) returns (align: nat)
      modifies this
      ensures ops == old(ops) + BlankTest(w)
      ensures AccessBytes(w) > 1 ==> align == |old(ops)| + |ScalarAddressCode(w)| + 1
    {
      hide Field, AccessBytes, ScalarAddressCode;
      Emit(ScalarAddressCode(w));
      align := |ops|;
      if AccessBytes(w) > 1 { align := OpenGuard([TestByte(AccessBytes(w) - 1)], NotZero); }
    }

    method CloseTest(w: bv32, pc: Word, n: nat, cfg: Config, align: nat, target: nat, ghost pre: seq<Op>)
      requires var exits := ScalarExits(w, pc, n, cfg);
        var range := ScalarRange(w, cfg, ScalarDataOffset(w, pc, n, cfg), |exits|);
        && ops == pre + BlankTest(w) + range + exits && ScalarAlignOffset(w, pc, n, cfg) <= |exits|
        && target == |pre| + |BlankTest(w)| + |range| + ScalarAlignOffset(w, pc, n, cfg)
      requires AccessBytes(w) > 1 ==> align == |pre| + |ScalarAddressCode(w)| + 1
      modifies this
      ensures ops == pre + ScalarAligned(w, pc, n, cfg) + ScalarExits(w, pc, n, cfg)
      ensures |ScalarAligned(w, pc, n, cfg)|
        == |BlankTest(w)| + |ScalarRange(w, cfg, ScalarDataOffset(w, pc, n, cfg), |ScalarExits(w, pc, n, cfg)|)|
    {
      hide Field, AccessBytes, ScalarAddressCode, ScalarRange, ScalarExits, ScalarAlignOffset, ScalarDataOffset, Guard;
      ghost var exits, exit := ScalarExits(w, pc, n, cfg), ScalarDataOffset(w, pc, n, cfg);
      ghost var range := ScalarRange(w, cfg, exit, |exits|);
      if AccessBytes(w) > 1 {
        ghost var test := ScalarAddressCode(w) + [TestByte(AccessBytes(w) - 1)];
        assert pre + BlankTest(w) == pre + test + [Jcc(NotZero, 0)];
        CloseGuard(align, target, pre, test, NotZero, range, exits, ScalarAlignOffset(w, pc, n, cfg));
      } else {
        assert pre + BlankTest(w) + range == pre + (ScalarAddressCode(w) + range);
      }
    }

    /** The range checks, the access and the exits, with the jumps of these checks patched. */
    method EmitRange(w: bv32, pc: Word, n: nat, cfg: Config) returns (end: nat, align: nat)
      modifies this
      ensures var exits := ScalarExits(w, pc, n, cfg);
        var range := ScalarRange(w, cfg, ScalarDataOffset(w, pc, n, cfg), |exits|);
        && ops == old(ops) + range + exits && end == |old(ops)| + |range| && align == end + ScalarAlignOffset(w, pc, n, cfg)
      ensures ScalarAlignOffset(w, pc, n, cfg) <= |ScalarExits(w, pc, n, cfg)|
    {
      hide Field, BlankChecks, ThreeChecks, ScalarRange, ScalarExits, ScalarAlignOffset, ScalarDataOffset, Guard, AccessBytes, BaseCheck,
        RangeCheck, ScalarTransfer;
      ghost var s0 := ops;
      ghost var first, second, third := BaseCheck(cfg), [CompareSize(AccessBytes(w))], [SizeToR10] + RangeCheck(AccessBytes(w));
      var below, short, bound := OpenChecks(BaseCheck(cfg), [CompareSize(AccessBytes(w))], [SizeToR10] + RangeCheck(AccessBytes(w)));
      ghost var s1 := ops;
      Emit(ScalarTransfer(w));
      var next := EmitJump(Jmp(0));
      end := |ops|;
      var data;
      align, data := EmitScalarExits(w, pc, n, cfg);
      ghost var exits, exit := ScalarExits(w, pc, n, cfg), ScalarDataOffset(w, pc, n, cfg);
      CloseJump(next, s1 + ScalarTransfer(w), exits);
      ghost var pass := ScalarTransfer(w) + [Jmp(|exits|)];
      assert ops == s0 + BlankChecks(first, second, third) + pass + exits;
      BlankSize(first, second, third);
      CloseChecks(below, short, bound, data, s0, first, second, third, pass, exits, exit);
      RangeIsChecks(w, cfg, exit, |exits|);
    }

    /** A load or store of one register: checks with blank jumps, the access, the exits, then the patches. */
    method EmitScalar(w: bv32, pc: Word, n: nat, cfg: Config)
      modifies this
      ensures ops == old(ops) + ScalarCode(w, pc, n, cfg)
    {
      hide Field, Load, SpCheck, BlankTest, ScalarAddressCode, ScalarAligned, ScalarRange, ScalarExits, ScalarAlignOffset, ScalarDataOffset,
        Guard, AccessBytes, Reg, ChecksSp;
      Emit([StoreInstruction(w)]);
      ghost var s0 := ops;
      var sp := |ops|;
      if ChecksSp(w, cfg) { sp := OpenGuard(SpCheck(), NotZero); } else { Emit(Load(Reg(w, 5), true, true)); }
      ghost var s1 := ops;
      var align := OpenTest(w);
      var end, alignTarget := EmitRange(w, pc, n, cfg);
      ghost var exits := ScalarExits(w, pc, n, cfg);
      CloseTest(w, pc, n, cfg, align, alignTarget, s1);
      CloseSp(w, cfg, sp, end, s0, Load(Reg(w, 5), true, true), ScalarAligned(w, pc, n, cfg), exits);
      assert s0 + ScalarChecks(w, pc, n, cfg) + exits == old(ops) + ScalarCode(w, pc, n, cfg);
    }

    /** The stack-alignment jump goes to the first exit. */
    method CloseSp(w: bv32, cfg: Config, p: nat, target: nat, ghost pre: seq<Op>, ghost otherwise: seq<Op>, ghost rest: seq<Op>,
                   ghost exits: seq<Op>)
      requires ops == pre + (if ChecksSp(w, cfg) then SpCheck() + [Jcc(NotZero, 0)] else otherwise) + rest + exits
      requires ChecksSp(w, cfg) ==> p == |pre| + |SpCheck()| && target == p + 1 + |rest|
      modifies this
      ensures ops == pre + (if ChecksSp(w, cfg) then Guard(SpCheck(), NotZero, rest, 0) else otherwise + rest) + exits
    {
      hide SpCheck, Guard, ChecksSp;
      if ChecksSp(w, cfg) {
        CloseGuard(p, target, pre, SpCheck(), NotZero, rest, exits, 0);
      } else {
        assert pre + otherwise + rest + exits == pre + (otherwise + rest) + exits;
      }
    }

    method EmitPairExits(w: bv32, pc: Word, n: nat, cfg: Config) returns (align: nat, data: nat)
      modifies this
      ensures ops == old(ops) + Exits(w, pc, n, cfg)
      ensures align == |old(ops)| + AlignOffset(w, pc, n, cfg) && data == |old(ops)| + DataOffset(w, pc, n, cfg)
      ensures AlignOffset(w, pc, n, cfg) <= DataOffset(w, pc, n, cfg) <= |Exits(w, pc, n, cfg)|
    {
      hide FaultExit;
      if ChecksSp(w, cfg) { Emit(FaultExit(pc, n, SpAlignmentFault)); }
      align := |ops|;
      Emit(FaultExit(pc, n, AlignmentFault));
      data := |ops|;
      Emit(FaultExit(pc, n, DataAbort));
    }

    /** The second element's checks, the transfers and the exits, with the jumps of these checks patched. */
    method EmitSecond(w: bv32, pc: Word, n: nat, cfg: Config) returns (end: nat, align: nat, data: nat)
      modifies this
      ensures var exits := Exits(w, pc, n, cfg);
        var second := SecondChecks(w, DataOffset(w, pc, n, cfg), |exits|);
        && ops == old(ops) + second + exits && end == |old(ops)| + |second|
        && align == end + AlignOffset(w, pc, n, cfg) && data == end + DataOffset(w, pc, n, cfg)
      ensures AlignOffset(w, pc, n, cfg) <= DataOffset(w, pc, n, cfg) <= |Exits(w, pc, n, cfg)|
    {
      hide Field, BlankChecks, ThreeChecks, SecondChecks, Exits, AlignOffset, DataOffset, Guard, RangeCheck, PairEmission.Transfers, FromNat;
      var bytes := PairBytes(w);
      ghost var s0 := ops;
      ghost var first, second, third := [AluRegImm(Add, R11, FromNat(bytes, 64))], [CompareSize(2 * bytes)], RangeCheck(bytes);
      var wrapped, short, bound := OpenChecks([AluRegImm(Add, R11, FromNat(bytes, 64))], [CompareSize(2 * bytes)], RangeCheck(bytes));
      ghost var s1 := ops;
      var pass := [AluRegImm(Sub, R11, FromNat(bytes, 64))] + PairEmission.Transfers(w);
      Emit(pass);
      var next := EmitJump(Jmp(0));
      end := |ops|;
      align, data := EmitPairExits(w, pc, n, cfg);
      ghost var exits, exit := Exits(w, pc, n, cfg), DataOffset(w, pc, n, cfg);
      CloseJump(next, s1 + pass, exits);
      ghost var rest := pass + [Jmp(|exits|)];
      assert ops == s0 + BlankChecks(first, second, third) + rest + exits;
      BlankSize(first, second, third);
      CloseChecks(wrapped, short, bound, data, s0, first, second, third, rest, exits, exit);
      SecondIsChecks(w, exit, |exits|);
    }

    /** A pair: both elements are checked before the first transfer; then the transfers, the exits and the patches. */
    method EmitPair(w: bv32, pc: Word, n: nat, cfg: Config)
      modifies this
      ensures ops == old(ops) + PairCode(w, pc, n, cfg)
    {
      hide Field, SpCheck, BlankChecks, ThreeChecks, AddressCode, FirstChecks, SecondChecks, Exits, AlignOffset, DataOffset, Guard, PairBytes,
        Reg, ChecksSp, BaseCheck, RangeCheck;
      ghost var first, second, third := BaseCheck(cfg), [CompareSize(PairBytes(w))], [SizeToR10] + RangeCheck(PairBytes(w));
      Emit([StoreInstruction(w)]);
      ghost var s0 := ops;
      var sp := |ops|;
      if ChecksSp(w, cfg) { sp := OpenGuard(SpCheck(), NotZero); } else { assert ops == s0 + []; }
      ghost var s1 := ops;
      var align := OpenGuard(AddressCode(w), NotZero);
      ghost var s2 := ops;
      var below, short, bound := OpenChecks(BaseCheck(cfg), [CompareSize(PairBytes(w))], [SizeToR10] + RangeCheck(PairBytes(w)));
      var end, alignTarget, dataTarget := EmitSecond(w, pc, n, cfg);
      ghost var exits, exit := Exits(w, pc, n, cfg), DataOffset(w, pc, n, cfg);
      ghost var rest := SecondChecks(w, exit, |exits|);
      BlankSize(first, second, third);
      CloseChecks(below, short, bound, dataTarget, s2, first, second, third, rest, exits, exit);
      FirstIsChecks(w, cfg, exit, |exits|);
      ghost var range := FirstChecks(w, cfg, exit, |exits|);
      CloseGuard(align, alignTarget, s1, AddressCode(w), NotZero, range, exits, AlignOffset(w, pc, n, cfg));
      ghost var aligned := Guard(AddressCode(w), NotZero, range, AlignOffset(w, pc, n, cfg));
      CloseSp(w, cfg, sp, end, s0, [], aligned, exits);
      assert [] + aligned == aligned;
      assert s0 + Checks(w, pc, n, cfg) + exits == old(ops) + PairCode(w, pc, n, cfg);
    }

    /** A native load or store: reported, trapped, or emitted with its checks. */
    method EmitMemory(w: bv32, pc: nat, n: nat, cfg: Config) returns (ends: bool)
      modifies this
      ensures var piece := TranslateMemory(w, pc, n, cfg); ops == old(ops) + piece.ops && ends == piece.ends
    {
      hide Field, PairValid, ScalarValid, FaultCode, FromInt, PairCode, ScalarCode, IsPair;
      ends := true;
      if if IsPair(w) then !PairValid(w) else !ScalarValid(w) {
        Emit(FaultCode(w, FromInt(pc, 64), n, UndefinedInstruction));
      } else if !Supported(cfg) {
        Emit(FaultCode(w, FromInt(pc, 64), n, SystemRegisterTrap));
      } else {
        ends := false;
        if IsPair(w) { EmitPair(w, FromInt(pc, 64), n, cfg); } else { EmitScalar(w, FromInt(pc, 64), n, cfg); }
      }
    }

    method EmitFault(w: bv32, pc: nat, n: nat, status: Status)
      modifies this
      ensures ops == old(ops) + FaultCode(w, FromInt(pc, 64), n, status)
    {
      hide FaultCode, FromInt;
      Emit(FaultCode(w, FromInt(pc, 64), n, status));
    }

    /** A read of an identification register: two patched jumps around the trap. */
    method EmitIdentity(w: bv32, pc: Word, n: nat)
      modifies this
      ensures ops == old(ops) + IdentityCode(w, pc, n)
    {
      hide Field, FaultCode, Save, IdentityValue;
      ghost var s0 := ops + [CompareLevel(1)];
      var wrongLevel := OpenGuard([CompareLevel(1)], NotZero);
      Emit([LoadHcr] + [OrScr]);
      var allowed := EmitJump(Jcc(Zero, 0));
      ghost var controls := [LoadHcr] + [OrScr] + [Jcc(Zero, 0)];
      assert ops == s0 + [Jcc(NotZero, 0)] + controls;
      PatchedAt(s0, Jcc(NotZero, 0), controls, 3);
      Fix(wrongLevel);
      ghost var s1 := s0 + [Jcc(NotZero, 3)] + ([LoadHcr] + [OrScr]);
      var trap := FaultCode(w, pc, n, SystemRegisterTrap);
      Emit(trap);
      assert ops == s1 + [Jcc(Zero, 0)] + trap;
      PatchedAt(s1, Jcc(Zero, 0), trap, |trap|);
      Fix(allowed);
      Emit([MovImm(RAX, IdentityValue(w))] + Save(Reg(w, 0), false));
      assert ops == old(ops) + IdentityCode(w, pc, n);
    }

    /** Thread and identification registers. */
    method EmitSystem(w: bv32, pc: nat, n: nat, cfg: Config) returns (known: bool, ends: bool)
      modifies this
      ensures var piece := TranslateSystem(w, pc, n, cfg);
        known == piece.Some? && (known ==> ops == old(ops) + piece.value.ops && ends == piece.value.ends) && (!known ==> ops == old(ops))
    {
      hide IsIdentity, ThreadOf, Field, FaultCode, FromInt, IdentityCode, ThreadCode, ThreadDenied;
      known, ends := true, false;
      if IsIdentity(w) {
        EmitIdentity(w, FromInt(pc, 64), n);
      } else if IsThread(w) {
        var t := ThreadOf(w).value;
        if ThreadDenied(cfg.el, t, Flag(w, 21)) {
          EmitFault(w, pc, n, UndefinedInstruction);
          ends := true;
        } else {
          Emit(ThreadCode(w, t));
        }
      } else {
        known := false;
      }
    }

    /** The immediate of a logical instruction is computed, or the encoding is undefined. */
    method EmitLogicalImmediate(w: bv32, pc: nat, n: nat) returns (ends: bool)
      modifies this
      ensures ops == old(ops) + (if MaskValue(w).Some? then LogicalImmediateCode(w, MaskValue(w).value)
                                 else FaultCode(w, FromInt(pc, 64), n, UndefinedInstruction))
      ensures ends == MaskValue(w).None?
    {
      hide MaskValue, LogicalImmediateCode, FaultCode, FromInt;
      var mask := LogicalMask.ComputeMask(w);
      ends := mask.None?;
      if ends { EmitFault(w, pc, n, UndefinedInstruction); } else { Emit(LogicalImmediateCode(w, mask.value)); }
    }

    /** Code for a defined encoding, or the report of an undefined one. */
    method EmitChecked(defined: bool, code: seq<Op>, w: bv32, pc: nat, n: nat) returns (ends: bool)
      modifies this
      ensures ops == old(ops) + (if defined then code else FaultCode(w, FromInt(pc, 64), n, UndefinedInstruction)) && ends == !defined
    {
      hide FaultCode, FromInt;
      ends := !defined;
      if defined { Emit(code); } else { EmitFault(w, pc, n, UndefinedInstruction); }
    }

    /** The data-processing classes, tested in the order of the translator. */
    method EmitData(w: bv32, pc: nat, n: nat) returns (known: bool, ends: bool)
      modifies this
      ensures var piece := TranslateData(w, pc, n);
        known == piece.Some? && (known ==> ops == old(ops) + piece.value.ops && ends == piece.value.ends) && (!known ==> ops == old(ops))
    {
      hide Field, FromInt, IsPcRelative, IsAddImmediate, IsLogicalImmediate, IsMoveWide, IsBitfieldMove, IsUnsignedBitfieldMove,
        IsLogicalShifted, IsAddShifted, IsAddExtended, IsConditionalCompare, IsConditionalSelect, IsVariableShift, IsMultiplyAdd,
        PcRelativeCode, AddImmediateCode, LogicalImmediateCode, MoveWideCode, BitfieldMoveCode, UnsignedBitfieldCode, LogicalShiftedCode,
        AddShiftedCode, AddExtendedCode, ConditionalCompareCode, SelectCode, VariableShiftCode, MultiplyAddCode, FaultCode, MaskValue,
        BitfieldDefined, MoveWideDefined;
      known, ends := true, false;
      if IsConditionalSelect(w) {
        EmitSelect(w);
      } else if IsVariableShift(w) {
        Emit(VariableShiftCode(w));
      } else if IsMultiplyAdd(w) {
        Emit(MultiplyAddCode(w));
      } else if IsConditionalCompare(w) {
        EmitConditionalCompare(w);
      } else if IsBitfieldMove(w) {
        ends := EmitChecked(BitfieldDefined(w), if BitfieldDefined(w) then BitfieldMoveCode(w) else [], w, pc, n);
      } else if IsUnsignedBitfieldMove(w) {
        ends := EmitChecked(BitfieldDefined(w), if BitfieldDefined(w) then UnsignedBitfieldCode(w) else [], w, pc, n);
      } else if IsLogicalImmediate(w) {
        ends := EmitLogicalImmediate(w, pc, n);
      } else if IsMoveWide(w) {
        ends := EmitChecked(MoveWideDefined(w), MoveWideCode(w), w, pc, n);
      } else if IsPcRelative(w) {
        Emit(PcRelativeCode(pc, w));
      } else if IsLogicalShifted(w) {
        ends := EmitChecked(Flag(w, 31) || Six(w, 10) < 32, LogicalShiftedCode(w), w, pc, n);
      } else if IsAddImmediate(w) {
        Emit(AddImmediateCode(w));
      } else if IsAddExtended(w) {
        ends := EmitChecked(Three(w, 10) <= 4, AddExtendedCode(w), w, pc, n);
      } else if IsAddShifted(w) {
        ends := EmitChecked(Field(w, 22, 2) != 3 && (Flag(w, 31) || Six(w, 10) < 32), AddShiftedCode(w), w, pc, n);
      } else {
        known := false;
      }
    }

    method EmitBranch(w: bv32, pc: nat, n: nat) returns (known: bool)
      modifies this
      ensures var piece := TranslateBranch(w, pc, n);
        known == piece.Some? && (known ==> ops == old(ops) + piece.value.ops && piece.value.ends) && (!known ==> ops == old(ops))
    {
      hide Field, FromInt, IsConditionalBranch, IsRegisterBranch, IsImmediateBranch, IsCompareBranch, IsTestBranch, FaultCode,
        ConditionalBranchCode, RegisterBranchCode, ImmediateBranchCode, CompareBranchCode, TestBranchCode;
      known := true;
      if IsConditionalBranch(w) {
        EmitConditionalBranch(w, pc, n);
      } else if IsTestBranch(w) {
        EmitTestBranch(w, pc, n);
      } else if IsCompareBranch(w) {
        EmitCompareBranch(w, pc, n);
      } else if IsImmediateBranch(w) {
        Emit(ImmediateBranchCode(w, pc, n));
      } else if IsRegisterBranch(w) {
        if Reg(w, 5) == 31 { EmitFault(w, pc, n, UndefinedInstruction); } else { Emit(RegisterBranchCode(w, pc, n)); }
      } else {
        known := false;
      }
    }

    /** One word: the tests of the translator, in order, each emitting its own code. */
    method EmitWord(w: bv32, pc: nat, n: nat, cfg: Config) returns (ends: bool)
      modifies this
      ensures var piece := Translate(w, pc, n, cfg); ops == old(ops) + piece.ops && ends == piece.ends
    {
      hide TranslateData, TranslateSystem, TranslateMemory, TranslateBranch, ControlAbsent, IsMemory, Boundary, FaultCode, Finish, FromInt;
      ghost var before := ops;
      if ControlAbsent(w, cfg.el) {
        EmitFault(w, pc, n, UndefinedInstruction);
        return true;
      }
      if IsMemory(w) && !cfg.native {
        EmitFault(w, pc, n, Handover);
        return true;
      }
      var known;
      known, ends := EmitData(w, pc, n);
      if known { return; }
      known, ends := EmitSystem(w, pc, n, cfg);
      if known { return; }
      if IsMemory(w) {
        ends := EmitMemory(w, pc, n, cfg);
        return;
      }
      known := EmitBranch(w, pc, n);
      ends := true;
      if known { return; }
      if w == NOP {
        assert before + [] == before;
        ends := false;
      } else if w == HLT {
        Emit(Finish(Onward(pc), n + 1, Halt));
      } else {
        EmitFault(w, pc, n, Boundary(w, cfg.el));
      }
    }

    /** The translation loop; the result says whether the code overflowed its buffer. */
    method TranslateBlock(g: Guest, start: nat, limit: nat, cfg: Config) returns (full: bool)
      modifies this
      ensures ops == Block(g, start, 0, limit, cfg)
      ensures full == (|ops| > capacity)
    {
      hide Translate, Fetch, Finish, FromInt;
      ops := [];
      var pc, n := start, 0;
      while n < limit
        invariant 0 <= n <= limit && 0 <= pc
        invariant n < limit ==> ops + Block(g, pc, n, limit, cfg) == Block(g, start, 0, limit, cfg)
        invariant n == limit ==> ops == Block(g, start, 0, limit, cfg)
      {
        var fetched := Fetch(g, pc);
        if fetched.None? {
          Emit(Finish(FromInt(pc, 64), n, InstructionAbort));
          break;
        }
        ghost var before := ops;
        var ends := EmitWord(fetched.value, pc, n, cfg);
        if ends {
          break;
        }
        ghost var piece := Translate(fetched.value, pc, n, cfg);
        if n + 1 == limit {
          Emit(Finish(Onward(pc), n + 1, Next));
          assert before + (piece.ops + Finish(Onward(pc), n + 1, Next)) == ops;
        } else {
          assert before + (piece.ops + Block(g, (pc + 4) % PowersOfTwo.Pow2(64), n + 1, limit, cfg))
            == ops + Block(g, (pc + 4) % PowersOfTwo.Pow2(64), n + 1, limit, cfg);
        }
        pc := (pc + 4) % PowersOfTwo.Pow2(64);
        n := n + 1;
      }
      full := |ops| > capacity;
    }
  }
}
