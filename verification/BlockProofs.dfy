/**
 * Translation is correct: the code of one word does what the architecture says of it, and the
 * code of a block leaves the guest as executing its instructions one by one would.
 */
module BlockProofs {
  import opened Basics
  import opened PowersOfTwo
  import opened Words
  import opened A64
  import opened HostOps
  import opened Emission
  import opened HostRuns
  import opened ConditionProofs
  import opened BitfieldProofs
  import opened DataProofs
  import opened EpilogueProofs
  import opened PairEmission
  import opened PairProofs
  import opened ScalarEmission
  import opened ScalarProofs
  import opened SystemEmission
  import opened SystemProofs
  import opened EncodingProofs
  import opened OtherEncodings
  import opened Translator

  /** Two returning arms, each ending at its own target. */
  lemma TwoTargets(test: seq<Op>, cc: Cc, taken: Word, onward: Word, count: nat, h: Host, k: Host)
    requires Runs(test, h, k) && k.rcx.Pointer? && Readable(cc, k.flags)
    ensures Returns(IfReturn(test, cc, Finish(taken, count, Next), Finish(onward, count, Next)), h,
      k.cpu.(pc := if Holds(cc, k.flags) then onward else taken, retired := Retire(k.cpu.retired, count)), Next)
  {
    hide Runs, Step, Finish, IfReturn, Pow2, Run;
    FinishAlone(k, taken, count, Next);
    FinishAlone(k, onward, count, Next);
    IfReturnRuns(test, cc, Finish(taken, count, Next), Finish(onward, count, Next), h, k);
  }

  /** What code for the word at pc, number n of its block, must do. */
  predicate Meets(piece: Piece, effect: Effect, h: Host, w: bv32, pc: nat, n: nat)
  {
    var cpu := h.cpu;
    match effect
    case Through(r) => !piece.ends && Lands(piece.ops, h, r)
    case Jump(r, target) =>
      piece.ends && Returns(piece.ops, h, cpu.(state := r, pc := target, retired := Retire(cpu.retired, n + 1)), Next)
    case Exit(r) =>
      piece.ends && Returns(piece.ops, h, cpu.(state := r, pc := Onward(pc), retired := Retire(cpu.retired, n + 1)), Halt)
    case Fault(r, status) =>
      Returns(piece.ops, h,
        cpu.(state := r, pc := FromInt(pc, 64), retired := Retire(cpu.retired, n)), status)
  }

  // ---------- Branches ----------

  lemma ConditionalBranchRuns(w: bv32, pc: nat, n: nat, h: Host)
    requires h.rcx.Pointer?
    ensures Meets(Piece(ConditionalBranchCode(w, pc, n), true), ConditionalBranch(h.cpu.state, pc, w), h, w, pc, n)
  {
    hide Runs, Step, Field, FromInt, GetNzcv, ConditionTest, FalseCc, ConditionHolds, Finish, IfReturn, Pow2, Returns;
    var cond := Reg4(w, 0);
    var taken := FromInt(pc + 4 * Signed(Field(w, 5, 19), 19), 64);
    if cond >= 14 {
      AlwaysHolds(cond, GetNzcv(h.cpu.state));
      FinishAlone(h, taken, n + 1, Next);
    } else {
      var p, k := Start(h);
      p, k := ConditionTestRuns(p, h, k, cond);
      assert p == ConditionTest(cond);
      TwoTargets(p, FalseCc(cond), taken, Onward(pc), n + 1, h, k);
    }
  }

  /** The tested bit is the same whether or not the upper half was loaded. */
  lemma TestedBit(r: State, n: nat, position: nat)
    requires n < 32 && position < 64
    ensures Extend(X(r, n, position >= 32), 64)[position] == X(r, n, true)[position]
  {
  }

  lemma TestBranchRuns(w: bv32, pc: nat, n: nat, h: Host)
    requires h.rcx.Pointer?
    ensures Meets(Piece(TestBranchCode(w, pc, n), true), TestBranch(h.cpu.state, pc, w), h, w, pc, n)
  {
    hide Runs, Field, FromInt, Finish, IfReturn, Pow2, Returns, X, Extend, Load;
    var position := 32 * BitOf(w, 31) + Reg(w, 19);
    var p, k := Start(h);
    p, k := LoadOperand(p, h, k, Reg(w, 0), false, position >= 32);
    TestedBit(h.cpu.state, Reg(w, 0), position);
    var k1 := k.(flags := CarryOnly(k.rax[position]));
    p := Do(p, h, k, BitTest(position), k1);
    TwoTargets(p, if Flag(w, 24) then CarryClear else CarrySet,
               FromInt(pc + 4 * Signed(Field(w, 5, 14), 14), 64), Onward(pc), n + 1, h, k1);
    assert p == Load(Reg(w, 0), false, position >= 32) + [BitTest(position)];
  }

  lemma ExtendZero(v: Bits)
    requires |v| <= 64
    ensures IsZero(Extend(v, 64)) <==> IsZero(v)
  {
    forall i | 0 <= i < |v| ensures Extend(v, 64)[i] == v[i] {
    }
  }

  lemma CompareBranchRuns(w: bv32, pc: nat, n: nat, h: Host)
    requires h.rcx.Pointer?
    ensures Meets(Piece(CompareBranchCode(w, pc, n), true), CompareBranch(h.cpu.state, pc, w), h, w, pc, n)
  {
    hide Runs, Field, FromInt, Finish, IfReturn, Pow2, Returns, X, Extend, Load, IsZero;
    var wide := Flag(w, 31);
    var p, k := Start(h);
    p, k := LoadOperand(p, h, k, Reg(w, 0), false, wide);
    ExtendZero(X(h.cpu.state, Reg(w, 0), wide));
    var k1 := k.(flags := HostOps.LogicFlags(k.rax));
    p := Do(p, h, k, TestRax, k1);
    TwoTargets(p, if Flag(w, 24) then Zero else NotZero,
               FromInt(pc + 4 * Signed(Field(w, 5, 19), 19), 64), Onward(pc), n + 1, h, k1);
    assert p == Load(Reg(w, 0), false, wide) + [TestRax];
  }

  /** The link register receives the address of the next instruction. */
  lemma LinkRuns(p: seq<Op>, h: Host, k: Host, pc: nat) returns (p': seq<Op>, k': Host)
    requires Runs(p, h, k) && k.rcx.Pointer?
    ensures p' == p + Link(pc) && Runs(p', h, k')
    ensures k'.r9 == k.r9 && k'.rcx == k.rcx && k'.cpu == k.cpu.(state := SetX(k.cpu.state, 30, Onward(pc)))
  {
    hide Runs, FromInt, Extend;
    p', k' := Imm(p, h, k, RAX, Onward(pc));
    var k0 := k';
    ExtendFull(Onward(pc));
    k' := k0.(cpu := k0.cpu.(state := SetX(k0.cpu.state, 30, Onward(pc))));
    p' := Do(p', h, k0, StoreX(30), k');
    assert p' == p + Link(pc);
  }

  lemma ImmediateBranchRuns(w: bv32, pc: nat, n: nat, h: Host)
    requires h.rcx.Pointer?
    ensures Meets(Piece(ImmediateBranchCode(w, pc, n), true), ImmediateBranch(h.cpu.state, pc, w), h, w, pc, n)
  {
    hide Runs, Step, Field, FromInt, Finish, Pow2, Returns, Link, SetX;
    var p, k := Start(h);
    if Flag(w, 31) {
      p, k := LinkRuns(p, h, k, pc);
      assert p == Link(pc);
    }
    FinishRuns(p, h, k, FromInt(pc + 4 * Signed(Field(w, 0, 26), 26), 64), n + 1, Next);
  }

  /** The epilogue of a register branch, with the target kept in R9. */
  lemma ReturnToR9(p: seq<Op>, h: Host, k: Host, count: nat)
    requires Runs(p, h, k) && k.rcx.Pointer?
    ensures Returns(p + [StorePc(R9)] + [AddRetired(count)] + [Ret(Next)], h,
      k.cpu.(pc := k.r9, retired := Retire(k.cpu.retired, count)), Next)
  {
    hide Runs, Pow2, Returns;
    var k1 := k.(cpu := k.cpu.(pc := k.r9));
    var q := Do(p, h, k, StorePc(R9), k1);
    var k2 := k1.(cpu := k1.cpu.(retired := Retire(k1.cpu.retired, count)), flags := Unknown);
    q := Do(q, h, k1, AddRetired(count), k2);
    ReturnsNow(q, h, k2, Next);
  }

  lemma RegisterBranchRuns(w: bv32, pc: nat, n: nat, h: Host)
    requires h.rcx.Pointer? && Reg(w, 5) != 31
    ensures Meets(Piece(RegisterBranchCode(w, pc, n), true), RegisterBranch(h.cpu.state, pc, w), h, w, pc, n)
  {
    hide Runs, Step, Field, FromInt, Pow2, Returns, Link, SetX, X, Load, IsBranchLinkRegister, Extend;
    var target := X(h.cpu.state, Reg(w, 5), true);
    var p, k := Start(h);
    p, k := LoadOperand(p, h, k, Reg(w, 5), false, true);
    ExtendFull(target);
    p, k := CopyToR9(p, h, k);
    if IsBranchLinkRegister(w) {
      p, k := LinkRuns(p, h, k, pc);
    } else {
      assert p + [] == p;
    }
    ReturnToR9(p, h, k, n + 1);
    assert p + [StorePc(R9)] + [AddRetired(n + 1)] + [Ret(Next)] == RegisterBranchCode(w, pc, n);
  }

  // ---------- One word ----------

  /** A register branch through register 31, which the architecture takes to address zero. */
  predicate BranchesThroughZero(w: bv32)
  {
    IsRegisterBranch(w) && Reg(w, 5) == 31
  }

  /** A native load or store that the translator does not decode, or that accesses memory where data are big-endian. */
  predicate RefusedTransfer(w: bv32, cfg: Config)
  {
    cfg.native && IsMemory(w) && (Undecoded(w) || (cfg.bigEndian && Accesses(w)))
  }

  /** The words of this subset that the translator refuses although the architecture performs them. */
  predicate Departs(w: bv32, cfg: Config)
  {
    BranchesThroughZero(w) || RefusedTransfer(w, cfg)
  }

  /** What this profile does with the words, other than loads and stores, that the model of the architecture omits. */
  function Reported(r: State, cfg: Config, w: bv32): (effect: Effect)
  {
    if IsIdentity(w) then ReadIdentity(r, w)
    else if IsThread(w) then MoveThread(r, cfg.el, w, ThreadOf(w).value)
    else Fault(r.(instruction := w), Boundary(w, cfg.el))
  }

  /** The instruction as this processor profile defines it; address tags are not looked at. */
  function Profile(r: State, pc: nat, cfg: Config, w: bv32): (effect: Effect)
  {
    if BranchesThroughZero(w) then Undefined(r, w)
    else if IsMemory(w) then (if cfg.native then TransferProfile(r, cfg, w) else Fault(r.(instruction := w), Handover))
    else
      var effect := Execute(r, pc, cfg.(tagged := false), w);
      if effect.Some? then effect.value else Reported(r, cfg, w)
  }

  function Checked(defined: bool, ops: seq<Op>, w: bv32, pc: nat, n: nat): (piece: Piece)
  {
    if defined then Piece(ops, false) else UndefinedPiece(w, pc, n)
  }

  function ThreadPiece(w: bv32, pc: nat, n: nat, cfg: Config): (piece: Piece)
  {
    if !IsThread(w) || ThreadDenied(cfg.el, ThreadOf(w).value, Flag(w, 21)) then UndefinedPiece(w, pc, n)
    else Piece(ThreadCode(w, ThreadOf(w).value), false)
  }

  /** The code of each class. */
  function PieceOf(c: Class, w: bv32, pc: nat, n: nat, cfg: Config): (piece: Piece)
  {
    match c
    case Memory => Piece(FaultCode(w, FromInt(pc, 64), n, Handover), true)
    case Thread => ThreadPiece(w, pc, n, cfg)
    case Identity => Piece(IdentityCode(w, FromInt(pc, 64), n), false)
    case System => Piece(FaultCode(w, FromInt(pc, 64), n, Boundary(w, cfg.el)), true)
    case Native => TranslateMemory(w, pc, n, cfg)
    case PcRel => Piece(PcRelativeCode(pc, w), false)
    case AddImm => Piece(AddImmediateCode(w), false)
    case LogicImm => Checked(MaskValue(w).Some?, LogicalImmediateCode(w, if MaskValue(w).Some? then MaskValue(w).value else Zeros(64)), w, pc, n)
    case Wide => Checked(MoveWideDefined(w), MoveWideCode(w), w, pc, n)
    case Bfm => Checked(BitfieldDefined(w), if BitfieldDefined(w) then BitfieldMoveCode(w) else [], w, pc, n)
    case Ubfm => Checked(BitfieldDefined(w), if BitfieldDefined(w) then UnsignedBitfieldCode(w) else [], w, pc, n)
    case CondBranch => Piece(ConditionalBranchCode(w, pc, n), true)
    case RegBranch => if Reg(w, 5) == 31 then UndefinedPiece(w, pc, n) else Piece(RegisterBranchCode(w, pc, n), true)
    case ImmBranch => Piece(ImmediateBranchCode(w, pc, n), true)
    case CmpBranch => Piece(CompareBranchCode(w, pc, n), true)
    case BitBranch => Piece(TestBranchCode(w, pc, n), true)
    case LogicReg => Checked(Flag(w, 31) || Six(w, 10) < 32, LogicalShiftedCode(w), w, pc, n)
    case AddReg => Checked(Field(w, 22, 2) != 3 && (Flag(w, 31) || Six(w, 10) < 32), AddShiftedCode(w), w, pc, n)
    case AddExt => Checked(Three(w, 10) <= 4, AddExtendedCode(w), w, pc, n)
    case CondCmp => Piece(ConditionalCompareCode(w), false)
    case CondSel => Piece(SelectCode(w), false)
    case VarShift => Piece(VariableShiftCode(w), false)
    case MulAdd => Piece(MultiplyAddCode(w), false)
    case Nop => Piece([], false)
    case Hlt => Piece(Finish(Onward(pc), n + 1, Halt), true)
  }

  /** Classes the translator finds among its data-processing tests. */
  predicate IsData(c: Class)
  {
    !(c.Memory? || c.Native? || IsControl(c) || c.CondBranch? || c.RegBranch? || c.ImmBranch? || c.CmpBranch? || c.BitBranch?)
  }

  lemma DataByClass(w: bv32, pc: nat, n: nat, cfg: Config, c: Class)
    requires DataAnswers(w, c)
    ensures TranslateData(w, pc, n) == if IsData(c) then Some(PieceOf(c, w, pc, n, cfg)) else None
  {
    hide IsMemory, IsSystem, IsPcRelative, IsAddImmediate, IsLogicalImmediate, IsMoveWide, IsBitfieldMove,
      IsUnsignedBitfieldMove, IsConditionalBranch, IsRegisterBranch, IsImmediateBranch, IsCompareBranch, IsTestBranch,
      IsLogicalShifted, IsAddShifted, IsAddExtended, IsConditionalCompare, IsConditionalSelect, IsVariableShift, IsMultiplyAdd,
      PcRelativeCode, AddImmediateCode, LogicalImmediateCode, MoveWideCode, BitfieldMoveCode, UnsignedBitfieldCode,
      ConditionalBranchCode, RegisterBranchCode, ImmediateBranchCode, CompareBranchCode, TestBranchCode,
      LogicalShiftedCode, AddShiftedCode, AddExtendedCode, ConditionalCompareCode, SelectCode, VariableShiftCode,
      MultiplyAddCode, FaultCode, Finish, MaskValue, BitfieldDefined, MoveWideDefined, Field, FromInt, TranslateMemory;
  }

  /** Absent control registers are system words that no class has code for. */
  lemma AbsentIsSystem(w: bv32, el: nat)
    requires ControlAbsent(w, el)
    ensures IsSystem(w) && w != NOP && !IsThread(w) && !IsIdentity(w) && Boundary(w, el) == UndefinedInstruction
  {
  }

  lemma SystemByClass(w: bv32, pc: nat, n: nat, cfg: Config, c: Class)
    requires TransferAnswers(w, cfg, c)
    ensures TranslateSystem(w, pc, n, cfg) == if c.Thread? || c.Identity? then Some(PieceOf(c, w, pc, n, cfg)) else None
  {
    hide IsMemory, IsSystem, IsThread, IsIdentity, IdentityCode, ThreadCode, FaultCode, FromInt, Field, ThreadDenied;
  }

  lemma BranchByClass(w: bv32, pc: nat, n: nat, cfg: Config, c: Class)
    requires BranchAnswers(w, c)
    ensures TranslateBranch(w, pc, n)
      == if c.CondBranch? || c.RegBranch? || c.ImmBranch? || c.CmpBranch? || c.BitBranch? then Some(PieceOf(c, w, pc, n, cfg)) else None
  {
    hide IsConditionalBranch, IsRegisterBranch, IsImmediateBranch, IsCompareBranch, IsTestBranch, FaultCode, FromInt, Field,
      ConditionalBranchCode, RegisterBranchCode, ImmediateBranchCode, CompareBranchCode, TestBranchCode, UndefinedPiece;
  }

  lemma TranslateByClass(w: bv32, pc: nat, n: nat, cfg: Config, c: Class)
    requires Answers(w, cfg, c)
    ensures Translate(w, pc, n, cfg) == PieceOf(c, w, pc, n, cfg)
  {
    hide DataAnswers, BranchAnswers, IsMemory, IsSystem, IsThread, IsIdentity, ControlAbsent, Boundary, TranslateData, TranslateSystem, TranslateBranch,
      TranslateMemory, FaultCode, Finish, FromInt, Field, Checked, MaskValue, BitfieldDefined, MoveWideDefined, IdentityCode, ThreadPiece,
      PcRelativeCode, AddImmediateCode, LogicalImmediateCode, MoveWideCode, BitfieldMoveCode, UnsignedBitfieldCode,
      ConditionalBranchCode, RegisterBranchCode, ImmediateBranchCode, CompareBranchCode, TestBranchCode,
      LogicalShiftedCode, AddShiftedCode, AddExtendedCode, ConditionalCompareCode, SelectCode, VariableShiftCode, MultiplyAddCode;
    DataByClass(w, pc, n, cfg, c);
    SystemByClass(w, pc, n, cfg, c);
    BranchByClass(w, pc, n, cfg, c);
    if ControlAbsent(w, cfg.el) {
      AbsentIsSystem(w, cfg.el);
    }
  }

  lemma ConditionalMeets(w: bv32, pc: nat, n: nat, cfg: Config, h: Host, c: Class)
    requires h.rcx.Pointer? && (c.CondSel? || c.CondCmp?)
    ensures Meets(PieceOf(c, w, pc, n, cfg), ClassEffect(c, h.cpu.state, pc, cfg, w), h, w, pc, n)
  {
    hide Field, Lands, X, SetX, SetNzcv, FromInt, ConditionHolds, SelectCode, ConditionalCompareCode, AddWithCarry, FromNat, Returns;
    if c.CondSel? {
      SelectRuns(w, h);
    } else {
      ConditionalCompareRuns(w, h);
    }
  }

  lemma RegisterStraightMeets(w: bv32, pc: nat, n: nat, cfg: Config, h: Host, c: Class)
    requires h.rcx.Pointer? && (c.VarShift? || c.MulAdd?)
    ensures Meets(PieceOf(c, w, pc, n, cfg), ClassEffect(c, h.cpu.state, pc, cfg, w), h, w, pc, n)
  {
    hide Field, Lands, X, SetX, FromInt, Shift, VariableShiftCode, MultiplyAddCode, Val, Returns;
    if c.VarShift? {
      VariableShiftRuns(w, h);
    } else {
      MultiplyAddRuns(w, h);
    }
  }

  lemma NopMeets(w: bv32, pc: nat, n: nat, cfg: Config, h: Host)
    requires h.rcx.Pointer?
    ensures Meets(PieceOf(Nop, w, pc, n, cfg), ClassEffect(Nop, h.cpu.state, pc, cfg, w), h, w, pc, n)
  {
    hide Lands, Returns, FromInt;
    var p, k := Start(h);
    Landed(p, h, k);
  }

  lemma ImmediateStraightMeets(w: bv32, pc: nat, n: nat, cfg: Config, h: Host, c: Class)
    requires h.rcx.Pointer? && (c.PcRel? || c.AddImm?)
    ensures Meets(PieceOf(c, w, pc, n, cfg), ClassEffect(c, h.cpu.state, pc, cfg, w), h, w, pc, n)
  {
    hide Field, Lands, XSP, SetX, FromInt, AddSubtract, PcRelativeCode, AddImmediateCode, FromNat, Returns;
    if c.PcRel? {
      PcRelativeRuns(w, pc, h);
    } else {
      AddImmediateRuns(w, h);
      AddIsThrough(h.cpu.state, w, XSP(h.cpu.state, Reg(w, 5), Flag(w, 31)),
        FromNat(Field(w, 10, 12) * (if Flag(w, 22) then 4096 else 1), Width(Flag(w, 31))), true);
    }
  }

  lemma StraightMeets(w: bv32, pc: nat, n: nat, cfg: Config, h: Host, c: Class)
    requires h.rcx.Pointer? && (c.CondSel? || c.VarShift? || c.MulAdd? || c.CondCmp? || c.PcRel? || c.AddImm? || c.Nop?)
    ensures Meets(PieceOf(c, w, pc, n, cfg), ClassEffect(c, h.cpu.state, pc, cfg, w), h, w, pc, n)
  {
    if c.PcRel? || c.AddImm? {
      ImmediateStraightMeets(w, pc, n, cfg, h, c);
    } else if c.Nop? {
      NopMeets(w, pc, n, cfg, h);
    } else if c.CondSel? || c.CondCmp? {
      ConditionalMeets(w, pc, n, cfg, h, c);
    } else {
      RegisterStraightMeets(w, pc, n, cfg, h, c);
    }
  }

  lemma LogicImmMeets(w: bv32, pc: nat, n: nat, cfg: Config, h: Host)
    requires h.rcx.Pointer?
    ensures Meets(PieceOf(LogicImm, w, pc, n, cfg), ClassEffect(LogicImm, h.cpu.state, pc, cfg, w), h, w, pc, n)
  {
    hide Field, Lands, Returns, X, SetX, SetXSP, SetNzcv, FromInt, LogicalImmediateCode, FaultCode, DecodeBitMasks, Logic, A64.LogicFlags;
    if MaskValue(w).Some? {
      LogicalImmediateRuns(w, h, MaskValue(w).value);
    } else {
      FaultRuns(w, h, FromInt(pc, 64), n, UndefinedInstruction);
    }
  }

  lemma WideMeets(w: bv32, pc: nat, n: nat, cfg: Config, h: Host)
    requires h.rcx.Pointer?
    ensures Meets(PieceOf(Wide, w, pc, n, cfg), ClassEffect(Wide, h.cpu.state, pc, cfg, w), h, w, pc, n)
  {
    hide Field, Lands, Returns, X, SetX, FromInt, MoveWideCode, FaultCode, FromNat, Not, IsMoveKeep, IsMoveNot;
    if MoveWideDefined(w) {
      MoveWideRuns(w, h);
    } else {
      FaultRuns(w, h, FromInt(pc, 64), n, UndefinedInstruction);
    }
  }

  lemma BitfieldMeets(w: bv32, pc: nat, n: nat, cfg: Config, h: Host, c: Class)
    requires h.rcx.Pointer? && (c.Bfm? || c.Ubfm?)
    ensures Meets(PieceOf(c, w, pc, n, cfg), ClassEffect(c, h.cpu.state, pc, cfg, w), h, w, pc, n)
  {
    hide Field, Lands, Returns, X, SetX, FromInt, Shift, BitfieldMoveCode, UnsignedBitfieldCode, FaultCode, DecodeBitMasks, And, Or, Not;
    if !BitfieldDefined(w) {
      FaultRuns(w, h, FromInt(pc, 64), n, UndefinedInstruction);
    } else if c.Bfm? {
      BitfieldMoveRuns(w, h);
    } else {
      UnsignedBitfieldRuns(w, h);
    }
  }

  lemma LogicRegMeets(w: bv32, pc: nat, n: nat, cfg: Config, h: Host)
    requires h.rcx.Pointer?
    ensures Meets(PieceOf(LogicReg, w, pc, n, cfg), ClassEffect(LogicReg, h.cpu.state, pc, cfg, w), h, w, pc, n)
  {
    hide Field, Lands, Returns, X, XSP, SetX, SetNzcv, FromInt, Shift, ExtendReg, AddSubtract, LogicalShiftedCode,
      AddShiftedCode, AddExtendedCode, FaultCode, Logic, Not, A64.LogicFlags;
    if Flag(w, 31) || Six(w, 10) < 32 {
      LogicalShiftedRuns(w, h);
    } else {
      FaultRuns(w, h, FromInt(pc, 64), n, UndefinedInstruction);
    }
  }

  lemma AddRegMeets(w: bv32, pc: nat, n: nat, cfg: Config, h: Host)
    requires h.rcx.Pointer?
    ensures Meets(PieceOf(AddReg, w, pc, n, cfg), ClassEffect(AddReg, h.cpu.state, pc, cfg, w), h, w, pc, n)
  {
    hide Field, Lands, Returns, X, XSP, SetX, SetNzcv, FromInt, Shift, ExtendReg, AddSubtract, LogicalShiftedCode,
      AddShiftedCode, AddExtendedCode, FaultCode, Logic, Not, A64.LogicFlags;
    if Field(w, 22, 2) != 3 && (Flag(w, 31) || Six(w, 10) < 32) {
      AddShiftedRuns(w, h);
    } else {
      FaultRuns(w, h, FromInt(pc, 64), n, UndefinedInstruction);
    }
  }

  lemma AddExtMeets(w: bv32, pc: nat, n: nat, cfg: Config, h: Host)
    requires h.rcx.Pointer?
    ensures Meets(PieceOf(AddExt, w, pc, n, cfg), ClassEffect(AddExt, h.cpu.state, pc, cfg, w), h, w, pc, n)
  {
    hide Field, Lands, Returns, X, XSP, SetX, SetNzcv, FromInt, Shift, ExtendReg, AddSubtract, LogicalShiftedCode,
      AddShiftedCode, AddExtendedCode, FaultCode, Logic, Not, A64.LogicFlags;
    if Three(w, 10) <= 4 {
      AddExtendedRuns(w, h);
    } else {
      FaultRuns(w, h, FromInt(pc, 64), n, UndefinedInstruction);
    }
  }

  /** Recording the word first changes nothing the pair reads. */
  lemma NotedPair(r: State, cfg: Config, w: bv32)
    ensures LoadStorePair(r, cfg, w) == LoadStorePair(r.(instruction := w), cfg, w)
  {
    hide Field, Val, FromNat, MovePair, WriteBackPair, Pow2;
    assert r.(instruction := w).(instruction := w) == r.(instruction := w);
  }

  lemma PairMeets(w: bv32, pc: nat, n: nat, cfg: Config, h: Host)
    requires h.rcx.Pointer?
    ensures Meets(TranslatePair(w, pc, n, cfg),
      if !PairValid(w) then A64.Undefined(h.cpu.state, w)
      else if !Supported(cfg) then Fault(h.cpu.state.(instruction := w), SystemRegisterTrap)
      else LoadStorePair(h.cpu.state, cfg, w), h, w, pc, n)
  {
    hide Field, Returns, FromInt, FaultCode, PairValid, Run, Pow2;
    if !PairValid(w) {
      FaultRuns(w, h, FromInt(pc, 64), n, UndefinedInstruction);
    } else if !Supported(cfg) {
      FaultRuns(w, h, FromInt(pc, 64), n, SystemRegisterTrap);
    } else {
      ValidPairMeets(w, pc, n, cfg, h);
    }
  }

  lemma ValidPairMeets(w: bv32, pc: nat, n: nat, cfg: Config, h: Host)
    requires h.rcx.Pointer? && PairValid(w) && Supported(cfg)
    ensures Meets(Piece(PairCode(w, FromInt(pc, 64), n, cfg), false), LoadStorePair(h.cpu.state, cfg, w), h, w, pc, n)
  {
    hide Field, Returns, FromInt, PairValid, Run, Pow2, LoadStorePair, Checks, Exits, Runs;
    var p, k := Start(h);
    var k1 := k.(cpu := k.cpu.(state := k.cpu.state.(instruction := w)));
    p := Do(p, h, k, StoreInstruction(w), k1);
    assert p == [StoreInstruction(w)];
    var rest := Checks(w, FromInt(pc, 64), n, cfg) + Exits(w, FromInt(pc, 64), n, cfg);
    ChecksRun(w, k1, FromInt(pc, 64), n, cfg);
    NotedPair(h.cpu.state, cfg, w);
    PairAfter(p, h, k1, rest, LoadStorePair(h.cpu.state, cfg, w), FromInt(pc, 64), n);
  }

  /** Recording the word first changes nothing the access reads. */
  lemma NotedScalar(r: State, cfg: Config, w: bv32)
    requires ScalarAllocated(w)
    ensures LoadStoreScalar(r, cfg, w) == LoadStoreScalar(r.(instruction := w), cfg, w)
  {
    hide Field, Val, FromNat, MoveScalar, WriteBackScalar, Pow2, Matches, ExtendReg;
    assert r.(instruction := w).(instruction := w) == r.(instruction := w);
  }

  lemma ScalarMeets(w: bv32, pc: nat, n: nat, cfg: Config, h: Host)
    requires h.rcx.Pointer? && IsMemory(w) && !IsPair(w)
    ensures Meets(TranslateScalar(w, pc, n, cfg),
      if !(ScalarValid(w) && ScalarAllocated(w)) then A64.Undefined(h.cpu.state, w)
      else if !Supported(cfg) then Fault(h.cpu.state.(instruction := w), SystemRegisterTrap)
      else LoadStoreScalar(h.cpu.state, cfg, w), h, w, pc, n)
  {
    hide Field, Returns, FromInt, FaultCode, ScalarValid, ScalarAllocated, IsPrefetch, IsMemory, IsPair, Run, Pow2, ScalarAddress, Inside, MoveScalar, WriteBackScalar;
    ScalarValidity(w);
    if !ScalarValid(w) {
      FaultRuns(w, h, FromInt(pc, 64), n, UndefinedInstruction);
    } else if !Supported(cfg) {
      FaultRuns(w, h, FromInt(pc, 64), n, SystemRegisterTrap);
    } else {
      ValidScalarMeets(w, pc, n, cfg, h);
    }
  }

  lemma ValidScalarMeets(w: bv32, pc: nat, n: nat, cfg: Config, h: Host)
    requires h.rcx.Pointer? && IsMemory(w) && !IsPair(w) && ScalarValid(w) && ScalarAllocated(w) && Supported(cfg)
    ensures Meets(Piece(ScalarCode(w, FromInt(pc, 64), n, cfg), false), LoadStoreScalar(h.cpu.state, cfg, w), h, w, pc, n)
  {
    hide Field, Returns, FromInt, ScalarValid, ScalarAllocated, IsMemory, IsPair, Run, Pow2, LoadStoreScalar, ScalarChecks, ScalarExits, Runs;
    var p, k := Start(h);
    var k1 := k.(cpu := k.cpu.(state := k.cpu.state.(instruction := w)));
    p := Do(p, h, k, StoreInstruction(w), k1);
    assert p == [StoreInstruction(w)];
    var rest := ScalarChecks(w, FromInt(pc, 64), n, cfg) + ScalarExits(w, FromInt(pc, 64), n, cfg);
    ScalarChecksRun(w, k1, FromInt(pc, 64), n, cfg);
    NotedScalar(h.cpu.state, cfg, w);
    PairAfter(p, h, k1, rest, LoadStoreScalar(h.cpu.state, cfg, w), FromInt(pc, 64), n);
  }

  lemma HandoverMeets(w: bv32, pc: nat, n: nat, cfg: Config, h: Host, c: Class)
    requires h.rcx.Pointer? && (c.Memory? || c.System? || c.Hlt?)
    ensures Meets(PieceOf(c, w, pc, n, cfg), ClassEffect(c, h.cpu.state, pc, cfg, w), h, w, pc, n)
  {
    hide Field, Lands, Returns, FromInt, FaultCode, Finish, Boundary;
    if c.Hlt? {
      FinishAlone(h, Onward(pc), n + 1, Halt);
    } else {
      FaultRuns(w, h, FromInt(pc, 64), n, if c.Memory? then Handover else Boundary(w, cfg.el));
    }
  }

  /** Thread registers are moved, or refused where the exception level may not move them. */
  lemma ThreadMeets(w: bv32, pc: nat, n: nat, cfg: Config, h: Host)
    requires h.rcx.Pointer?
    ensures Meets(PieceOf(Thread, w, pc, n, cfg), ClassEffect(Thread, h.cpu.state, pc, cfg, w), h, w, pc, n)
  {
    hide Field, Lands, Returns, FromInt, FaultCode, ThreadCode, SetX, SetThread, GetThread, X, IsSystem, SystemKey;
    if !IsThread(w) || ThreadDenied(cfg.el, ThreadOf(w).value, Flag(w, 21)) {
      FaultRuns(w, h, FromInt(pc, 64), n, UndefinedInstruction);
    } else {
      ThreadRuns(w, h, ThreadOf(w).value, cfg.el);
    }
  }

  lemma IdentityMeets(w: bv32, pc: nat, n: nat, cfg: Config, h: Host)
    requires h.rcx.Pointer?
    ensures Meets(PieceOf(Identity, w, pc, n, cfg), ClassEffect(Identity, h.cpu.state, pc, cfg, w), h, w, pc, n)
  {
    hide Field, Lands, Returns, FromInt, IdentityCode, SetX, IsZero, Or, IdentityValue;
    IdentityRuns(w, FromInt(pc, 64), n, h);
  }

  lemma EndingMeets(w: bv32, pc: nat, n: nat, cfg: Config, h: Host, c: Class)
    requires h.rcx.Pointer? && !(c.RegBranch? && Reg(w, 5) == 31)
    requires c.CondBranch? || c.RegBranch? || c.ImmBranch? || c.CmpBranch? || c.BitBranch?
    ensures Meets(PieceOf(c, w, pc, n, cfg), ClassEffect(c, h.cpu.state, pc, cfg, w), h, w, pc, n)
  {
    hide Meets, Field, FromInt, ConditionalBranchCode, RegisterBranchCode, ImmediateBranchCode, CompareBranchCode,
      TestBranchCode, ConditionalBranch, RegisterBranch, ImmediateBranch, CompareBranch, TestBranch;
    if c.CondBranch? {
      ConditionalBranchRuns(w, pc, n, h);
    } else if c.RegBranch? {
      RegisterBranchRuns(w, pc, n, h);
    } else if c.ImmBranch? {
      ImmediateBranchRuns(w, pc, n, h);
    } else if c.CmpBranch? {
      CompareBranchRuns(w, pc, n, h);
    } else {
      TestBranchRuns(w, pc, n, h);
    }
  }

  /** A word no data-processing test accepts. */
  predicate NotData(w: bv32)
  {
    && !IsPcRelative(w) && !IsAddImmediate(w) && !IsLogicalImmediate(w) && !IsMoveWide(w) && !IsBitfieldMove(w)
    && !IsUnsignedBitfieldMove(w) && !IsLogicalShifted(w) && !IsAddShifted(w) && !IsAddExtended(w)
    && !IsConditionalCompare(w) && !IsConditionalSelect(w) && !IsVariableShift(w) && !IsMultiplyAdd(w)
  }

  /** A word no class test accepts. */
  predicate Unclassified(w: bv32, cfg: Config)
  {
    && NotData(w) && !IsSystem(w) && !IsThread(w) && !IsIdentity(w) && !IsMemory(w) && !IsConditionalBranch(w) && !IsRegisterBranch(w)
    && !IsImmediateBranch(w) && !IsCompareBranch(w) && !IsTestBranch(w) && w != NOP && w != HLT
  }

  lemma NoClassImmediate(w: bv32, cfg: Config)
    requires forall c :: !InClass(w, cfg, c)
    ensures !IsPcRelative(w) && !IsAddImmediate(w) && !IsLogicalImmediate(w) && !IsMoveWide(w) && !IsBitfieldMove(w)
    ensures !IsUnsignedBitfieldMove(w)
  {
    hide IsMemory, IsSystem, IsPcRelative, IsAddImmediate, IsLogicalImmediate, IsMoveWide, IsBitfieldMove,
      IsUnsignedBitfieldMove, IsConditionalBranch, IsRegisterBranch, IsImmediateBranch, IsCompareBranch, IsTestBranch,
      IsLogicalShifted, IsAddShifted, IsAddExtended, IsConditionalCompare, IsConditionalSelect, IsVariableShift, IsMultiplyAdd;
    assert !InClass(w, cfg, PcRel) && !InClass(w, cfg, AddImm) && !InClass(w, cfg, LogicImm) && !InClass(w, cfg, Wide);
    assert !InClass(w, cfg, Bfm) && !InClass(w, cfg, Ubfm);
  }

  lemma NoClassRegister(w: bv32, cfg: Config)
    requires forall c :: !InClass(w, cfg, c)
    ensures !IsLogicalShifted(w) && !IsAddShifted(w) && !IsAddExtended(w) && !IsConditionalCompare(w)
    ensures !IsConditionalSelect(w) && !IsVariableShift(w) && !IsMultiplyAdd(w)
  {
    hide IsMemory, IsSystem, IsPcRelative, IsAddImmediate, IsLogicalImmediate, IsMoveWide, IsBitfieldMove,
      IsUnsignedBitfieldMove, IsConditionalBranch, IsRegisterBranch, IsImmediateBranch, IsCompareBranch, IsTestBranch,
      IsLogicalShifted, IsAddShifted, IsAddExtended, IsConditionalCompare, IsConditionalSelect, IsVariableShift, IsMultiplyAdd;
    assert !InClass(w, cfg, LogicReg) && !InClass(w, cfg, AddReg) && !InClass(w, cfg, AddExt) && !InClass(w, cfg, CondCmp);
    assert !InClass(w, cfg, CondSel) && !InClass(w, cfg, VarShift) && !InClass(w, cfg, MulAdd);
  }

  lemma NoClassAnswers(w: bv32, cfg: Config)
    requires forall c :: !InClass(w, cfg, c)
    ensures Unclassified(w, cfg)
  {
    hide IsMemory, IsSystem, IsThread, IsIdentity, IsPcRelative, IsAddImmediate, IsLogicalImmediate, IsMoveWide, IsBitfieldMove,
      IsUnsignedBitfieldMove, IsConditionalBranch, IsRegisterBranch, IsImmediateBranch, IsCompareBranch, IsTestBranch,
      IsLogicalShifted, IsAddShifted, IsAddExtended, IsConditionalCompare, IsConditionalSelect, IsVariableShift, IsMultiplyAdd;
    NoClassImmediate(w, cfg);
    NoClassRegister(w, cfg);
    assert !InClass(w, cfg, Memory) && !InClass(w, cfg, Native);
    assert !InClass(w, cfg, Thread) && !InClass(w, cfg, Identity) && !InClass(w, cfg, System);
    assert !InClass(w, cfg, CondBranch) && !InClass(w, cfg, RegBranch) && !InClass(w, cfg, ImmBranch);
    assert !InClass(w, cfg, CmpBranch) && !InClass(w, cfg, BitBranch) && !InClass(w, cfg, Nop) && !InClass(w, cfg, Hlt);
  }

  /** The model of the architecture says nothing about a word of no class. */
  lemma NoClassExecutes(r: State, pc: nat, w: bv32, cfg: Config)
    requires Unclassified(w, cfg)
    ensures Execute(r, pc, cfg, w) == None && Profile(r, pc, cfg, w) == Fault(r.(instruction := w), Boundary(w, cfg.el))
  {
    hide IsMemory, IsSystem, IsIdentity, IsPcRelative, IsAddImmediate, IsLogicalImmediate, IsMoveWide, IsBitfieldMove,
      IsUnsignedBitfieldMove, IsConditionalBranch, IsRegisterBranch, IsImmediateBranch, IsCompareBranch, IsTestBranch,
      IsLogicalShifted, IsAddShifted, IsAddExtended, IsConditionalCompare, IsConditionalSelect, IsVariableShift, IsMultiplyAdd, Boundary, Field, ThreadMoved, ThreadOf, MoveThread, ReadIdentity;
    ThreadAgrees(w);
  }

  /** Words of no class: the code reports the boundary status and changes nothing else. */
  lemma NoClassMeets(w: bv32, pc: nat, n: nat, cfg: Config, h: Host)
    requires h.rcx.Pointer? && Unclassified(w, cfg)
    ensures Meets(Translate(w, pc, n, cfg), Profile(h.cpu.state, pc, cfg, w), h, w, pc, n)
  {
    hide IsMemory, IsSystem, IsThread, IsIdentity, IsPcRelative, IsAddImmediate, IsLogicalImmediate, IsMoveWide, IsBitfieldMove,
      IsUnsignedBitfieldMove, IsConditionalBranch, IsRegisterBranch, IsImmediateBranch, IsCompareBranch, IsTestBranch,
      IsLogicalShifted, IsAddShifted, IsAddExtended, IsConditionalCompare, IsConditionalSelect, IsVariableShift, IsMultiplyAdd,
      FaultCode, Returns, FromInt, Boundary, ControlAbsent, Lands, Field, Profile;
    if ControlAbsent(w, cfg.el) {
      AbsentIsSystem(w, cfg.el);
    }
    NoClassExecutes(h.cpu.state, pc, w, cfg);
    FaultRuns(w, h, FromInt(pc, 64), n, Boundary(w, cfg.el));
  }

  /** The configuration that the profile reads: a class means the same with and without address tags. */
  lemma TagsIgnored(r: State, pc: nat, cfg: Config, w: bv32, c: Class)
    requires InClass(w, cfg, c) && !c.Native?
    ensures InClass(w, cfg.(tagged := false), c)
    ensures ClassEffect(c, r, pc, cfg.(tagged := false), w) == ClassEffect(c, r, pc, cfg, w)
  {
    hide IsMemory, IsSystem, IsThread, IsIdentity, Matches, PcRelative, AddImmediate, LogicalImmediate, MoveWide, BitfieldMove,
      ConditionalBranch, RegisterBranch, ImmediateBranch, CompareBranch, TestBranch, LogicalShifted, AddShifted, AddExtended,
      ConditionalCompare, ConditionalSelect, VariableShift, MultiplyAdd, ReadIdentity, MoveThread, Boundary, LoadStoreWord;
  }

  /** Loads and stores apart, a word does in this profile what its class does, but for branches through register 31. */
  lemma ProfileByClass(r: State, pc: nat, cfg: Config, w: bv32, c: Class)
    requires InClass(w, cfg, c) && !c.Native? && !BranchesThroughZero(w)
    ensures Profile(r, pc, cfg, w) == ClassEffect(c, r, pc, cfg, w)
  {
    hide InClass, Execute, DataAnswers, BranchAnswers, IsMemory, IsSystem, IsThread, IsIdentity, Boundary, ThreadMoved, ReadIdentity, MoveThread,
      BranchesThroughZero, TransferProfile;
    ClassAnswers(w, cfg, c);
    TagsIgnored(r, pc, cfg, w, c);
    ExecuteByClass(r, pc, cfg.(tagged := false), w, c);
  }

  /** One word: the emitted code does exactly what the instruction does in this profile. */
  lemma TranslateMeets(w: bv32, pc: nat, n: nat, cfg: Config, h: Host)
    requires h.rcx.Pointer?
    ensures Meets(Translate(w, pc, n, cfg), Profile(h.cpu.state, pc, cfg, w), h, w, pc, n)
  {
    hide Meets, PieceOf, ClassEffect, Translate, Field, Answers, FromInt, FaultCode, Returns, Lands, Profile, BranchesThroughZero, InClass;
    if c :| InClass(w, cfg, c) {
      ClassAnswers(w, cfg, c);
      TranslateByClass(w, pc, n, cfg, c);
      if c.Native? {
        NativeMeets(w, pc, n, cfg, h);
      } else if BranchesThroughZero(w) {
        ThroughZeroMeets(w, pc, n, cfg, h, c);
      } else {
        NotThroughZero(w, cfg, c);
        ProfileByClass(h.cpu.state, pc, cfg, w, c);
        ClassMeets(w, pc, n, cfg, h, c);
      }
    } else {
      NoClassAnswers(w, cfg);
      NoClassMeets(w, pc, n, cfg, h);
    }
  }

  /** The code of each class does what the class does. */
  lemma ClassMeets(w: bv32, pc: nat, n: nat, cfg: Config, h: Host, c: Class)
    requires h.rcx.Pointer? && !c.Native? && !(c.RegBranch? && Reg(w, 5) == 31)
    ensures Meets(PieceOf(c, w, pc, n, cfg), ClassEffect(c, h.cpu.state, pc, cfg, w), h, w, pc, n)
  {
    hide Meets, PieceOf, ClassEffect, Field;
    match c
    case CondSel | VarShift | MulAdd | CondCmp | PcRel | AddImm | Nop => StraightMeets(w, pc, n, cfg, h, c);
    case LogicImm => LogicImmMeets(w, pc, n, cfg, h);
    case Wide => WideMeets(w, pc, n, cfg, h);
    case Bfm | Ubfm => BitfieldMeets(w, pc, n, cfg, h, c);
    case LogicReg => LogicRegMeets(w, pc, n, cfg, h);
    case AddReg => AddRegMeets(w, pc, n, cfg, h);
    case AddExt => AddExtMeets(w, pc, n, cfg, h);
    case Memory | System | Hlt => HandoverMeets(w, pc, n, cfg, h, c);
    case Thread => ThreadMeets(w, pc, n, cfg, h);
    case Identity => IdentityMeets(w, pc, n, cfg, h);
    case _ => EndingMeets(w, pc, n, cfg, h, c);
  }

  /** Native loads and stores: decoded, trapped or reported. */
  lemma NativeMeets(w: bv32, pc: nat, n: nat, cfg: Config, h: Host)
    requires h.rcx.Pointer? && InClass(w, cfg, Native)
    ensures Meets(PieceOf(Native, w, pc, n, cfg), Profile(h.cpu.state, pc, cfg, w), h, w, pc, n)
  {
    hide Meets, TranslatePair, TranslateScalar, PairAllocated, PairValid, ScalarAllocated, ScalarValid, IsPrefetch, IsSignedPair, PairMode,
      LoadStorePair, LoadStoreScalar, Execute, Field, IsPair, IsMemory, IsRegisterBranch;
    Asks(w, cfg, Native, RegBranch);
    if IsPair(w) {
      PairMeets(w, pc, n, cfg, h);
      UndecodedPairs(w);
    } else {
      ScalarMeets(w, pc, n, cfg, h);
      ScalarValidity(w);
    }
  }

  lemma NotThroughZero(w: bv32, cfg: Config, c: Class)
    requires InClass(w, cfg, c) && !BranchesThroughZero(w)
    ensures !(c.RegBranch? && Reg(w, 5) == 31)
  {
  }

  lemma ThroughZeroClass(w: bv32, cfg: Config)
    requires BranchesThroughZero(w)
    ensures InClass(w, cfg, RegBranch)
  {
  }

  lemma ThroughZeroMeets(w: bv32, pc: nat, n: nat, cfg: Config, h: Host, c: Class)
    requires h.rcx.Pointer? && InClass(w, cfg, c) && BranchesThroughZero(w)
    ensures Meets(PieceOf(c, w, pc, n, cfg), Profile(h.cpu.state, pc, cfg, w), h, w, pc, n)
  {
    hide FaultCode, Returns, FromInt, Field, InClass, IsRegisterBranch, ClassEffect;
    ThroughZeroClass(w, cfg);
    Asks(w, cfg, c, RegBranch);
    FaultRuns(w, h, FromInt(pc, 64), n, UndefinedInstruction);
  }

  /**
   * The architecture itself: on the words of the subset it is met exactly where the translator does not
   * depart from it. Of the words outside nothing is claimed here: Untranslated names those that C6.2 defines,
   * and RegimeTraps the loads and stores of other regimes.
   */
  lemma TranslateMeetsArchitecture(w: bv32, pc: nat, n: nat, cfg: Config, h: Host)
    requires h.rcx.Pointer?
    ensures InSubset(w, cfg) <==> Execute(h.cpu.state, pc, cfg, w).Some?
    ensures InSubset(w, cfg)
      ==> (Meets(Translate(w, pc, n, cfg), Execute(h.cpu.state, pc, cfg, w).value, h, w, pc, n) <==> !Departs(w, cfg))
  {
    hide Translate, Execute, Meets, Departs, InSubset, Profile;
    TranslateMeets(w, pc, n, cfg, h);
    SubsetExecutes(h.cpu.state, pc, cfg, w);
    if InSubset(w, cfg) {
      if Departs(w, cfg) {
        DepartingEffect(h.cpu.state, pc, cfg, w);
        ReportAlone(Translate(w, pc, n, cfg), Profile(h.cpu.state, pc, cfg, w), Execute(h.cpu.state, pc, cfg, w).value, h, w, pc, n);
      } else {
        KeepingEffect(h.cpu.state, pc, cfg, w);
      }
    }
  }

  /** Code that reports a fault has no effect but that one. */
  lemma ReportAlone(piece: Piece, report: Effect, effect: Effect, h: Host, w: bv32, pc: nat, n: nat)
    requires Meets(piece, report, h, w, pc, n) && report.Fault? && !report.status.Next? && !report.status.Halt?
    requires effect.Fault? ==> effect.status != report.status
    ensures !Meets(piece, effect, h, w, pc, n)
  {
    hide Run, FromInt, Pow2;
  }

  /** Where the translator does not depart, the profile is the architecture. */
  lemma KeepingEffect(r: State, pc: nat, cfg: Config, w: bv32)
    requires InSubset(w, cfg) && !Departs(w, cfg)
    ensures Execute(r, pc, cfg, w) == Some(Profile(r, pc, cfg, w))
  {
    hide InClass, Execute, ClassEffect, Profile, BranchesThroughZero, RefusedTransfer;
    var c :| InClass(w, cfg, c) && Given(w, cfg, c);
    ExecuteByClass(r, pc, cfg, w, c);
    if c.Native? {
      KeepingTransfer(r, pc, cfg, w);
    } else {
      ProfileByClass(r, pc, cfg, w, c);
    }
  }

  lemma KeepingTransfer(r: State, pc: nat, cfg: Config, w: bv32)
    requires InClass(w, cfg, Native) && cfg.plain && !Departs(w, cfg)
    ensures ClassEffect(Native, r, pc, cfg, w) == Profile(r, pc, cfg, w)
  {
    hide IsMemory, IsRegisterBranch, Undecoded, Accesses, LoadStoreWord, Field;
  }

  lemma SubsetExecutes(r: State, pc: nat, cfg: Config, w: bv32)
    ensures InSubset(w, cfg) <==> Execute(r, pc, cfg, w).Some?
  {
    hide InClass, Given, Execute, ClassEffect, Unclassified;
    if c :| InClass(w, cfg, c) {
      ExecuteByClass(r, pc, cfg, w, c);
      forall d | InClass(w, cfg, d) ensures d == c { ClassesDisjoint(w, cfg, c, d); }
    } else {
      NoClassAnswers(w, cfg);
      NoClassExecutes(r, pc, w, cfg);
    }
  }

  /** Where the translator departs it reports or traps, and the architecture does neither. */
  lemma DepartingEffect(r: State, pc: nat, cfg: Config, w: bv32)
    requires InSubset(w, cfg) && Departs(w, cfg)
    ensures var effect, report := Execute(r, pc, cfg, w), Profile(r, pc, cfg, w);
      && effect.Some? && report.Fault? && (report.status == UndefinedInstruction || report.status == SystemRegisterTrap)
      && (effect.value.Fault? ==> effect.value.status != report.status)
  {
    hide Execute, Field, InClass, IsRegisterBranch, IsMemory, Given, ClassEffect, TransferProfile, Undecoded, Accesses, RegisterBranch, LoadStoreWord;
    var c :| InClass(w, cfg, c) && Given(w, cfg, c);
    ExecuteByClass(r, pc, cfg, w, c);
    if BranchesThroughZero(w) {
      ThroughZeroClass(w, cfg);
      Asks(w, cfg, c, RegBranch);
      RegBranchEffect(r, pc, cfg, w);
      JumpEffect(r, pc, w);
    } else {
      assert InClass(w, cfg, Native) by { NativeClass(w, cfg); }
      Asks(w, cfg, c, Native);
      NativeEffect(r, pc, cfg, w);
      RefusedEffect(r, cfg, w);
    }
  }

  lemma NativeClass(w: bv32, cfg: Config)
    requires cfg.native && IsMemory(w)
    ensures InClass(w, cfg, Native)
  {
  }

  lemma NativeEffect(r: State, pc: nat, cfg: Config, w: bv32)
    ensures ClassEffect(Native, r, pc, cfg, w) == LoadStoreWord(r, cfg, w)
  {
  }

  lemma JumpEffect(r: State, pc: nat, w: bv32)
    ensures RegisterBranch(r, pc, w).Jump?
  {
  }

  /** An allocated word is never undefined, and never traps. */
  lemma RefusedEffect(r: State, cfg: Config, w: bv32)
    requires RefusedTransfer(w, cfg)
    ensures var effect, report := LoadStoreWord(r, cfg, w), TransferProfile(r, cfg, w);
      && report.Fault? && (report.status == UndefinedInstruction || report.status == SystemRegisterTrap)
      && (effect.Fault? ==> effect.status != UndefinedInstruction && effect.status != SystemRegisterTrap)
  {
    hide Field, FromInt, Val, MovePair, WriteBackPair, MoveScalar, WriteBackScalar, Pow2, PairAllocated, IsSignedPair, PairMode,
      ScalarAllocated, IsPrefetch, IsMemory, IsPair, Inside, ScalarAddress, PairAddress;
  }

  lemma RegBranchEffect(r: State, pc: nat, cfg: Config, w: bv32)
    ensures ClassEffect(RegBranch, r, pc, cfg, w) == RegisterBranch(r, pc, w)
  {
  }

  /** BR XZR: the architecture branches to address zero, the emitted code reports an undefined instruction. */
  lemma BranchThroughZero(h: Host, pc: nat, n: nat, cfg: Config)
    requires h.rcx.Pointer?
    ensures Departs(0xd61f03e0, cfg)
    ensures Execute(h.cpu.state, pc, cfg, 0xd61f03e0) == if cfg.tagged then None else Some(Jump(h.cpu.state, Zeros(64)))
    ensures Returns(Translate(0xd61f03e0, pc, n, cfg).ops, h,
      h.cpu.(state := h.cpu.state.(instruction := 0xd61f03e0), pc := FromInt(pc, 64), retired := Retire(h.cpu.retired, n)),
      UndefinedInstruction)
  {
    hide Translate, Execute, Returns, FromInt, Field, InClass, ClassEffect, IsRegisterBranch, RegisterBranch, RefusedTransfer, ThreadMoved, IsMemory,
      TransferProfile;
    ZeroBranchWord(cfg);
    TranslateMeets(0xd61f03e0, pc, n, cfg, h);
    ExecuteByClass(h.cpu.state, pc, cfg, 0xd61f03e0, RegBranch);
    RegBranchEffect(h.cpu.state, pc, cfg, 0xd61f03e0);
    ZeroBranchEffect(h.cpu.state, pc);
  }

  lemma ZeroBranchWord(cfg: Config)
    ensures InClass(0xd61f03e0, cfg, RegBranch) && BranchesThroughZero(0xd61f03e0)
  {
    assert Reg(0xd61f03e0, 5) == 31 by { FivePowers(); }
  }

  lemma ZeroBranchEffect(r: State, pc: nat)
    ensures RegisterBranch(r, pc, 0xd61f03e0) == Jump(r, Zeros(64))
  {
    hide FromInt;
    assert Reg(0xd61f03e0, 5) == 31 by { FivePowers(); }
    assert !IsBranchLinkRegister(0xd61f03e0);
  }

  /**
   * Loads and stores outside the supported regimes: the emitted code traps before any access. Where data are big-endian
   * the architecture performs the access; in the regimes of higher levels the model gives it no meaning.
   */
  lemma RegimeTraps(w: bv32, pc: nat, n: nat, cfg: Config, h: Host)
    requires h.rcx.Pointer? && cfg.native && IsMemory(w) && Accesses(w) && !Undecoded(w) && !Supported(cfg)
    ensures Meets(Translate(w, pc, n, cfg), Fault(h.cpu.state.(instruction := w), SystemRegisterTrap), h, w, pc, n)
    ensures InSubset(w, cfg) <==> cfg.plain && !cfg.tagged
    ensures InSubset(w, cfg) ==> Departs(w, cfg)
  {
    hide Translate, Execute, Field, FromInt, Run, Returns, IsMemory, Accesses, Undecoded, InClass, IsRegisterBranch, ClassEffect, LoadStoreWord;
    NativeClass(w, cfg);
    Asks(w, cfg, Native, RegBranch);
    NotRegisterBranch(w, cfg);
    TranslateMeets(w, pc, n, cfg, h);
    forall d | InClass(w, cfg, d) ensures d == Native { ClassesDisjoint(w, cfg, Native, d); }
  }

  lemma NotRegisterBranch(w: bv32, cfg: Config)
    requires !InClass(w, cfg, RegBranch)
    ensures !BranchesThroughZero(w)
  {
  }

  lemma OtherUnclassified(w: bv32, cfg: Config)
    requires IsOther(w)
    ensures Unclassified(w, cfg) && Boundary(w, cfg.el) == UndefinedInstruction
  {
    hide Unclassified, Boundary, InClass, IsOther;
    forall c | true ensures !InClass(w, cfg, c) { OtherNoClass(w, cfg, c); }
    NoClassAnswers(w, cfg);
    OtherUndefined(w, cfg.el);
  }

  /**
   * Instructions that section C6.2 defines and no class has code for: the emitted code reports each as undefined,
   * so the translator does not implement them. They are outside the subset, in every regime.
   */
  lemma Untranslated(w: bv32, pc: nat, n: nat, cfg: Config, h: Host)
    requires h.rcx.Pointer? && IsOther(w)
    ensures !InSubset(w, cfg)
    ensures Meets(Translate(w, pc, n, cfg), Undefined(h.cpu.state, w), h, w, pc, n)
  {
    hide Translate, Execute, Field, FromInt, Run, ClassEffect, Departs, InClass, Given, Returns, Unclassified, Profile, IsOther;
    OtherUnclassified(w, cfg);
    NoClassExecutes(h.cpu.state, pc, w, cfg);
    SubsetExecutes(h.cpu.state, pc, cfg, w);
    TranslateMeets(w, pc, n, cfg, h);
  }

  /** UDIV X0, X1, X0 divides; the emitted code reports an undefined instruction. */
  lemma DivideUntranslated(pc: nat, n: nat, cfg: Config, h: Host)
    requires h.rcx.Pointer?
    ensures !InSubset(0x9ac00820, cfg)
    ensures Returns(Translate(0x9ac00820, pc, n, cfg).ops, h,
      h.cpu.(state := h.cpu.state.(instruction := 0x9ac00820), pc := FromInt(pc, 64), retired := Retire(h.cpu.retired, n)),
      UndefinedInstruction)
  {
    hide Translate, FromInt, Returns, InSubset;
    assert IsOther(0x9ac00820) by { assert IsDivide(0x9ac00820); }
    Untranslated(0x9ac00820, pc, n, cfg, h);
  }

  // ---------- Blocks ----------

  /** Where a run of instructions stops: the state, the number retired, and why. */
  datatype Stop = Stop(state: State, pc: Word, retired: nat, status: Status)

  /** At most limit instructions from pc, up to and including the first branch, exit or fault. */
  function Steps(g: Guest, r: State, pc: nat, limit: nat, cfg: Config): (stop: Stop)
    decreases limit
  {
    if limit == 0 then Stop(r, FromInt(pc, 64), 0, Next) else
    var fetched := Fetch(g, pc);
    if fetched.None? then Stop(r, FromInt(pc, 64), 0, InstructionAbort) else
    match Profile(r, pc, cfg, fetched.value)
    case Through(r') =>
      var rest := Steps(g, r', (pc + 4) % Pow2(64), limit - 1, cfg);
      rest.(retired := rest.retired + 1)
    case Jump(r', target) => Stop(r', target, 1, Next)
    case Exit(r') => Stop(r', Onward(pc), 1, Halt)
    case Fault(r', status) => Stop(r', FromInt(pc, 64), 0, status)
  }

  /** The guest state after a block whose first n instructions had already retired. */
  function Commit(cpu: Cpu, s: Stop, n: nat): (r: Cpu)
  {
    cpu.(state := s.state, pc := s.pc, retired := Retire(cpu.retired, n + s.retired))
  }

  lemma WrapPc(pc: nat)
    ensures FromInt((pc + 4) % Pow2(64), 64) == Onward(pc)
  {
    hide FromNat;
    var v := pc + 4;
    ModUnique(v % Pow2(64), Pow2(64), 0, v % Pow2(64));
  }

  /** Code that falls through is followed by the rest of its block. */
  lemma FollowedBy(first: seq<Op>, rest: seq<Op>, h: Host, k: Host, cpu: Cpu, status: Status)
    requires Runs(first, h, k) && Returns(rest, k, cpu, status)
    ensures Returns(first + rest, h, cpu, status)
  {
    hide Step;
    RunAppend(first, rest, h);
  }

  /**
   * The translation of a block means what its instructions mean: registers, stack pointer,
   * condition flags, program counter, retired count, status and faulting word.
   */
  lemma {:induction false} BlockRuns(g: Guest, pc: nat, n: nat, limit: nat, cfg: Config, h: Host)
    requires n < limit && h.rcx.Pointer?
    ensures var s := Steps(g, h.cpu.state, pc, limit - n, cfg);
      Returns(Block(g, pc, n, limit, cfg), h, Commit(h.cpu, s, n), s.status)
    decreases limit - n
  {
    hide Returns, Translate, Profile, FromInt, Fetch, Finish, Run, Pow2;
    var fetched := Fetch(g, pc);
    if fetched.None? {
      FinishAlone(h, FromInt(pc, 64), n, InstructionAbort);
    } else {
      var w := fetched.value;
      var piece := Translate(w, pc, n, cfg);
      TranslateMeets(w, pc, n, cfg, h);
      if !piece.ends && Profile(h.cpu.state, pc, cfg, w).Fault? {
        ReturnsFirst(piece.ops, Finish(Onward(pc), n + 1, Next), h, Commit(h.cpu, Steps(g, h.cpu.state, pc, limit - n, cfg), n),
          Steps(g, h.cpu.state, pc, limit - n, cfg).status);
        ReturnsFirst(piece.ops, Block(g, (pc + 4) % Pow2(64), n + 1, limit, cfg), h,
          Commit(h.cpu, Steps(g, h.cpu.state, pc, limit - n, cfg), n), Steps(g, h.cpu.state, pc, limit - n, cfg).status);
      } else if !piece.ends {
        var r := Profile(h.cpu.state, pc, cfg, w).state;
        var k := Run(piece.ops, h).h;
        assert k.cpu == h.cpu.(state := r);
        if n + 1 == limit {
          FinishAlone(k, Onward(pc), n + 1, Next);
          WrapPc(pc);
          FollowedBy(piece.ops, Finish(Onward(pc), n + 1, Next), h, k, Commit(h.cpu, Steps(g, h.cpu.state, pc, 1, cfg), n), Next);
        } else {
          var next := (pc + 4) % Pow2(64);
          BlockRuns(g, next, n + 1, limit, cfg, k);
          var rest := Steps(g, r, next, limit - n - 1, cfg);
          FollowedBy(piece.ops, Block(g, next, n + 1, limit, cfg), h, k, Commit(k.cpu, rest, n + 1), rest.status);
        }
      }
    }
  }

  /** The same run by the architecture alone; None once it reaches a word outside the model. */
  function Architecture(g: Guest, r: State, pc: nat, limit: nat, cfg: Config): (found: Option<Stop>)
    decreases limit
  {
    if limit == 0 then Some(Stop(r, FromInt(pc, 64), 0, Next)) else
    var fetched := Fetch(g, pc);
    if fetched.None? then Some(Stop(r, FromInt(pc, 64), 0, InstructionAbort)) else
    var effect := Execute(r, pc, cfg, fetched.value);
    if effect.None? then None else
    match effect.value
    case Through(r') =>
      var rest := Architecture(g, r', (pc + 4) % Pow2(64), limit - 1, cfg);
      if rest.None? then None else Some(rest.value.(retired := rest.value.retired + 1))
    case Jump(r', target) => Some(Stop(r', target, 1, Next))
    case Exit(r') => Some(Stop(r', Onward(pc), 1, Halt))
    case Fault(r', status) => Some(Stop(r', FromInt(pc, 64), 0, status))
  }

  /** No word of the guest code is one where the translator departs. */
  ghost predicate NeverDeparts(g: Guest, cfg: Config)
  {
    forall pc: nat :: Fetch(g, pc).Some? ==> !Departs(Fetch(g, pc).value, cfg)
  }

  lemma {:induction false} StepsOfArchitecture(g: Guest, r: State, pc: nat, limit: nat, cfg: Config)
    requires NeverDeparts(g, cfg) && Architecture(g, r, pc, limit, cfg).Some?
    ensures Steps(g, r, pc, limit, cfg) == Architecture(g, r, pc, limit, cfg).value
    decreases limit
  {
    hide Fetch, Execute, Departs, FromInt, Pow2, Profile, InSubset;
    if limit > 0 && Fetch(g, pc).Some? {
      var effect := Execute(r, pc, cfg, Fetch(g, pc).value);
      SubsetExecutes(r, pc, cfg, Fetch(g, pc).value);
      KeepingEffect(r, pc, cfg, Fetch(g, pc).value);
      if effect.Some? && effect.value.Through? {
        StepsOfArchitecture(g, effect.value.state, (pc + 4) % Pow2(64), limit - 1, cfg);
      }
    }
  }

  /** Guest code of the subset without departing words: its block does what the architecture says, and nothing else. */
  lemma BlockMeetsArchitecture(g: Guest, pc: nat, limit: nat, cfg: Config, h: Host)
    requires limit > 0 && h.rcx.Pointer? && NeverDeparts(g, cfg)
    ensures var s := Architecture(g, h.cpu.state, pc, limit, cfg);
      s.Some? ==> Returns(Block(g, pc, 0, limit, cfg), h, Commit(h.cpu, s.value, 0), s.value.status)
  {
    hide *;
    BlockRuns(g, pc, 0, limit, cfg, h);
    if Architecture(g, h.cpu.state, pc, limit, cfg).Some? {
      StepsOfArchitecture(g, h.cpu.state, pc, limit, cfg);
    }
  }
}
