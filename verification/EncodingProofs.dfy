/** The instruction classes do not overlap, so the order in which they are tested does not matter. */
module EncodingProofs {
  import opened Basics
  import opened A64
  import opened SystemEmission

  datatype Class =
    | Memory | Native | Thread | Identity | System | PcRel | AddImm | LogicImm | Wide | Bfm | Ubfm
    | CondBranch | RegBranch | ImmBranch | CmpBranch | BitBranch
    | LogicReg | AddReg | AddExt | CondCmp | CondSel | VarShift | MulAdd | Nop | Hlt

  predicate InClass(w: bv32, cfg: Config, c: Class)
  {
    match c
    case Memory => IsMemory(w) && !cfg.native
    case Native => cfg.native && IsMemory(w)
    case Thread => IsThread(w)
    case Identity => IsIdentity(w)
    case System => IsSystem(w) && w != NOP && !IsThread(w) && !IsIdentity(w)
    case PcRel => IsPcRelative(w)
    case AddImm => IsAddImmediate(w)
    case LogicImm => IsLogicalImmediate(w)
    case Wide => IsMoveWide(w)
    case Bfm => IsBitfieldMove(w)
    case Ubfm => IsUnsignedBitfieldMove(w)
    case CondBranch => IsConditionalBranch(w)
    case RegBranch => IsRegisterBranch(w)
    case ImmBranch => IsImmediateBranch(w)
    case CmpBranch => IsCompareBranch(w)
    case BitBranch => IsTestBranch(w)
    case LogicReg => IsLogicalShifted(w)
    case AddReg => IsAddShifted(w)
    case AddExt => IsAddExtended(w)
    case CondCmp => IsConditionalCompare(w)
    case CondSel => IsConditionalSelect(w)
    case VarShift => IsVariableShift(w)
    case MulAdd => IsMultiplyAdd(w)
    case Nop => w == NOP
    case Hlt => w == HLT
  }

  predicate IsTransfer(c: Class)
  {
    c.Memory? || c.Native?
  }

  /** The three sections of the encoding index that hold the remaining classes. */
  datatype Section = Immediate | Branches | Register

  function SectionOf(c: Class): (section: Section)
    requires !IsTransfer(c)
  {
    match c
    case PcRel | AddImm | LogicImm | Wide | Bfm | Ubfm => Immediate
    case LogicReg | AddReg | AddExt | CondCmp | CondSel | VarShift | MulAdd => Register
    case _ => Branches
  }

  predicate InSection(w: bv32, s: Section)
  {
    match s
    case Immediate => Matches(w, 0x1c000000, 0x10000000)
    case Branches => Matches(w, 0x1c000000, 0x14000000)
    case Register => Matches(w, 0x0e000000, 0x0a000000)
  }

  lemma ImmediateSection(w: bv32, cfg: Config, c: Class)
    requires InClass(w, cfg, c) && !IsTransfer(c) && SectionOf(c).Immediate?
    ensures InSection(w, Immediate)
  {
    hide IsMemory;
  }

  lemma RegisterSection(w: bv32, cfg: Config, c: Class)
    requires InClass(w, cfg, c) && !IsTransfer(c) && SectionOf(c).Register?
    ensures InSection(w, Register)
  {
    hide IsMemory;
  }

  /** Thread and identification words are system words, and not the hint that does nothing. */
  lemma SystemWords(w: bv32)
    ensures IsThread(w) || IsIdentity(w) ==> IsSystem(w) && w != NOP
  {
  }

  lemma BranchesSection(w: bv32, cfg: Config, c: Class)
    requires InClass(w, cfg, c) && !IsTransfer(c) && SectionOf(c).Branches?
    ensures InSection(w, Branches)
  {
    hide IsMemory, IsThread, IsIdentity;
    SystemWords(w);
  }

  lemma ClassSection(w: bv32, cfg: Config, c: Class)
    requires InClass(w, cfg, c) && !IsTransfer(c)
    ensures InSection(w, SectionOf(c))
  {
    hide InClass, InSection;
    match SectionOf(c)
    case Immediate => ImmediateSection(w, cfg, c);
    case Branches => BranchesSection(w, cfg, c);
    case Register => RegisterSection(w, cfg, c);
  }

  /** Loads and stores lie in none of the three sections. */
  lemma MemorySection(w: bv32, s: Section)
    requires IsMemory(w)
    ensures !InSection(w, s)
  {
    assert Matches(w, 0x0a000000, 0x08000000);
  }

  lemma MemoryApart(w: bv32, cfg: Config, d: Class)
    requires IsMemory(w) && InClass(w, cfg, d)
    ensures IsTransfer(d)
  {
    hide IsMemory, InClass, InSection;
    if !IsTransfer(d) {
      ClassSection(w, cfg, d);
      MemorySection(w, SectionOf(d));
    }
  }

  lemma SectionsApart(w: bv32, s: Section, t: Section)
    requires InSection(w, s) && InSection(w, t)
    ensures s == t
  {
  }

  lemma ImmediateDisjoint(w: bv32, cfg: Config, c: Class, d: Class)
    requires InClass(w, cfg, c) && InClass(w, cfg, d) && !IsTransfer(c) && !IsTransfer(d)
    requires SectionOf(c) == SectionOf(d) == Immediate
    ensures c == d
  {
    hide IsMemory;
  }

  predicate IsControl(c: Class)
  {
    c.Thread? || c.Identity? || c.System? || c.Nop? || c.Hlt?
  }

  /** No thread register is an identification register. */
  lemma ThreadNotIdentity(w: bv32)
    ensures !(IsThread(w) && IsIdentity(w))
  {
  }

  lemma ControlDisjoint(w: bv32, cfg: Config, c: Class, d: Class)
    requires InClass(w, cfg, c) && InClass(w, cfg, d) && IsControl(c) && IsControl(d)
    ensures c == d
  {
    hide IsMemory, IsThread, IsIdentity;
    SystemWords(w);
    ThreadNotIdentity(w);
  }

  lemma ControlApart(w: bv32, cfg: Config, c: Class, d: Class)
    requires InClass(w, cfg, c) && InClass(w, cfg, d) && !IsTransfer(d) && IsControl(c) && SectionOf(d).Branches?
    ensures IsControl(d)
  {
    hide IsMemory, IsThread, IsIdentity;
    SystemWords(w);
    SystemApart(w);
  }

  /** System words, and the monitor exit, are no branches. */
  lemma SystemApart(w: bv32)
    requires IsSystem(w) || w == HLT
    ensures !IsConditionalBranch(w) && !IsRegisterBranch(w) && !IsImmediateBranch(w) && !IsCompareBranch(w) && !IsTestBranch(w)
  {
  }

  lemma BranchesDisjoint(w: bv32, cfg: Config, c: Class, d: Class)
    requires InClass(w, cfg, c) && InClass(w, cfg, d) && !IsTransfer(c) && !IsTransfer(d)
    requires SectionOf(c) == SectionOf(d) == Branches
    ensures c == d
  {
    hide InClass;
    if IsControl(c) {
      ControlApart(w, cfg, c, d);
      ControlDisjoint(w, cfg, c, d);
    } else if IsControl(d) {
      ControlApart(w, cfg, d, c);
    } else {
      TargetsDisjoint(w, cfg, c, d);
    }
  }

  predicate IsTarget(c: Class)
  {
    c.CondBranch? || c.RegBranch? || c.ImmBranch? || c.CmpBranch? || c.BitBranch?
  }

  lemma CondBranchAlone(w: bv32)
    requires IsConditionalBranch(w)
    ensures !IsRegisterBranch(w) && !IsImmediateBranch(w) && !IsCompareBranch(w) && !IsTestBranch(w)
  {
  }

  lemma RegBranchAlone(w: bv32)
    requires IsRegisterBranch(w)
    ensures !IsConditionalBranch(w) && !IsImmediateBranch(w) && !IsCompareBranch(w) && !IsTestBranch(w)
  {
  }

  lemma ImmBranchAlone(w: bv32)
    requires IsImmediateBranch(w)
    ensures !IsConditionalBranch(w) && !IsRegisterBranch(w) && !IsCompareBranch(w) && !IsTestBranch(w)
  {
  }

  lemma CmpBranchAlone(w: bv32)
    requires IsCompareBranch(w)
    ensures !IsConditionalBranch(w) && !IsRegisterBranch(w) && !IsImmediateBranch(w) && !IsTestBranch(w)
  {
  }

  lemma BitBranchAlone(w: bv32)
    requires IsTestBranch(w)
    ensures !IsConditionalBranch(w) && !IsRegisterBranch(w) && !IsImmediateBranch(w) && !IsCompareBranch(w)
  {
  }

  lemma TargetsDisjoint(w: bv32, cfg: Config, c: Class, d: Class)
    requires InClass(w, cfg, c) && InClass(w, cfg, d) && IsTarget(c) && IsTarget(d)
    ensures c == d
  {
    hide Matches, IsMemory, IsSystem, IsConditionalBranch, IsRegisterBranch, IsImmediateBranch, IsCompareBranch, IsTestBranch;
    match c
    case CondBranch => CondBranchAlone(w);
    case RegBranch => RegBranchAlone(w);
    case ImmBranch => ImmBranchAlone(w);
    case CmpBranch => CmpBranchAlone(w);
    case BitBranch => BitBranchAlone(w);
  }

  lemma RegisterDisjoint(w: bv32, cfg: Config, c: Class, d: Class)
    requires InClass(w, cfg, c) && InClass(w, cfg, d) && !IsTransfer(c) && !IsTransfer(d)
    requires SectionOf(c) == SectionOf(d) == Register
    ensures c == d
  {
    hide IsMemory;
  }

  lemma OthersDisjoint(w: bv32, cfg: Config, c: Class, d: Class)
    requires InClass(w, cfg, c) && InClass(w, cfg, d) && !IsTransfer(c) && !IsTransfer(d)
    ensures c == d
  {
    hide InClass, InSection;
    ClassSection(w, cfg, c);
    ClassSection(w, cfg, d);
    SectionsApart(w, SectionOf(c), SectionOf(d));
    match SectionOf(c)
    case Immediate => ImmediateDisjoint(w, cfg, c, d);
    case Branches => BranchesDisjoint(w, cfg, c, d);
    case Register => RegisterDisjoint(w, cfg, c, d);
  }

  /** A word belongs to at most one class. */
  lemma ClassesDisjoint(w: bv32, cfg: Config, c: Class, d: Class)
    requires InClass(w, cfg, c) && InClass(w, cfg, d)
    ensures c == d
  {
    if IsTransfer(c) || IsTransfer(d) {
      MemoryApart(w, cfg, c);
      MemoryApart(w, cfg, d);
    } else {
      OthersDisjoint(w, cfg, c, d);
    }
  }

  /** What the instructions of one class do. */
  function ClassEffect(c: Class, r: State, pc: nat, cfg: Config, w: bv32): (effect: Effect)
  {
    match c
    case Memory => Fault(r.(instruction := w), Handover)
    case Thread => if IsThread(w) then MoveThread(r, cfg.el, w, ThreadOf(w).value) else Undefined(r, w)
    case Identity => ReadIdentity(r, w)
    case System => Fault(r.(instruction := w), Boundary(w, cfg.el))
    case Native => LoadStoreWord(r, cfg, w)
    case PcRel => PcRelative(r, pc, w)
    case AddImm => AddImmediate(r, w)
    case LogicImm => LogicalImmediate(r, w)
    case Wide => MoveWide(r, w)
    case Bfm => BitfieldMove(r, w, true)
    case Ubfm => BitfieldMove(r, w, false)
    case CondBranch => ConditionalBranch(r, pc, w)
    case RegBranch => RegisterBranch(r, pc, w)
    case ImmBranch => ImmediateBranch(r, pc, w)
    case CmpBranch => CompareBranch(r, pc, w)
    case BitBranch => TestBranch(r, pc, w)
    case LogicReg => LogicalShifted(r, w)
    case AddReg => AddShifted(r, w)
    case AddExt => AddExtended(r, w)
    case CondCmp => ConditionalCompare(r, w)
    case CondSel => ConditionalSelect(r, w)
    case VarShift => VariableShift(r, w)
    case MulAdd => MultiplyAdd(r, w)
    case Nop => Through(r)
    case Hlt => Exit(r)
  }

  /** The tests for immediate operands, all answered by the one class that holds. */
  predicate ImmediateAnswers(w: bv32, c: Class)
  {
    && (IsPcRelative(w) <==> c == PcRel)
    && (IsAddImmediate(w) <==> c == AddImm)
    && (IsLogicalImmediate(w) <==> c == LogicImm)
    && (IsMoveWide(w) <==> c == Wide)
    && (IsBitfieldMove(w) <==> c == Bfm)
    && (IsUnsignedBitfieldMove(w) <==> c == Ubfm)
  }

  /** The tests for register operands. */
  predicate RegisterAnswers(w: bv32, c: Class)
  {
    && (IsLogicalShifted(w) <==> c == LogicReg)
    && (IsAddShifted(w) <==> c == AddReg)
    && (IsAddExtended(w) <==> c == AddExt)
    && (IsConditionalCompare(w) <==> c == CondCmp)
    && (IsConditionalSelect(w) <==> c == CondSel)
    && (IsVariableShift(w) <==> c == VarShift)
    && (IsMultiplyAdd(w) <==> c == MulAdd)
  }

  predicate DataAnswers(w: bv32, c: Class)
  {
    ImmediateAnswers(w, c) && RegisterAnswers(w, c)
  }

  /** The tests for loads and stores, and for system words. */
  predicate TransferAnswers(w: bv32, cfg: Config, c: Class)
  {
    && (IsMemory(w) && !cfg.native <==> c == Memory) && (IsMemory(w) && cfg.native <==> c == Native)
    && (IsThread(w) <==> c == Thread) && (IsIdentity(w) <==> c == Identity)
    && (IsSystem(w) && w != NOP <==> c == Thread || c == Identity || c == System)
  }

  /** The tests for branches. */
  predicate BranchAnswers(w: bv32, c: Class)
  {
    && (IsConditionalBranch(w) <==> c == CondBranch)
    && (IsRegisterBranch(w) <==> c == RegBranch)
    && (IsImmediateBranch(w) <==> c == ImmBranch)
    && (IsCompareBranch(w) <==> c == CmpBranch)
    && (IsTestBranch(w) <==> c == BitBranch)
  }

  predicate Answers(w: bv32, cfg: Config, c: Class)
  {
    && DataAnswers(w, c) && TransferAnswers(w, cfg, c) && BranchAnswers(w, c)
    && (w == NOP <==> c == Nop) && (w == HLT <==> c == Hlt)
  }

  lemma ClassImmediateAnswers(w: bv32, cfg: Config, c: Class)
    requires InClass(w, cfg, c)
    ensures ImmediateAnswers(w, c)
  {
    hide IsMemory, IsSystem, IsPcRelative, IsAddImmediate, IsLogicalImmediate, IsMoveWide, IsBitfieldMove,
      IsUnsignedBitfieldMove, IsConditionalBranch, IsRegisterBranch, IsImmediateBranch, IsCompareBranch, IsTestBranch,
      IsLogicalShifted, IsAddShifted, IsAddExtended, IsConditionalCompare, IsConditionalSelect, IsVariableShift, IsMultiplyAdd, IsThread, IsIdentity;
    Asks(w, cfg, c, PcRel);
    Asks(w, cfg, c, AddImm);
    Asks(w, cfg, c, LogicImm);
    Asks(w, cfg, c, Wide);
    Asks(w, cfg, c, Bfm);
    Asks(w, cfg, c, Ubfm);
  }

  lemma ClassRegisterAnswers(w: bv32, cfg: Config, c: Class)
    requires InClass(w, cfg, c)
    ensures RegisterAnswers(w, c)
  {
    hide IsMemory, IsSystem, IsPcRelative, IsAddImmediate, IsLogicalImmediate, IsMoveWide, IsBitfieldMove,
      IsUnsignedBitfieldMove, IsConditionalBranch, IsRegisterBranch, IsImmediateBranch, IsCompareBranch, IsTestBranch,
      IsLogicalShifted, IsAddShifted, IsAddExtended, IsConditionalCompare, IsConditionalSelect, IsVariableShift, IsMultiplyAdd, IsThread, IsIdentity;
    Asks(w, cfg, c, LogicReg);
    Asks(w, cfg, c, AddReg);
    Asks(w, cfg, c, AddExt);
    Asks(w, cfg, c, CondCmp);
    Asks(w, cfg, c, CondSel);
    Asks(w, cfg, c, VarShift);
    Asks(w, cfg, c, MulAdd);
  }

  lemma ClassTransferAnswers(w: bv32, cfg: Config, c: Class)
    requires InClass(w, cfg, c)
    ensures TransferAnswers(w, cfg, c)
  {
    hide IsMemory, IsSystem, IsPcRelative, IsAddImmediate, IsLogicalImmediate, IsMoveWide, IsBitfieldMove,
      IsUnsignedBitfieldMove, IsConditionalBranch, IsRegisterBranch, IsImmediateBranch, IsCompareBranch, IsTestBranch,
      IsLogicalShifted, IsAddShifted, IsAddExtended, IsConditionalCompare, IsConditionalSelect, IsVariableShift, IsMultiplyAdd;
    Asks(w, cfg, c, Memory);
    Asks(w, cfg, c, Native);
    Asks(w, cfg, c, Thread);
    Asks(w, cfg, c, Identity);
    Asks(w, cfg, c, System);
    SystemWords(w);
  }

  lemma ClassBranchAnswers(w: bv32, cfg: Config, c: Class)
    requires InClass(w, cfg, c)
    ensures BranchAnswers(w, c)
  {
    hide IsMemory, IsSystem, IsPcRelative, IsAddImmediate, IsLogicalImmediate, IsMoveWide, IsBitfieldMove,
      IsUnsignedBitfieldMove, IsConditionalBranch, IsRegisterBranch, IsImmediateBranch, IsCompareBranch, IsTestBranch,
      IsLogicalShifted, IsAddShifted, IsAddExtended, IsConditionalCompare, IsConditionalSelect, IsVariableShift, IsMultiplyAdd, IsThread, IsIdentity;
    Asks(w, cfg, c, CondBranch);
    Asks(w, cfg, c, RegBranch);
    Asks(w, cfg, c, ImmBranch);
    Asks(w, cfg, c, CmpBranch);
    Asks(w, cfg, c, BitBranch);
  }

  lemma ClassExitAnswers(w: bv32, cfg: Config, c: Class)
    requires InClass(w, cfg, c)
    ensures (w == NOP <==> c == Nop) && (w == HLT <==> c == Hlt)
  {
    hide IsMemory, IsSystem, IsPcRelative, IsAddImmediate, IsLogicalImmediate, IsMoveWide, IsBitfieldMove,
      IsUnsignedBitfieldMove, IsConditionalBranch, IsRegisterBranch, IsImmediateBranch, IsCompareBranch, IsTestBranch,
      IsLogicalShifted, IsAddShifted, IsAddExtended, IsConditionalCompare, IsConditionalSelect, IsVariableShift, IsMultiplyAdd, IsThread, IsIdentity;
    Asks(w, cfg, c, Nop);
    Asks(w, cfg, c, Hlt);
  }

  /** The class of a word answers every test of the decoder. */
  lemma ClassAnswers(w: bv32, cfg: Config, c: Class)
    requires InClass(w, cfg, c)
    ensures Answers(w, cfg, c)
  {
    hide InClass, ImmediateAnswers, RegisterAnswers, TransferAnswers, BranchAnswers;
    ClassImmediateAnswers(w, cfg, c);
    ClassRegisterAnswers(w, cfg, c);
    ClassTransferAnswers(w, cfg, c);
    ClassBranchAnswers(w, cfg, c);
    ClassExitAnswers(w, cfg, c);
  }

  lemma Asks(w: bv32, cfg: Config, c: Class, d: Class)
    requires InClass(w, cfg, c)
    ensures InClass(w, cfg, d) <==> c == d
  {
    if InClass(w, cfg, d) {
      ClassesDisjoint(w, cfg, c, d);
    }
  }

  /**
   * The classes whose architectural meaning is part of this model in a regime; of the thread words those that are MRS
   * or MSR.
   */
  predicate Given(w: bv32, cfg: Config, c: Class)
  {
    && !c.Memory? && !c.System? && !c.Identity? && (c.Thread? ==> ThreadMoved(w).Some?)
    && (c.Native? ==> cfg.plain && !cfg.tagged) && (IsTarget(c) ==> !cfg.tagged)
  }

  /** The words whose architectural meaning is part of the model: those of a translated class. */
  ghost predicate InSubset(w: bv32, cfg: Config)
  {
    exists c :: InClass(w, cfg, c) && Given(w, cfg, c)
  }

  /** The thread words of the architecture are among those that the program takes for them, with the same register. */
  lemma ThreadAgrees(w: bv32)
    ensures ThreadMoved(w).Some? ==> ThreadOf(w) == ThreadMoved(w)
    ensures ThreadOf(w).Some? ==> (ThreadMoved(w).Some? <==> w & 0x0010_0000 != 0)
  {
  }

  /** Each class keeps its meaning whatever order the decoder tests the classes in. */
  lemma ExecuteByClass(r: State, pc: nat, cfg: Config, w: bv32, c: Class)
    requires InClass(w, cfg, c)
    ensures Execute(r, pc, cfg, w) == if Given(w, cfg, c) then Some(ClassEffect(c, r, pc, cfg, w)) else None
  {
    hide *;
    ClassAnswers(w, cfg, c);
    ExecuteAnswered(r, pc, cfg, w, c);
  }

  /** Classes of the data-processing (immediate) section. */
  predicate IsImmediateClass(c: Class)
  {
    c.PcRel? || c.AddImm? || c.LogicImm? || c.Wide? || c.Bfm? || c.Ubfm?
  }

  predicate IsRegisterClass(c: Class)
  {
    c.LogicReg? || c.AddReg? || c.AddExt? || c.CondCmp? || c.CondSel? || c.VarShift? || c.MulAdd?
  }

  lemma ImmediateAnswered(r: State, pc: nat, cfg: Config, w: bv32, c: Class)
    requires DataAnswers(w, c)
    ensures ExecuteImmediate(r, pc, w) == if IsImmediateClass(c) then Some(ClassEffect(c, r, pc, cfg, w)) else None
  {
    hide IsMemory, IsSystem, IsPcRelative, IsAddImmediate, IsLogicalImmediate, IsMoveWide, IsBitfieldMove,
      IsUnsignedBitfieldMove, IsConditionalBranch, IsRegisterBranch, IsImmediateBranch, IsCompareBranch, IsTestBranch,
      IsLogicalShifted, IsAddShifted, IsAddExtended, IsConditionalCompare, IsConditionalSelect, IsVariableShift, IsMultiplyAdd,
      LoadStoreWord, ReadIdentity, MoveThread, ThreadMoved, ThreadOf, IsIdentity, Boundary, PcRelative, AddImmediate, LogicalImmediate, MoveWide, BitfieldMove, ConditionalBranch, RegisterBranch,
      ImmediateBranch, CompareBranch, TestBranch, LogicalShifted, AddShifted, AddExtended, ConditionalCompare,
      ConditionalSelect, VariableShift, MultiplyAdd;
  }

  lemma RegisterAnswered(r: State, pc: nat, cfg: Config, w: bv32, c: Class)
    requires DataAnswers(w, c)
    ensures ExecuteRegister(r, w) == if IsRegisterClass(c) then Some(ClassEffect(c, r, pc, cfg, w)) else None
  {
    hide IsMemory, IsSystem, IsPcRelative, IsAddImmediate, IsLogicalImmediate, IsMoveWide, IsBitfieldMove,
      IsUnsignedBitfieldMove, IsConditionalBranch, IsRegisterBranch, IsImmediateBranch, IsCompareBranch, IsTestBranch,
      IsLogicalShifted, IsAddShifted, IsAddExtended, IsConditionalCompare, IsConditionalSelect, IsVariableShift, IsMultiplyAdd,
      LoadStoreWord, ReadIdentity, MoveThread, ThreadMoved, ThreadOf, IsIdentity, Boundary, PcRelative, AddImmediate, LogicalImmediate, MoveWide, BitfieldMove, ConditionalBranch, RegisterBranch,
      ImmediateBranch, CompareBranch, TestBranch, LogicalShifted, AddShifted, AddExtended, ConditionalCompare,
      ConditionalSelect, VariableShift, MultiplyAdd;
  }

  lemma ExecuteAnswered(r: State, pc: nat, cfg: Config, w: bv32, c: Class)
    requires Answers(w, cfg, c)
    ensures Execute(r, pc, cfg, w) == if Given(w, cfg, c) then Some(ClassEffect(c, r, pc, cfg, w)) else None
  {
    ThreadAgrees(w);
    hide IsMemory, IsSystem, IsPcRelative, IsAddImmediate, IsLogicalImmediate, IsMoveWide, IsBitfieldMove,
      IsUnsignedBitfieldMove, IsConditionalBranch, IsRegisterBranch, IsImmediateBranch, IsCompareBranch, IsTestBranch,
      IsLogicalShifted, IsAddShifted, IsAddExtended, IsConditionalCompare, IsConditionalSelect, IsVariableShift, IsMultiplyAdd,
      LoadStoreWord, ReadIdentity, MoveThread, ThreadMoved, ThreadOf, IsIdentity, Boundary, PcRelative, AddImmediate, LogicalImmediate, MoveWide, BitfieldMove, ConditionalBranch, RegisterBranch,
      ImmediateBranch, CompareBranch, TestBranch, LogicalShifted, AddShifted, AddExtended, ConditionalCompare,
      ConditionalSelect, VariableShift, MultiplyAdd, ExecuteImmediate, ExecuteRegister, DataAnswers;
    ImmediateAnswered(r, pc, cfg, w, c);
    RegisterAnswered(r, pc, cfg, w, c);
  }

  /** What the architecture makes of the immediate classes, word by word. */
  lemma ImmediateMeaning(r: State, pc: nat, cfg: Config, w: bv32)
    ensures IsPcRelative(w) ==> Execute(r, pc, cfg, w) == Some(PcRelative(r, pc, w))
    ensures IsAddImmediate(w) ==> Execute(r, pc, cfg, w) == Some(AddImmediate(r, w))
    ensures IsLogicalImmediate(w) ==> Execute(r, pc, cfg, w) == Some(LogicalImmediate(r, w))
    ensures IsMoveWide(w) ==> Execute(r, pc, cfg, w) == Some(MoveWide(r, w))
    ensures IsBitfieldMove(w) ==> Execute(r, pc, cfg, w) == Some(BitfieldMove(r, w, true))
    ensures IsUnsignedBitfieldMove(w) ==> Execute(r, pc, cfg, w) == Some(BitfieldMove(r, w, false))
  {
    hide IsMemory, IsSystem, IsPcRelative, IsAddImmediate, IsLogicalImmediate, IsMoveWide, IsBitfieldMove, IsUnsignedBitfieldMove,
      IsConditionalBranch, IsRegisterBranch, IsImmediateBranch, IsCompareBranch, IsTestBranch, IsLogicalShifted, IsAddShifted,
      IsAddExtended, IsConditionalCompare, IsConditionalSelect, IsVariableShift, IsMultiplyAdd, ThreadMoved, ThreadOf, IsIdentity,
      Execute, LoadStoreWord, ReadIdentity, MoveThread, Boundary, PcRelative, AddImmediate, LogicalImmediate, MoveWide,
      BitfieldMove, ConditionalBranch, RegisterBranch, ImmediateBranch, CompareBranch, TestBranch, LogicalShifted, AddShifted,
      AddExtended, ConditionalCompare, ConditionalSelect, VariableShift, MultiplyAdd;
    if IsPcRelative(w) { ExecuteByClass(r, pc, cfg, w, PcRel); }
    if IsAddImmediate(w) { ExecuteByClass(r, pc, cfg, w, AddImm); }
    if IsLogicalImmediate(w) { ExecuteByClass(r, pc, cfg, w, LogicImm); }
    if IsMoveWide(w) { ExecuteByClass(r, pc, cfg, w, Wide); }
    if IsBitfieldMove(w) { ExecuteByClass(r, pc, cfg, w, Bfm); }
    if IsUnsignedBitfieldMove(w) { ExecuteByClass(r, pc, cfg, w, Ubfm); }
  }

  /** And of the classes with a shifted or extended register. */
  lemma ShiftedMeaning(r: State, pc: nat, cfg: Config, w: bv32)
    ensures IsLogicalShifted(w) ==> Execute(r, pc, cfg, w) == Some(LogicalShifted(r, w))
    ensures IsAddShifted(w) ==> Execute(r, pc, cfg, w) == Some(AddShifted(r, w))
    ensures IsAddExtended(w) ==> Execute(r, pc, cfg, w) == Some(AddExtended(r, w))
  {
    hide IsMemory, IsSystem, IsPcRelative, IsAddImmediate, IsLogicalImmediate, IsMoveWide, IsBitfieldMove, IsUnsignedBitfieldMove,
      IsConditionalBranch, IsRegisterBranch, IsImmediateBranch, IsCompareBranch, IsTestBranch, IsLogicalShifted, IsAddShifted,
      IsAddExtended, IsConditionalCompare, IsConditionalSelect, IsVariableShift, IsMultiplyAdd, ThreadMoved, ThreadOf, IsIdentity,
      Execute, LoadStoreWord, ReadIdentity, MoveThread, Boundary, PcRelative, AddImmediate, LogicalImmediate, MoveWide,
      BitfieldMove, ConditionalBranch, RegisterBranch, ImmediateBranch, CompareBranch, TestBranch, LogicalShifted, AddShifted,
      AddExtended, ConditionalCompare, ConditionalSelect, VariableShift, MultiplyAdd;
    if IsLogicalShifted(w) { ExecuteByClass(r, pc, cfg, w, LogicReg); }
    if IsAddShifted(w) { ExecuteByClass(r, pc, cfg, w, AddReg); }
    if IsAddExtended(w) { ExecuteByClass(r, pc, cfg, w, AddExt); }
  }

  /** And of the other register classes. */
  lemma RegisterMeaning(r: State, pc: nat, cfg: Config, w: bv32)
    ensures IsConditionalCompare(w) ==> Execute(r, pc, cfg, w) == Some(ConditionalCompare(r, w))
    ensures IsConditionalSelect(w) ==> Execute(r, pc, cfg, w) == Some(ConditionalSelect(r, w))
    ensures IsVariableShift(w) ==> Execute(r, pc, cfg, w) == Some(VariableShift(r, w))
    ensures IsMultiplyAdd(w) ==> Execute(r, pc, cfg, w) == Some(MultiplyAdd(r, w))
  {
    hide IsMemory, IsSystem, IsPcRelative, IsAddImmediate, IsLogicalImmediate, IsMoveWide, IsBitfieldMove, IsUnsignedBitfieldMove,
      IsConditionalBranch, IsRegisterBranch, IsImmediateBranch, IsCompareBranch, IsTestBranch, IsLogicalShifted, IsAddShifted,
      IsAddExtended, IsConditionalCompare, IsConditionalSelect, IsVariableShift, IsMultiplyAdd, ThreadMoved, ThreadOf, IsIdentity,
      Execute, LoadStoreWord, ReadIdentity, MoveThread, Boundary, PcRelative, AddImmediate, LogicalImmediate, MoveWide,
      BitfieldMove, ConditionalBranch, RegisterBranch, ImmediateBranch, CompareBranch, TestBranch, LogicalShifted, AddShifted,
      AddExtended, ConditionalCompare, ConditionalSelect, VariableShift, MultiplyAdd;
    if IsConditionalCompare(w) { ExecuteByClass(r, pc, cfg, w, CondCmp); }
    if IsConditionalSelect(w) { ExecuteByClass(r, pc, cfg, w, CondSel); }
    if IsVariableShift(w) { ExecuteByClass(r, pc, cfg, w, VarShift); }
    if IsMultiplyAdd(w) { ExecuteByClass(r, pc, cfg, w, MulAdd); }
  }

  /** And of the branches, where addresses are not tagged. */
  lemma BranchMeaning(r: State, pc: nat, cfg: Config, w: bv32)
    requires !cfg.tagged
    ensures IsConditionalBranch(w) ==> Execute(r, pc, cfg, w) == Some(ConditionalBranch(r, pc, w))
    ensures IsRegisterBranch(w) ==> Execute(r, pc, cfg, w) == Some(RegisterBranch(r, pc, w))
    ensures IsImmediateBranch(w) ==> Execute(r, pc, cfg, w) == Some(ImmediateBranch(r, pc, w))
    ensures IsCompareBranch(w) ==> Execute(r, pc, cfg, w) == Some(CompareBranch(r, pc, w))
    ensures IsTestBranch(w) ==> Execute(r, pc, cfg, w) == Some(TestBranch(r, pc, w))
  {
    hide IsMemory, IsSystem, IsPcRelative, IsAddImmediate, IsLogicalImmediate, IsMoveWide, IsBitfieldMove, IsUnsignedBitfieldMove,
      IsConditionalBranch, IsRegisterBranch, IsImmediateBranch, IsCompareBranch, IsTestBranch, IsLogicalShifted, IsAddShifted,
      IsAddExtended, IsConditionalCompare, IsConditionalSelect, IsVariableShift, IsMultiplyAdd, ThreadMoved, ThreadOf, IsIdentity,
      Execute, LoadStoreWord, ReadIdentity, MoveThread, Boundary, PcRelative, AddImmediate, LogicalImmediate, MoveWide,
      BitfieldMove, ConditionalBranch, RegisterBranch, ImmediateBranch, CompareBranch, TestBranch, LogicalShifted, AddShifted,
      AddExtended, ConditionalCompare, ConditionalSelect, VariableShift, MultiplyAdd;
    if IsConditionalBranch(w) { ExecuteByClass(r, pc, cfg, w, CondBranch); }
    if IsRegisterBranch(w) { ExecuteByClass(r, pc, cfg, w, RegBranch); }
    if IsImmediateBranch(w) { ExecuteByClass(r, pc, cfg, w, ImmBranch); }
    if IsCompareBranch(w) { ExecuteByClass(r, pc, cfg, w, CmpBranch); }
    if IsTestBranch(w) { ExecuteByClass(r, pc, cfg, w, BitBranch); }
  }
}
