/** Why the exception level is part of a cached translation's key: exactly some system words are translated by it. */
module ProviderKeys {
  import opened Basics
  import opened PowersOfTwo
  import opened Words
  import opened A64
  import opened HostOps
  import opened Emission
  import opened SystemEmission
  import opened EncodingProofs
  import opened OtherEncodings
  import opened Translator
  import BlockProofs
  import opened ProviderCache

  /** Returns, calls, waits and mask writes, and the registers that EL0 may not name. */
  predicate TrapsByLevel(w: bv32)
  {
    || IsExceptionReturn(w) || IsHintOrMask(w) || IsHigherCall(w)
    || (IsSystem(w) && (SystemKey(w) == 0x4082 || (!VisibleAtEl0(SystemKey(w)) && OnlyEl1(SystemKey(w)))))
  }

  /** Of the thread registers one is invisible at EL0 and one is read-only. */
  predicate LevelMatters(w: bv32)
  {
    (IsThread(w) && ThreadDenied(0, ThreadOf(w).value, Flag(w, 21))) || (!IsIdentity(w) && TrapsByLevel(w))
  }

  function ModeOf(el: nat): (cfg: Config)
  {
    Config(el, 0, false, false, false, false, false)
  }

  lemma ThreadDoesNotTrap(w: bv32)
    requires IsThread(w)
    ensures !TrapsByLevel(w)
  {
  }

  lemma BoundaryByLevel(w: bv32, el: nat)
    requires el > 0
    ensures Boundary(w, 0) == Boundary(w, el) <==> !TrapsByLevel(w)
  {
  }

  lemma ReturnAlone(w: bv32)
    requires IsExceptionReturn(w)
    ensures InSection(w, Branches) && !IsConditionalBranch(w) && !IsRegisterBranch(w) && !IsImmediateBranch(w) && !IsCompareBranch(w)
    ensures !IsTestBranch(w) && !IsSystem(w) && w != NOP && w != HLT
  {
  }

  lemma CallAlone(w: bv32)
    requires IsHigherCall(w)
    ensures InSection(w, Branches) && !IsConditionalBranch(w) && !IsRegisterBranch(w) && !IsImmediateBranch(w) && !IsCompareBranch(w)
    ensures !IsTestBranch(w) && !IsSystem(w) && w != NOP && w != HLT
  {
    CallWord(w);
    hide IsHigherCall;
    ExceptionNoBranch(w);
    ExceptionNoRegister(w);
    ExceptionNoSystem(w);
  }

  lemma CallWord(w: bv32)
    requires IsHigherCall(w)
    ensures Matches(w, 0xff000000, 0xd4000000) && w != HLT
  {
  }

  lemma HintIsSystem(w: bv32)
    requires TrapsByLevel(w) && !IsExceptionReturn(w) && !IsHigherCall(w)
    ensures IsSystem(w) && w != NOP
  {
    hide IsExceptionReturn, IsHigherCall;
  }

  /** What traps by level is a system word, or a word of no class. */
  lemma TrapsAreSystem(w: bv32, cfg: Config, c: Class)
    requires TrapsByLevel(w) && InClass(w, cfg, c)
    ensures c.Identity? || c.System?
  {
    hide TrapsByLevel, InSection, IsThread, IsIdentity, IsSystem, IsConditionalBranch, IsRegisterBranch, IsImmediateBranch, IsCompareBranch,
      IsTestBranch, IsExceptionReturn, IsHigherCall, IsMemory;
    if IsExceptionReturn(w) || IsHigherCall(w) {
      if IsExceptionReturn(w) { ReturnAlone(w); } else { CallAlone(w); }
      SectionClasses(w, cfg, Branches, c);
      SystemWords(w);
    } else {
      HintIsSystem(w);
      ClassTransferAnswers(w, cfg, c);
      if IsThread(w) { ThreadDoesNotTrap(w); }
    }
  }

  /** The status is the last thing a reported word's code returns. */
  lemma ReportsDiffer(w: bv32, pc: Word, n: nat, s: Status, t: Status)
    ensures FaultCode(w, pc, n, s) == FaultCode(w, pc, n, t) <==> s == t
  {
    hide FromNat, FromInt;
    assert FaultCode(w, pc, n, s)[4] == Ret(s) && FaultCode(w, pc, n, t)[4] == Ret(t);
  }

  /** A moved register and a refusal start differently. */
  lemma MoveIsNoReport(w: bv32, pc: Word, n: nat, t: ThreadRegister, rest: seq<Op>)
    ensures ThreadCode(w, t) + rest != FaultCode(w, pc, n, UndefinedInstruction)
  {
    hide Field, Finish, FromInt;
    var f := FaultCode(w, pc, n, UndefinedInstruction);
    assert f[0] == StoreInstruction(w);
    assert (ThreadCode(w, t) + rest)[0] == if Flag(w, 21) then LoadThread(t) else Load(Reg(w, 0), false, true)[0];
  }

  lemma WordClass(w: bv32, pc: nat, cfg: Config, c: Class)
    requires InClass(w, cfg, c)
    ensures Translate(w, pc, 0, cfg) == BlockProofs.PieceOf(c, w, pc, 0, cfg)
  {
    hide *;
    ClassAnswers(w, cfg, c);
    BlockProofs.TranslateByClass(w, pc, 0, cfg, c);
  }

  /** Only the code of thread registers, and the reports of system words, look at the level. */
  lemma PieceByLevel(pc: nat, w: bv32, el: nat, c: Class)
    requires InClass(w, ModeOf(0), c)
    ensures var piece := Translate(w, pc, 0, ModeOf(el));
      if c.Thread? then piece == BlockProofs.ThreadPiece(w, pc, 0, ModeOf(el))
      else if c.System? then piece == Piece(FaultCode(w, FromInt(pc, 64), 0, Boundary(w, el)), true)
      else piece == Translate(w, pc, 0, ModeOf(0))
  {
    hide InClass, Translate, FaultCode, FromInt, Finish, Field, Boundary, Reg, BlockProofs.ThreadPiece, BlockProofs.Checked, TranslateMemory, MaskValue, BitfieldDefined, MoveWideDefined, IdentityCode,
      PcRelativeCode, AddImmediateCode, LogicalImmediateCode, MoveWideCode, BitfieldMoveCode, UnsignedBitfieldCode,
      ConditionalBranchCode, RegisterBranchCode, ImmediateBranchCode, CompareBranchCode, TestBranchCode,
      LogicalShiftedCode, AddShiftedCode, AddExtendedCode, ConditionalCompareCode, SelectCode, VariableShiftCode, MultiplyAddCode;
    ModeClass(w, el, c);
    WordClass(w, pc, ModeOf(0), c);
    WordClass(w, pc, ModeOf(el), c);
  }

  lemma ModeClass(w: bv32, el: nat, c: Class)
    requires InClass(w, ModeOf(0), c)
    ensures InClass(w, ModeOf(el), c) && !c.Native?
  {
    hide IsMemory, IsSystem, IsThread, IsIdentity, Matches;
  }

  lemma NoClassPiece(pc: nat, w: bv32, el: nat)
    requires forall c :: !InClass(w, ModeOf(0), c)
    ensures Translate(w, pc, 0, ModeOf(el)) == Piece(FaultCode(w, FromInt(pc, 64), 0, Boundary(w, el)), true)
    ensures !IsThread(w) && !IsIdentity(w)
  {
    hide InClass, ControlAbsent, IsMemory, IsSystem, IsThread, IsIdentity, IsPcRelative, IsAddImmediate, IsLogicalImmediate, IsMoveWide, IsBitfieldMove,
      IsUnsignedBitfieldMove, IsConditionalBranch, IsRegisterBranch, IsImmediateBranch, IsCompareBranch, IsTestBranch,
      IsLogicalShifted, IsAddShifted, IsAddExtended, IsConditionalCompare, IsConditionalSelect, IsVariableShift, IsMultiplyAdd,
      FaultCode, Boundary, FromInt, Field;
    BlockProofs.NoClassAnswers(w, ModeOf(0));
    if ControlAbsent(w, el) { BlockProofs.AbsentIsSystem(w, el); }
  }

  lemma ThreadInKey(pc: nat, w: bv32, el: nat)
    requires el > 0 && InClass(w, ModeOf(0), Thread)
    ensures Translation(Key(pc, w, 0)) == Translation(Key(pc, w, el)) <==> !LevelMatters(w)
  {
    hide Translate, FaultCode, FromInt, Field, Finish, ThreadCode, TrapsByLevel, SystemKey, IsSystem, ThreadOf;
    PieceByLevel(pc, w, 0, Thread);
    PieceByLevel(pc, w, el, Thread);
    ThreadDoesNotTrap(w);
    MoveIsNoReport(w, FromInt(pc, 64), 0, ThreadOf(w).value, Finish(Onward(pc), 1, Next));
  }

  lemma SystemInKey(pc: nat, w: bv32, el: nat)
    requires el > 0 && !IsThread(w) && !IsIdentity(w)
    requires forall l: nat :: Translate(w, pc, 0, ModeOf(l)) == Piece(FaultCode(w, FromInt(pc, 64), 0, Boundary(w, l)), true)
    ensures Translation(Key(pc, w, 0)) == Translation(Key(pc, w, el)) <==> !LevelMatters(w)
  {
    hide Translate, FaultCode, FromInt, TrapsByLevel, Boundary, IsThread, IsIdentity;
    BoundaryByLevel(w, el);
    assert Translate(w, pc, 0, ModeOf(0)).ends && Translate(w, pc, 0, ModeOf(el)).ends;
    ReportsDiffer(w, FromInt(pc, 64), 0, Boundary(w, 0), Boundary(w, el));
  }

  /** EL0 and another level share a translation exactly when the word is none of these. */
  lemma LevelInKey(pc: nat, w: bv32, el: nat)
    requires el > 0
    ensures Translation(Key(pc, w, 0)) == Translation(Key(pc, w, el)) <==> !LevelMatters(w)
  {
    hide InClass, Translate, FaultCode, FromInt, Finish, TrapsByLevel, Boundary, IsThread, IsIdentity, BlockProofs.ThreadPiece, ThreadDenied;
    if c :| InClass(w, ModeOf(0), c) {
      ThreadOrNot(w, c);
      if c.Thread? {
        ThreadInKey(pc, w, el);
      } else {
        forall l: nat | true
          ensures c.System? ==> Translate(w, pc, 0, ModeOf(l)) == Piece(FaultCode(w, FromInt(pc, 64), 0, Boundary(w, l)), true)
        {
          PieceByLevel(pc, w, l, c);
        }
        if c.System? {
          SystemInKey(pc, w, el);
        } else {
          PieceByLevel(pc, w, el, c);
          if TrapsByLevel(w) { TrapsAreSystem(w, ModeOf(0), c); }
        }
      }
    } else {
      forall l: nat | true ensures Translate(w, pc, 0, ModeOf(l)) == Piece(FaultCode(w, FromInt(pc, 64), 0, Boundary(w, l)), true) {
        NoClassPiece(pc, w, l);
      }
      NoClassPiece(pc, w, el);
      SystemInKey(pc, w, el);
    }
  }

  lemma ThreadOrNot(w: bv32, c: Class)
    requires InClass(w, ModeOf(0), c)
    ensures (IsThread(w) <==> c.Thread?) && (IsIdentity(w) <==> c.Identity?)
  {
    hide InClass, IsThread, IsIdentity, IsMemory, IsSystem;
    ClassTransferAnswers(w, ModeOf(0), c);
  }
}
