/** Instructions that section C6.2 defines and no class translates. */
module OtherEncodings {
  import opened A64
  import opened SystemEmission
  import opened EncodingProofs

  predicate IsOther(w: bv32)
  {
    IsOtherData(w) || IsOtherTransfer(w) || IsOtherException(w)
  }

  /** Data-processing instructions of section C6.2 that have no class here. */
  predicate IsOtherData(w: bv32)
  {
    || (IsSignedBitfieldMove(w) && Flag(w, 22) == Flag(w, 31) && (Flag(w, 31) || (!Flag(w, 21) && !Flag(w, 15))))
    || (IsExtract(w) && Flag(w, 22) == Flag(w, 31) && (Flag(w, 31) || !Flag(w, 15)))
    || IsAddWithCarry(w) || IsDivide(w) || IsWideMultiply(w)
    || (IsOneSource(w) && (Six(w, 10) <= 2 || Six(w, 10) == 4 || Six(w, 10) == 5 || (Six(w, 10) == 3 && Flag(w, 31))))
  }

  predicate IsSignedBitfieldMove(w: bv32) { Matches(w, 0x7f800000, 0x13000000) }
  predicate IsExtract(w: bv32) { Matches(w, 0x7fa00000, 0x13800000) }
  predicate IsAddWithCarry(w: bv32) { Matches(w, 0x1fe0fc00, 0x1a000000) }
  predicate IsDivide(w: bv32) { Matches(w, 0x7fe0f800, 0x1ac00800) }
  /** Long multiplications and high halves. */
  predicate IsWideMultiply(w: bv32) { Matches(w, 0xff600000, 0x9b200000) || Matches(w, 0xff60fc00, 0x9b407c00) }
  predicate IsOneSource(w: bv32) { Matches(w, 0x7fff0000, 0x5ac00000) }

  /** Loads from a literal and the unprivileged forms; exception generation but HVC, SMC and the monitor exit. */
  predicate IsOtherTransfer(w: bv32)
  {
    Matches(w, 0x3f000000, 0x18000000)
    || (Matches(w, 0x3f200c00, 0x38000800) && (Opc(w) < 2 || SizeField(w) < 2 || (SizeField(w) == 2 && Opc(w) == 2)))
  }

  predicate IsOtherException(w: bv32)
  {
    Matches(w, 0xffe0001f, 0xd4000001) || Matches(w, 0xffe0001f, 0xd4200000) || (Matches(w, 0xffe0001f, 0xd4400000) && w != HLT)
  }

  /** A word of one section can only be of a class of that section. */
  lemma SectionClasses(w: bv32, cfg: Config, s: Section, c: Class)
    requires InSection(w, s) && InClass(w, cfg, c)
    ensures !IsTransfer(c) && SectionOf(c) == s
  {
    hide InSection;
    if IsTransfer(c) {
      MemorySection(w, s);
    } else {
      ClassSection(w, cfg, c);
      SectionsApart(w, s, SectionOf(c));
    }
  }

  lemma SignedBitfieldAlone(w: bv32)
    requires IsSignedBitfieldMove(w)
    ensures InSection(w, Immediate) && !IsPcRelative(w) && !IsAddImmediate(w) && !IsLogicalImmediate(w)
    ensures !IsMoveWide(w) && !IsBitfieldMove(w) && !IsUnsignedBitfieldMove(w)
  {
  }

  lemma ExtractAlone(w: bv32)
    requires IsExtract(w)
    ensures InSection(w, Immediate) && !IsPcRelative(w) && !IsAddImmediate(w) && !IsLogicalImmediate(w)
    ensures !IsMoveWide(w) && !IsBitfieldMove(w) && !IsUnsignedBitfieldMove(w)
  {
  }

  lemma OtherImmediate(w: bv32)
    requires IsSignedBitfieldMove(w) || IsExtract(w)
    ensures InSection(w, Immediate) && !IsPcRelative(w) && !IsAddImmediate(w) && !IsLogicalImmediate(w)
    ensures !IsMoveWide(w) && !IsBitfieldMove(w) && !IsUnsignedBitfieldMove(w)
  {
    hide *;
    if IsSignedBitfieldMove(w) { SignedBitfieldAlone(w); } else { ExtractAlone(w); }
  }

  lemma AddWithCarryAlone(w: bv32)
    requires IsAddWithCarry(w)
    ensures InSection(w, Register) && !IsLogicalShifted(w) && !IsAddShifted(w) && !IsAddExtended(w) && !IsConditionalCompare(w)
    ensures !IsConditionalSelect(w) && !IsVariableShift(w) && !IsMultiplyAdd(w)
  {
  }

  lemma DivideAlone(w: bv32)
    requires IsDivide(w)
    ensures InSection(w, Register) && !IsLogicalShifted(w) && !IsAddShifted(w) && !IsAddExtended(w) && !IsConditionalCompare(w)
    ensures !IsConditionalSelect(w) && !IsVariableShift(w) && !IsMultiplyAdd(w)
  {
  }

  lemma WideMultiplyAlone(w: bv32)
    requires IsWideMultiply(w)
    ensures InSection(w, Register) && !IsLogicalShifted(w) && !IsAddShifted(w) && !IsAddExtended(w) && !IsConditionalCompare(w)
    ensures !IsConditionalSelect(w) && !IsVariableShift(w) && !IsMultiplyAdd(w)
  {
  }

  lemma OneSourceAlone(w: bv32)
    requires IsOneSource(w)
    ensures InSection(w, Register) && !IsLogicalShifted(w) && !IsAddShifted(w) && !IsAddExtended(w) && !IsConditionalCompare(w)
    ensures !IsConditionalSelect(w) && !IsVariableShift(w) && !IsMultiplyAdd(w)
  {
  }

  lemma OtherRegister(w: bv32)
    requires IsAddWithCarry(w) || IsDivide(w) || IsWideMultiply(w) || IsOneSource(w)
    ensures InSection(w, Register) && !IsLogicalShifted(w) && !IsAddShifted(w) && !IsAddExtended(w) && !IsConditionalCompare(w)
    ensures !IsConditionalSelect(w) && !IsVariableShift(w) && !IsMultiplyAdd(w)
  {
    hide *;
    if IsAddWithCarry(w) {
      AddWithCarryAlone(w);
    } else if IsDivide(w) {
      DivideAlone(w);
    } else if IsWideMultiply(w) {
      WideMultiplyAlone(w);
    } else {
      OneSourceAlone(w);
    }
  }

  lemma OtherTransfer(w: bv32, s: Section)
    requires IsOtherTransfer(w)
    ensures !InSection(w, s) && !IsMemory(w)
  {
    hide Opc, SizeField;
  }

  lemma ExceptionSection(w: bv32)
    requires IsOtherException(w)
    ensures Matches(w, 0xff000000, 0xd4000000) && w != HLT && !IsHigherCall(w)
  {
  }

  lemma ExceptionNoBranch(w: bv32)
    requires Matches(w, 0xff000000, 0xd4000000)
    ensures !IsConditionalBranch(w) && !IsImmediateBranch(w) && !IsCompareBranch(w) && !IsTestBranch(w)
  {
  }

  lemma ExceptionNoRegister(w: bv32)
    requires Matches(w, 0xff000000, 0xd4000000)
    ensures InSection(w, Branches) && !IsRegisterBranch(w)
  {
  }

  lemma ExceptionNoSystem(w: bv32)
    requires Matches(w, 0xff000000, 0xd4000000)
    ensures !IsSystem(w) && w != NOP && !IsExceptionReturn(w) && !IsHintOrMask(w)
  {
  }

  lemma OtherException(w: bv32)
    requires IsOtherException(w)
    ensures InSection(w, Branches) && !IsConditionalBranch(w) && !IsRegisterBranch(w) && !IsImmediateBranch(w) && !IsCompareBranch(w)
    ensures !IsTestBranch(w) && !IsSystem(w) && w != NOP && w != HLT && !IsExceptionReturn(w) && !IsHigherCall(w) && !IsHintOrMask(w)
  {
    hide *;
    ExceptionSection(w);
    ExceptionNoBranch(w);
    ExceptionNoRegister(w);
    ExceptionNoSystem(w);
  }

  /** Everything that traps is in the section of branches and system words. */
  lemma OutsideUndefined(w: bv32, el: nat)
    requires !InSection(w, Branches)
    ensures Boundary(w, el) == UndefinedInstruction
  {
  }

  lemma OtherSection(w: bv32)
    requires IsOtherData(w) || IsOtherTransfer(w)
    ensures !InSection(w, Branches)
  {
    hide InSection, IsOtherTransfer, Six, Flag, Matches, IsSignedBitfieldMove, IsExtract, IsAddWithCarry, IsDivide, IsWideMultiply, IsOneSource;
    if IsOtherTransfer(w) {
      OtherTransfer(w, Branches);
    } else if IsSignedBitfieldMove(w) || IsExtract(w) {
      OtherImmediate(w);
      if InSection(w, Branches) { SectionsApart(w, Immediate, Branches); }
    } else {
      OtherRegister(w);
      if InSection(w, Branches) { SectionsApart(w, Register, Branches); }
    }
  }

  lemma OtherNoClass(w: bv32, cfg: Config, c: Class)
    requires IsOther(w)
    ensures !InClass(w, cfg, c)
  {
    hide InSection, IsMemory, IsSystem, IsThread, IsIdentity, IsOtherTransfer, IsOtherException, Six, Flag, Matches,
      IsPcRelative, IsAddImmediate, IsLogicalImmediate, IsMoveWide, IsBitfieldMove, IsUnsignedBitfieldMove, IsConditionalBranch,
      IsRegisterBranch, IsImmediateBranch, IsCompareBranch, IsTestBranch, IsLogicalShifted, IsAddShifted, IsAddExtended,
      IsConditionalCompare, IsConditionalSelect, IsVariableShift, IsMultiplyAdd, IsSignedBitfieldMove, IsExtract, IsAddWithCarry, IsDivide,
      IsWideMultiply, IsOneSource;
    if InClass(w, cfg, c) {
      if IsOtherTransfer(w) {
        if !IsTransfer(c) { ClassSection(w, cfg, c); OtherTransfer(w, SectionOf(c)); } else { OtherTransfer(w, Branches); }
      } else if IsOtherException(w) {
        OtherException(w);
        SectionClasses(w, cfg, Branches, c);
        SystemWords(w);
      } else if IsSignedBitfieldMove(w) || IsExtract(w) {
        OtherImmediate(w);
        SectionClasses(w, cfg, Immediate, c);
      } else {
        OtherRegister(w);
        SectionClasses(w, cfg, Register, c);
      }
    }
  }

  lemma OtherUndefined(w: bv32, el: nat)
    requires IsOther(w)
    ensures Boundary(w, el) == UndefinedInstruction
  {
    hide InSection, IsOtherData, IsOtherTransfer, IsOtherException, IsSystem, IsExceptionReturn, IsHigherCall, IsHintOrMask;
    if IsOtherException(w) {
      OtherException(w);
    } else {
      OtherSection(w);
      OutsideUndefined(w, el);
    }
  }
}
