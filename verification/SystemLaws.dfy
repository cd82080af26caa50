/**
 * What system words do in this profile, from their encodings written out: identification registers read as constants, the
 * thread registers move, and the registers of EL1 trap, with a status that depends on the level.
 */
module SystemLaws {
  import opened Basics
  import opened PowersOfTwo
  import opened Words
  import opened A64
  import opened InstructionBits
  import opened SystemEmission
  import EncodingProofs
  import BlockProofs
  import ValueLaws

  // ---------- Identification registers ----------

  /** The ten identification registers as MRS names them, without the destination. */
  predicate Identification(w: bv32)
  {
    var base := w & 0xffff_ffe0;
    || base == 0xd538_0400 || base == 0xd538_0420 || base == 0xd538_0440 || base == 0xd538_0480 || base == 0xd538_0600
    || base == 0xd538_0640 || base == 0xd538_0660 || base == 0xd538_0700 || base == 0xd538_0720 || base == 0xd538_0740
  }

  /** ID_AA64PFR0_EL1 and ID_AA64MMFR0_EL1 describe the profile; the others are zero. */
  function IdentificationValue(w: bv32): (v: nat)
  {
    if w & 0xffff_ffe0 == 0xd538_0400 then 0xff_0011 else if w & 0xffff_ffe0 == 0xd538_0700 then 0xf10_0005 else 0
  }

  lemma IdentificationMeans(w: bv32)
    requires Identification(w)
    ensures IsIdentity(w) && IdentityValue(w) == FromNat(IdentificationValue(w), 64)
  {
    hide FromNat;
  }

  lemma ConstantValue(w: bv32)
    ensures Val(FromNat(IdentificationValue(w), 64)) == IdentificationValue(w)
  {
    hide FromNat, Val, Pow2;
    ValFromNat(IdentificationValue(w), 64);
    Pow2Monotonic(32, 64);
    UppermostPowers();
    Pow2Next(31);
    ModUnique(IdentificationValue(w), Pow2(64), 0, IdentificationValue(w));
  }

  lemma NotABranch(w: bv32)
    requires w & 0xffc0_0000 == 0xd500_0000
    ensures !BlockProofs.BranchesThroughZero(w)
  {
    hide Reg;
  }

  lemma NoHigherControls(hcr: Word, scr: Word)
    ensures IsZero(Or(hcr, scr)) <==> Val(hcr) == 0 && Val(scr) == 0
  {
    hide Val;
    ValZero(hcr);
    ValZero(scr);
    if IsZero(Or(hcr, scr)) {
      forall i | 0 <= i < 64 ensures !hcr[i] && !scr[i] { assert !Or(hcr, scr)[i]; }
    }
  }

  /** An identification register is read at EL1 with no control of a higher level set; anywhere else the read traps. */
  lemma IdentificationReads(r: State, pc: nat, cfg: Config, w: bv32) returns (z: Word)
    requires Identification(w)
    ensures Val(z) == IdentificationValue(w)
    ensures BlockProofs.Profile(r, pc, cfg, w) ==
      if r.special.level == 1 && Val(r.special.hcr) == 0 && Val(r.special.scr) == 0 then Through(SetX(r, Rd(w), z))
      else Fault(r.(instruction := w), SystemRegisterTrap)
  {
    z := IdentityValue(w);
    hide *;
    IdentificationMeans(w);
    ConstantValue(w);
    IdentityProfile(r, pc, cfg, w);
    CommonFields(w);
    NoHigherControls(r.special.hcr, r.special.scr);
  }

  lemma IdentityProfile(r: State, pc: nat, cfg: Config, w: bv32)
    requires IsIdentity(w)
    ensures BlockProofs.Profile(r, pc, cfg, w) ==
      if r.special.level == 1 && IsZero(Or(r.special.hcr, r.special.scr)) then Through(SetX(r, Reg(w, 0), IdentityValue(w)))
      else Fault(r.(instruction := w), SystemRegisterTrap)
  {
    hide *;
    IdentityIsSystem(w);
    NotABranch(w);
    IdentityClass(r, pc, cfg, w);
    BlockProofs.ProfileByClass(r, pc, cfg, w, EncodingProofs.Identity);
  }

  lemma IdentityClass(r: State, pc: nat, cfg: Config, w: bv32)
    requires IsIdentity(w)
    ensures EncodingProofs.InClass(w, cfg, EncodingProofs.Identity)
    ensures EncodingProofs.ClassEffect(EncodingProofs.Identity, r, pc, cfg, w) ==
      if r.special.level == 1 && IsZero(Or(r.special.hcr, r.special.scr)) then Through(SetX(r, Reg(w, 0), IdentityValue(w)))
      else Fault(r.(instruction := w), SystemRegisterTrap)
  {
    hide SetX, Reg, IdentityValue, IsZero, Or, IsIdentity;
  }

  lemma IdentityIsSystem(w: bv32)
    requires IsIdentity(w)
    ensures w & 0xffc0_0000 == 0xd500_0000
  {
  }

  // ---------- Thread registers ----------

  /** TPIDR_EL0, TPIDRRO_EL0 and TPIDR_EL1, read by bit 21 and written without it. */
  function Named(w: bv32): (t: Option<ThreadRegister>)
  {
    if w & 0xffdf_ffe0 == 0xd51b_d040 then Some(TpidrEl0)
    else if w & 0xffdf_ffe0 == 0xd51b_d060 then Some(TpidrroEl0)
    else if w & 0xffdf_ffe0 == 0xd518_d080 then Some(TpidrEl1)
    else None
  }

  lemma NamedMeans(w: bv32)
    requires Named(w).Some?
    ensures ThreadOf(w) == Named(w) == ThreadMoved(w)
    ensures w & 0xffc0_0000 == 0xd500_0000
  {
  }

  /** A thread register is read or written whole; EL0 may not name the one of EL1, nor write the read-only one. */
  lemma ThreadMoves(r: State, pc: nat, cfg: Config, w: bv32)
    requires Named(w).Some?
    ensures var t, read := Named(w).value, w & 0x20_0000 != 0;
      var held := match t case TpidrEl0 => r.special.tpidrEl0 case TpidrroEl0 => r.special.tpidrroEl0 case TpidrEl1 => r.special.tpidrEl1;
      var value := X(r, Rd(w), true);
      Execute(r, pc, cfg, w) == Some(
        if cfg.el == 0 && (t.TpidrEl1? || (t.TpidrroEl0? && !read)) then Fault(r.(instruction := w), UndefinedInstruction)
        else if read then Through(SetX(r, Rd(w), held))
        else match t
             case TpidrEl0 => Through(r.(special := r.special.(tpidrEl0 := value)))
             case TpidrroEl0 => Through(r.(special := r.special.(tpidrroEl0 := value)))
             case TpidrEl1 => Through(r.(special := r.special.(tpidrEl1 := value))))
  {
    hide Execute, SetX, X, Reg, Rd, Flag, Named, ThreadOf, ThreadMoved;
    NamedMeans(w);
    CommonFields(w);
    UpperFlags(w);
    EncodingProofs.ExecuteByClass(r, pc, cfg, w, EncodingProofs.Thread);
  }

  // ---------- Registers of EL1 ----------

  /** MRS and MSR of the translation, exception and status registers of EL1, with either direction. */
  predicate NamesEl1(w: bv32)
  {
    var name := w & 0xffdf_ffe0;
    || name == 0xd518_1000  // SCTLR_EL1
    || name == 0xd518_2000 || name == 0xd518_2020 || name == 0xd518_2040  // TTBR0_EL1, TTBR1_EL1, TCR_EL1
    || name == 0xd518_4000 || name == 0xd518_4020  // SPSR_EL1, ELR_EL1
    || name == 0xd518_5200 || name == 0xd518_6000  // ESR_EL1, FAR_EL1
    || name == 0xd518_a200 || name == 0xd518_c000  // MAIR_EL1, VBAR_EL1
  }

  lemma El1Words(w: bv32)
    requires NamesEl1(w)
    ensures w & 0xffc0_0000 == 0xd500_0000 && IsSystem(w) && w != NOP && !IsThread(w) && !IsIdentity(w)
    ensures !VisibleAtEl0(SystemKey(w)) && OnlyEl1(SystemKey(w))
    ensures SystemKey(w) != 0x4082 && SystemKey(w) != 0x5a20 && SystemKey(w) != 0x5a21
  {
  }

  /** A register of EL1 is a privilege fault at EL0, and stops the block for the slow steps above. */
  lemma El1RegistersStop(r: State, pc: nat, cfg: Config, w: bv32)
    requires NamesEl1(w)
    ensures BlockProofs.Profile(r, pc, cfg, w) ==
      Fault(r.(instruction := w), if cfg.el == 0 then PrivilegeFault else SystemRegisterTrap)
  {
    hide BlockProofs.Profile, NamesEl1, IsThread, IsIdentity, SystemKey, VisibleAtEl0, OnlyEl1, IsSystem,
      IsExceptionReturn, IsHintOrMask, IsHigherCall;
    El1Words(w);
    NotABranch(w);
    BlockProofs.ProfileByClass(r, pc, cfg, w, EncodingProofs.System);
  }

  /** The floating-point control and status registers are undefined at every level: there is no such unit. */
  lemma FloatingPointAbsent(r: State, pc: nat, cfg: Config, w: bv32)
    requires w & 0xffdf_ffe0 == 0xd51b_4400 || w & 0xffdf_ffe0 == 0xd51b_4420
    ensures BlockProofs.Profile(r, pc, cfg, w) == Fault(r.(instruction := w), UndefinedInstruction)
  {
    hide BlockProofs.Profile, IsThread, IsIdentity, SystemKey, VisibleAtEl0, OnlyEl1, IsSystem,
      IsExceptionReturn, IsHintOrMask, IsHigherCall;
    FloatingPointWords(w);
    NotABranch(w);
    BlockProofs.ProfileByClass(r, pc, cfg, w, EncodingProofs.System);
  }

  lemma FloatingPointWords(w: bv32)
    requires w & 0xffdf_ffe0 == 0xd51b_4400 || w & 0xffdf_ffe0 == 0xd51b_4420
    ensures w & 0xffc0_0000 == 0xd500_0000 && IsSystem(w) && w != NOP && !IsThread(w) && !IsIdentity(w)
    ensures SystemKey(w) == 0x5a20 || SystemKey(w) == 0x5a21
  {
  }
}
