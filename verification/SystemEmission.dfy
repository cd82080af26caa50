/**
 * System words (runtime/jit.c): thread registers and identification registers have code of their own; for the
 * others, and for every word of no class, the translator emits a status with which the block stops.
 */
module SystemEmission {
  import opened Basics
  import opened PowersOfTwo
  import opened Words
  import opened A64
  import opened HostOps
  import opened Emission
  import opened PairEmission

  // ---------- Decoding ----------

  /** Bits 5 to 19 name a system register; bits 20 and 21 are not looked at. */
  function SystemKey(w: bv32): (word: bv32)
  {
    (w >> 5) & 0x7fff
  }

  /** The thread register that a word is taken to move. */
  function ThreadOf(w: bv32): (r: Option<ThreadRegister>)
  {
    if !IsSystem(w) then None
    else if SystemKey(w) == 0x5e82 then Some(TpidrEl0)
    else if SystemKey(w) == 0x5e83 then Some(TpidrroEl0)
    else if SystemKey(w) == 0x4684 then Some(TpidrEl1)
    else None
  }

  predicate IsThread(w: bv32) { ThreadOf(w).Some? }

  /** The identification registers of the scalar profile, read by MRS. */
  predicate IsIdentity(w: bv32)
  {
    var base := w & 0xffff_ffe0;
    || base == 0xd538_0400 || base == 0xd538_0420 || base == 0xd538_0440 || base == 0xd538_0480 || base == 0xd538_0600
    || base == 0xd538_0640 || base == 0xd538_0660 || base == 0xd538_0700 || base == 0xd538_0720 || base == 0xd538_0740
  }

  /** The profile's values: ID_AA64MMFR0, ID_AA64PFR0, and zero for the rest. */
  function IdentityValue(w: bv32): (v: Word)
  {
    FromNat(if w & 0xffff_ffe0 == 0xd538_0700 then 0x0f10_0005 else if w & 0xffff_ffe0 == 0xd538_0400 then 0x00ff_0011 else 0, 64)
  }

  /** CPACR_EL1 at EL0, and the control and status registers of an absent floating-point unit. */
  predicate ControlAbsent(w: bv32, el: nat)
  {
    IsSystem(w) && ((SystemKey(w) == 0x4082 && el == 0) || SystemKey(w) == 0x5a20 || SystemKey(w) == 0x5a21)
  }

  /** Registers that EL0 may name. */
  predicate VisibleAtEl0(key: bv32)
  {
    || key == 0x5801 || key == 0x5802 || key == 0x5a20 || key == 0x5a21 || key == 0x5e82 || key == 0x5e83
    || key == 0x5f00 || key == 0x5f01 || key == 0x5f02 || key == 0x5f10 || key == 0x5f11 || key == 0x5f12
    || key == 0x5f19 || key == 0x5f1a || key == 0x4212
  }

  predicate OnlyEl1(key: bv32)
  {
    || key == 0x4020 || key == 0x4021 || key == 0x4022 || key == 0x4038 || key == 0x4039 || key == 0x403a || key == 0x4031
    || key == 0x4080 || key == 0x4100 || key == 0x4101 || key == 0x4102 || key == 0x4510 || key == 0x4600
    || key == 0x4290 || key == 0x4300 || key == 0x4201 || key == 0x4200
  }

  predicate IsExceptionReturn(w: bv32)
  {
    w == 0xd69f03e0 || w == 0xd69f0be0 || w == 0xd69f0fe0
  }

  /** HVC and SMC. */
  predicate IsHigherCall(w: bv32)
  {
    Matches(w, 0xffe0001f, 0xd4000002) || Matches(w, 0xffe0001f, 0xd4000003)
  }

  /** WFI, WFE, and the immediate writes of DAIF and SPSel. */
  predicate IsHintOrMask(w: bv32)
  {
    || w == 0xd503207f || w == 0xd503205f
    || Matches(w, 0xfffff0ff, 0xd50340df) || Matches(w, 0xfffff0ff, 0xd50340ff) || Matches(w, 0xfffffeff, 0xd50040bf)
  }

  predicate KnownPrivileged(w: bv32, el: nat)
  {
    el == 0
    && (IsExceptionReturn(w) || IsHintOrMask(w) || IsHigherCall(w)
        || (IsSystem(w) && !VisibleAtEl0(SystemKey(w)) && OnlyEl1(SystemKey(w))))
  }

  /** The status of a word that no class has code for. */
  function Boundary(w: bv32, el: nat): (status: Status)
  {
    if ControlAbsent(w, el) then UndefinedInstruction
    else if KnownPrivileged(w, el) then PrivilegeFault
    else if IsExceptionReturn(w) || IsSystem(w) then SystemRegisterTrap
    else UndefinedInstruction
  }

  // ---------- Effects ----------

  /** A read of an identification register: at EL1 with no higher control set its value, otherwise a trap. */
  function ReadIdentity(r: State, w: bv32): (effect: Effect)
  {
    if r.special.level == 1 && IsZero(Or(r.special.hcr, r.special.scr)) then Through(SetX(r, Reg(w, 0), IdentityValue(w)))
    else Fault(r.(instruction := w), SystemRegisterTrap)
  }

  // ---------- Code ----------

  function ThreadCode(w: bv32, t: ThreadRegister): (code: seq<Op>)
  {
    if Flag(w, 21) then [LoadThread(t)] + Save(Reg(w, 0), false)
    else Load(Reg(w, 0), false, true) + [StoreThread(t)]
  }

  /** The controls are read when the code runs, not when it is emitted. */
  function IdentityCode(w: bv32, pc: Word, n: nat): (code: seq<Op>)
  {
    var trap := FaultCode(w, pc, n, SystemRegisterTrap);
    Guard([CompareLevel(1)], NotZero, [LoadHcr] + [OrScr] + [Jcc(Zero, |trap|)], 0)
    + (trap + ([MovImm(RAX, IdentityValue(w))] + Save(Reg(w, 0), false)))
  }
}
