/** Branches as arithmetic on the PC, from encodings written out; none is executed where addresses are tagged. */
module BranchLaws {
  import opened Basics
  import opened PowersOfTwo
  import opened Words
  import opened A64
  import opened InstructionBits
  import opened ConditionLaws
  import InstructionLaws
  import opened ValueLaws
  import EncodingProofs

  /** The address that lies a signed number of instructions from the PC. */
  predicate IsTarget(pc: nat, instructions: int, t: Bits)
  {
    |t| == 64 && Val(t) == (pc + 4 * instructions) % Pow2(64)
  }

  function Near(pc: nat, instructions: int): (t: Word)
    ensures IsTarget(pc, instructions, t)
  {
    IntValue(pc + 4 * instructions, 64);
    FromInt(pc + 4 * instructions, 64)
  }

  /** The three branch offsets: 19 bits from bit 5, 14 bits from bit 5, and 26 bits from bit 0. */
  lemma Offsets(w: bv32)
    ensures Signed(Field(w, 5, 19), 19) == TwosComplement(Digits(w, 0x20, 0x8_0000), 0x8_0000)
    ensures Signed(Field(w, 5, 14), 14) == TwosComplement(Digits(w, 0x20, 0x4000), 0x4000)
    ensures Signed(Field(w, 0, 26), 26) == TwosComplement(Digits(w, 1, 0x400_0000), 0x400_0000)
  {
    hide Field, Digits, Pow2, Signed, TwosComplement;
    LowestPowers();
    LowerPowers();
    UpperPowers();
    UppermostPowers();
    FieldIsDigits(w, 5, 19);
    FieldIsDigits(w, 5, 14);
    FieldIsDigits(w, 0, 26);
    SignedIs(Field(w, 5, 19), 19);
    SignedIs(Field(w, 5, 14), 14);
    SignedIs(Field(w, 0, 26), 26);
  }

  /** B.cond goes to its offset exactly when its condition holds. */
  lemma ConditionalBranches(r: State, pc: nat, cfg: Config, w: bv32) returns (t: Word)
    requires w & 0xff00_0010 == 0x5400_0000 && !cfg.tagged
    ensures Execute(r, pc, cfg, w) == Some(Jump(r, t))
    ensures IsTarget(pc, if Holds(Digits(w, 1, 16), GetNzcv(r)) then TwosComplement(Digits(w, 0x20, 0x8_0000), 0x8_0000) else 1, t)
  {
    hide *;
    ConditionalWord(r, pc, cfg, w);
    Offsets(w);
    ConditionField(w);
    ConditionMeans(Digits(w, 1, 16), GetNzcv(r));
    t := Near(pc, if Holds(Digits(w, 1, 16), GetNzcv(r)) then TwosComplement(Digits(w, 0x20, 0x8_0000), 0x8_0000) else 1);
    ConditionalIs(r, pc, w);
  }

  lemma ConditionalWord(r: State, pc: nat, cfg: Config, w: bv32)
    requires w & 0xff00_0010 == 0x5400_0000 && !cfg.tagged
    ensures Execute(r, pc, cfg, w) == Some(ConditionalBranch(r, pc, w))
  {
    hide Execute, ConditionalBranch;
    EncodingProofs.BranchMeaning(r, pc, cfg, w);
  }

  lemma ConditionalIs(r: State, pc: nat, w: bv32)
    ensures ConditionalBranch(r, pc, w) ==
      Jump(r, Near(pc, if ConditionHolds(Reg4(w, 0), GetNzcv(r)) then Signed(Field(w, 5, 19), 19) else 1))
  {
    hide Field, Signed, FromInt, ConditionHolds, GetNzcv, IsTarget;
  }

  /** CBZ and CBNZ, by bit 24, on a register at its width. */
  lemma CompareBranches(r: State, pc: nat, cfg: Config, w: bv32) returns (t: Word)
    requires w & 0x7e00_0000 == 0x3400_0000 && !cfg.tagged
    ensures Execute(r, pc, cfg, w) == Some(Jump(r, t))
    ensures IsTarget(pc, if (Val(X(r, Rd(w), IsWide(w))) == 0) != (w & 0x100_0000 != 0)
                         then TwosComplement(Digits(w, 0x20, 0x8_0000), 0x8_0000) else 1, t)
  {
    hide *;
    CompareWord(r, pc, cfg, w);
    Offsets(w);
    CommonFields(w);
    UppermostFlags(w);
    ValZero(X(r, Rd(w), IsWide(w)));
    t := Near(pc, if (Val(X(r, Rd(w), IsWide(w))) == 0) != (w & 0x100_0000 != 0)
                  then TwosComplement(Digits(w, 0x20, 0x8_0000), 0x8_0000) else 1);
    CompareIs(r, pc, w);
  }

  lemma CompareWord(r: State, pc: nat, cfg: Config, w: bv32)
    requires w & 0x7e00_0000 == 0x3400_0000 && !cfg.tagged
    ensures Execute(r, pc, cfg, w) == Some(CompareBranch(r, pc, w))
  {
    hide Execute, CompareBranch;
    EncodingProofs.BranchMeaning(r, pc, cfg, w);
  }

  lemma CompareIs(r: State, pc: nat, w: bv32)
    ensures CompareBranch(r, pc, w) ==
      Jump(r, Near(pc, if IsZero(X(r, Reg(w, 0), Flag(w, 31))) != Flag(w, 24) then Signed(Field(w, 5, 19), 19) else 1))
  {
    hide Field, Signed, FromInt, IsZero, X, Flag, IsTarget;
  }

  /** TBZ and TBNZ, by bit 24: the bit whose number is bit 31 and bits 23:19. */
  lemma TestBranches(r: State, pc: nat, cfg: Config, w: bv32) returns (t: Word)
    requires w & 0x7e00_0000 == 0x3600_0000 && !cfg.tagged
    ensures Execute(r, pc, cfg, w) == Some(Jump(r, t))
    ensures var bit := Digits(w, 0x8_0000, 32) + (if w & 0x8000_0000 != 0 then 32 else 0);
      IsTarget(pc, if X(r, Rd(w), true)[bit] == (w & 0x100_0000 != 0)
                   then TwosComplement(Digits(w, 0x20, 0x4000), 0x4000) else 1, t)
  {
    hide *;
    TestWord(r, pc, cfg, w);
    Offsets(w);
    CommonFields(w);
    UppermostFlags(w);
    TestedBit(w);
    var bit := Digits(w, 0x8_0000, 32) + (if w & 0x8000_0000 != 0 then 32 else 0);
    assert |X(r, Rd(w), true)| == 64 by { InstructionLaws.OperandValue(r, Rd(w), true); }
    t := Near(pc, if X(r, Rd(w), true)[bit] == (w & 0x100_0000 != 0) then TwosComplement(Digits(w, 0x20, 0x4000), 0x4000) else 1);
    TestIs(r, pc, w, bit);
  }

  lemma TestedBit(w: bv32)
    ensures 32 * BitOf(w, 31) + Reg(w, 19) == Digits(w, 0x8_0000, 32) + (if w & 0x8000_0000 != 0 then 32 else 0)
  {
    hide Field, Digits, Pow2;
    LowestPowers();
    UpperPowers();
    FieldIsDigits(w, 19, 5);
    UppermostFlags(w);
  }

  lemma TestWord(r: State, pc: nat, cfg: Config, w: bv32)
    requires w & 0x7e00_0000 == 0x3600_0000 && !cfg.tagged
    ensures Execute(r, pc, cfg, w) == Some(TestBranch(r, pc, w))
  {
    hide Execute, TestBranch;
    EncodingProofs.BranchMeaning(r, pc, cfg, w);
  }

  lemma TestIs(r: State, pc: nat, w: bv32, bit: nat)
    requires bit < 64 && bit == 32 * BitOf(w, 31) + Reg(w, 19)
    ensures TestBranch(r, pc, w) ==
      Jump(r, Near(pc, if X(r, Reg(w, 0), true)[bit] == Flag(w, 24) then Signed(Field(w, 5, 14), 14) else 1))
  {
    hide Field, Signed, FromInt, X, Flag, IsTarget;
  }

  /** B, and BL which leaves the next address in register 30. */
  lemma ImmediateBranches(r: State, pc: nat, cfg: Config, w: bv32) returns (t: Word, next: Word)
    requires w & 0x7c00_0000 == 0x1400_0000 && !cfg.tagged
    ensures IsTarget(pc, TwosComplement(Digits(w, 1, 0x400_0000), 0x400_0000), t) && IsTarget(pc, 1, next)
    ensures Execute(r, pc, cfg, w) == Some(Jump(if w & 0x8000_0000 != 0 then SetX(r, 30, next) else r, t))
  {
    hide *;
    BranchWord(r, pc, cfg, w);
    Offsets(w);
    UppermostFlags(w);
    t, next := Near(pc, TwosComplement(Digits(w, 1, 0x400_0000), 0x400_0000)), Near(pc, 1);
    BranchIs(r, pc, w);
  }

  lemma BranchWord(r: State, pc: nat, cfg: Config, w: bv32)
    requires w & 0x7c00_0000 == 0x1400_0000 && !cfg.tagged
    ensures Execute(r, pc, cfg, w) == Some(ImmediateBranch(r, pc, w))
  {
    hide Execute, ImmediateBranch;
    EncodingProofs.BranchMeaning(r, pc, cfg, w);
  }

  lemma BranchIs(r: State, pc: nat, w: bv32)
    ensures ImmediateBranch(r, pc, w) ==
      Jump(if Flag(w, 31) then SetX(r, 30, Near(pc, 1)) else r, Near(pc, Signed(Field(w, 0, 26), 26)))
  {
    hide Field, Signed, FromInt, Flag, SetX, IsTarget;
  }

  /** BR, BLR and RET go to the register as it was; BLR leaves the next address in register 30. */
  lemma RegisterBranches(r: State, pc: nat, cfg: Config, w: bv32) returns (next: Word)
    requires w & 0xffff_fc1f == 0xd61f_0000 || w & 0xffff_fc1f == 0xd63f_0000 || w & 0xffff_fc1f == 0xd65f_0000
    requires !cfg.tagged
    ensures IsTarget(pc, 1, next)
    ensures Execute(r, pc, cfg, w) ==
      Some(Jump(if w & 0xffff_fc1f == 0xd63f_0000 then SetX(r, 30, next) else r, X(r, Rn(w), true)))
  {
    hide *;
    RegisterWord(r, pc, cfg, w);
    CommonFields(w);
    next := Near(pc, 1);
    RegisterIs(r, pc, w);
  }

  lemma RegisterWord(r: State, pc: nat, cfg: Config, w: bv32)
    requires w & 0xffff_fc1f == 0xd61f_0000 || w & 0xffff_fc1f == 0xd63f_0000 || w & 0xffff_fc1f == 0xd65f_0000
    requires !cfg.tagged
    ensures Execute(r, pc, cfg, w) == Some(RegisterBranch(r, pc, w))
  {
    hide Execute, RegisterBranch;
    EncodingProofs.BranchMeaning(r, pc, cfg, w);
  }

  lemma RegisterIs(r: State, pc: nat, w: bv32)
    ensures RegisterBranch(r, pc, w) ==
      Jump(if w & 0xffff_fc1f == 0xd63f_0000 then SetX(r, 30, Near(pc, 1)) else r, X(r, Reg(w, 5), true))
  {
    hide Field, FromInt, SetX, X, IsTarget;
  }
}
