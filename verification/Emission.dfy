/** The host code emitted for each A64 word (runtime/jit.c, translate_impl). */
module Emission {
  import opened Basics
  import opened PowersOfTwo
  import opened Words
  import opened A64
  import opened HostOps

  function LowOnes(n: nat): (m: Word)
    requires n <= 64
  {
    Ones(n) + Zeros(64 - n)
  }

  /** The four condition flags sit in bits 28 to 31 of the guest state word. */
  function FlagBits(): (m: Word)
  {
    Shift(LSL, LowOnes(4), 28)
  }

  // ---------- Operand and result moves ----------

  function Load(n: nat, sp: bool, wide: bool): (code: seq<Op>)
  {
    if n == 31 then (if sp then [LoadSp(wide)] else [LoadZero]) else [LoadX(n, wide)]
  }

  function Save(n: nat, sp: bool): (code: seq<Op>)
  {
    if n == 31 then (if sp then [StoreSp] else []) else [StoreX(n)]
  }

  function Finish(pc: Word, count: nat, status: Status): (code: seq<Op>)
  {
    [MovImm(RAX, pc)] + [StorePc(RAX)] + [AddRetired(count)] + [Ret(status)]
  }

  function FaultCode(w: bv32, pc: Word, count: nat, status: Status): (code: seq<Op>)
  {
    [StoreInstruction(w)] + Finish(pc, count, status)
  }

  /** Every flag is captured before the shifts and ORs clobber the host flags. */
  function CaptureFlags(subtract: bool): (code: seq<Op>)
  {
    [SetCc(Sign, R9)] + [SetCc(Zero, R10)] + [SetCc(if subtract then CarryClear else CarrySet, R11)]
    + [SetCc(Overflow, RAX)]
    + [ZeroExtendByte(R9)] + [ZeroExtendByte(R10)] + [ZeroExtendByte(R11)] + [ZeroExtendByte(RAX)]
  }

  function PlaceFlags(): (code: seq<Op>)
  {
    [ShiftImm(LSL, false, R9, 31)] + [ShiftImm(LSL, false, R10, 30)] + [ShiftImm(LSL, false, R11, 29)]
    + [ShiftImm(LSL, false, RAX, 28)]
    + [Alu(OrOp, false, RAX, R9)] + [Alu(OrOp, false, RAX, R10)] + [Alu(OrOp, false, RAX, R11)]
  }

  function ReplaceFlags(): (code: seq<Op>)
  {
    [MovImm(R9, Not(FlagBits()))] + [AndPstate] + [OrPstate]
  }

  function SaveFlags(subtract: bool): (code: seq<Op>)
  {
    CaptureFlags(subtract) + PlaceFlags() + ReplaceFlags()
  }

  // ---------- Conditions ----------

  /** Code that leaves the verdict on a condition below 14 in the zero flag. */
  function ConditionTest(cond: nat): (code: seq<Op>)
    requires cond < 14
  {
    var group := cond / 2;
    [LoadPstate] + [ShiftImm(LSR, false, RAX, 28)] + (
      if group < 4 then [AluImm(AndOp, false, ConditionMask(group))]
      else if group == 4 then [AluImm(AndOp, false, FromNat(6, 64))] + [CompareImm(FromNat(2, 64))]
      else
        [MovReg(R9, RAX)] + [ShiftImm(LSR, false, R9, 3)] + [Alu(XorOp, false, RAX, R9)]
        + [AluImm(AndOp, false, FromNat(if group == 5 then 1 else 5, 64))])
  }

  function ConditionMask(group: nat): (v: Word)
    requires group < 4
  {
    FromNat(match group case 0 => 4 case 1 => 2 case 2 => 8 case _ => 1, 64)
  }

  /** The host condition on which the guest condition is false. */
  function FalseCc(cond: nat): (cc: Cc)
    requires cond < 14
  {
    var even := if cond / 2 < 4 then Zero else NotZero;
    if cond % 2 == 0 then even else if even == Zero then NotZero else Zero
  }

  /** Both arms rejoin: the first jumps over the second. */
  function IfElse(test: seq<Op>, cc: Cc, yes: seq<Op>, no: seq<Op>): (code: seq<Op>)
  {
    test + ([Jcc(cc, |yes| + 1)] + (yes + ([Jmp(|no|)] + no)))
  }

  /** The first arm returns. */
  function IfReturn(test: seq<Op>, cc: Cc, yes: seq<Op>, no: seq<Op>): (code: seq<Op>)
  {
    test + ([Jcc(cc, |yes|)] + (yes + no))
  }

  // ---------- Instruction classes ----------

  function AluLogic(op: nat): (aluOp: AluOp)
  {
    if op == 1 then OrOp else if op == 2 then XorOp else AndOp
  }

  function AddOrSub(w: bv32): (aluOp: AluOp)
  {
    if Flag(w, 30) then Sub else Add
  }

  function SelectOther(w: bv32): (code: seq<Op>)
  {
    var wide := Flag(w, 31);
    Load(Reg(w, 16), false, wide)
    + (if Flag(w, 30) then [NotRax(wide)] else [])
    + (if Flag(w, 10) then [AluImm(Add, wide, FromNat(1, 64))] else [])
  }

  function SelectCode(w: bv32): (code: seq<Op>)
  {
    var cond := Reg4(w, 12);
    var first := Load(Reg(w, 5), false, Flag(w, 31));
    (if cond >= 14 then first else IfElse(ConditionTest(cond), FalseCc(cond), first, SelectOther(w)))
    + Save(Reg(w, 0), false)
  }

  function VariableShiftCode(w: bv32): (code: seq<Op>)
  {
    var wide := Flag(w, 31);
    Load(Reg(w, 16), false, wide) + [MovReg(R9, RAX)] + Load(Reg(w, 5), false, wide)
    + [SaveRcx] + [CountFromR9] + [ShiftCl(Kind(w, 10), wide)] + [RestoreRcx]
    + Save(Reg(w, 0), false)
  }

  function MultiplyAddCode(w: bv32): (code: seq<Op>)
  {
    var wide := Flag(w, 31);
    Load(Reg(w, 16), false, wide) + [MovReg(R9, RAX)] + Load(Reg(w, 5), false, wide)
    + [MulRaxR9(wide)] + [MovReg(R9, RAX)]
    + Load(Reg(w, 10), false, wide)
    + [Alu(if Flag(w, 15) then Sub else Add, wide, RAX, R9)]
    + Save(Reg(w, 0), false)
  }

  function CompareOperands(w: bv32): (code: seq<Op>)
  {
    var wide := Flag(w, 31);
    (if Flag(w, 11) then [MovImm(RAX, FromNat(Reg(w, 16), 64))] else Load(Reg(w, 16), false, wide))
    + [MovReg(R9, RAX)] + Load(Reg(w, 5), false, wide)
    + [Alu(AddOrSub(w), wide, RAX, R9)]
    + SaveFlags(Flag(w, 30))
  }

  function CompareFallback(w: bv32): (code: seq<Op>)
  {
    [MovImm(RAX, Shift(LSL, FromNat(Reg4(w, 0), 64), 28))] + ReplaceFlags()
  }

  function ConditionalCompareCode(w: bv32): (code: seq<Op>)
  {
    var cond := Reg4(w, 12);
    if cond >= 14 then CompareOperands(w)
    else IfElse(ConditionTest(cond), FalseCc(cond), CompareOperands(w), CompareFallback(w))
  }

  /** Whether a bitfield word is a defined encoding. */
  predicate BitfieldDefined(w: bv32)
  {
    var wide := Flag(w, 31);
    (BitOf(w, 22) == 1) == wide && (wide || (Six(w, 16) < 32 && Six(w, 10) < 32))
  }

  function BitfieldLength(w: bv32): (bits: nat)
    ensures 0 < bits <= 64
  {
    var r, s := Six(w, 16), Six(w, 10);
    if s >= r then s - r + 1 else s + 1
  }

  function ShiftRight(w: bv32): (code: seq<Op>)
  {
    var r, s := Six(w, 16), Six(w, 10);
    if s >= r && r > 0 then [ShiftImm(LSR, Flag(w, 31), RAX, r)] else []
  }

  function Position(w: bv32): (p: nat)
    requires BitfieldDefined(w)
    ensures p < Width(Flag(w, 31))
  {
    var r, s := Six(w, 16), Six(w, 10);
    if s >= r then 0 else Width(Flag(w, 31)) - r
  }

  function ShiftLeft(w: bv32): (code: seq<Op>)
    requires BitfieldDefined(w)
  {
    if Position(w) > 0 then [ShiftImm(LSL, Flag(w, 31), RAX, Position(w))] else []
  }

  /** The selected source bits, moved into place. */
  function SelectedBits(w: bv32): (code: seq<Op>)
    requires BitfieldDefined(w)
  {
    var wide := Flag(w, 31);
    Load(Reg(w, 5), false, wide) + ShiftRight(w)
    + [MovImm(R9, LowOnes(BitfieldLength(w)))] + [Alu(AndOp, wide, RAX, R9)]
    + ShiftLeft(w)
  }

  function BitfieldMoveCode(w: bv32): (code: seq<Op>)
    requires BitfieldDefined(w)
  {
    var wide := Flag(w, 31);
    var selected := Shift(LSL, LowOnes(BitfieldLength(w)), Position(w));
    SelectedBits(w) + [MovReg(R10, RAX)]
    + Load(Reg(w, 0), false, wide) + [MovImm(R9, Not(selected))]
    + [Alu(AndOp, wide, RAX, R9)] + [Alu(OrOp, wide, RAX, R10)]
    + Save(Reg(w, 0), false)
  }

  function UnsignedBitfieldCode(w: bv32): (code: seq<Op>)
    requires BitfieldDefined(w)
  {
    SelectedBits(w) + Save(Reg(w, 0), false)
  }

  /** The immediate of a logical instruction, if the encoding is defined; LogicalMask computes it. */
  function MaskValue(w: bv32): (m: Option<Word>)
  {
    var n := Width(Flag(w, 31));
    if n == 32 && BitOf(w, 22) == 1 then None else
    var masks := DecodeBitMasks(BitOf(w, 22), Six(w, 10), Six(w, 16), true, n);
    if masks.None? then None else Some(Extend(masks.value.0, 64))
  }

  function LogicalImmediateCode(w: bv32, mask: Word): (code: seq<Op>)
  {
    var wide := Flag(w, 31);
    var op := Field(w, 29, 2);
    Load(Reg(w, 5), false, wide) + [MovImm(R9, mask)] + [Alu(AluLogic(op), wide, RAX, R9)]
    + Save(Reg(w, 0), op != 3)
    + (if op == 3 then SaveFlags(false) else [])
  }

  predicate MoveWideDefined(w: bv32)
  {
    Flag(w, 31) || Quarter(w) < 2
  }

  function MoveWideCode(w: bv32): (code: seq<Op>)
  {
    var wide := Flag(w, 31);
    var shift := 16 * Quarter(w);
    var v: Word := Shift(LSL, FromNat(Field(w, 5, 16), 64), shift);
    (if IsMoveKeep(w) then
       Load(Reg(w, 0), false, wide) + [MovImm(R9, Not(Shift(LSL, LowOnes(16), shift)))]
       + [Alu(AndOp, true, RAX, R9)] + [MovImm(R9, v)] + [Alu(OrOp, true, RAX, R9)]
     else
       [MovImm(RAX, if !IsMoveNot(w) then v else if wide then Not(v) else Extend(Low(Not(v), 32), 64))])
    + Save(Reg(w, 0), false)
  }

  function PcRelativeCode(pc: nat, w: bv32): (code: seq<Op>)
  {
    var displacement := Signed(4 * Field(w, 5, 19) + Field(w, 29, 2), 21);
    var target := if Flag(w, 31) then pc - pc % 4096 + 4096 * displacement else pc + displacement;
    [MovImm(RAX, FromInt(target, 64))] + Save(Reg(w, 0), false)
  }

  function ShiftOperand(w: bv32): (code: seq<Op>)
  {
    var wide := Flag(w, 31);
    Load(Reg(w, 16), false, wide)
    + (if Six(w, 10) > 0 then [ShiftImm(Kind(w, 22), wide, RAX, Six(w, 10))] else [])
  }

  /** MOV between registers skips the OR with zero. */
  predicate IsMoveAlias(w: bv32)
  {
    Field(w, 29, 2) == 1 && Reg(w, 5) == 31 && Field(w, 22, 2) == 0 && Six(w, 10) == 0
  }

  function LogicalShiftedCode(w: bv32): (code: seq<Op>)
  {
    var wide := Flag(w, 31);
    var op := Field(w, 29, 2);
    ShiftOperand(w) + (if Flag(w, 21) then [NotRax(wide)] else [])
    + (if IsMoveAlias(w) then []
       else [MovReg(R9, RAX)] + Load(Reg(w, 5), false, wide) + [Alu(AluLogic(op), wide, RAX, R9)])
    + Save(Reg(w, 0), false)
    + (if op == 3 then SaveFlags(false) else [])
  }

  function AddTail(w: bv32, stack: bool): (code: seq<Op>)
  {
    Save(Reg(w, 0), stack && !Flag(w, 29)) + (if Flag(w, 29) then SaveFlags(Flag(w, 30)) else [])
  }

  function AddImmediateCode(w: bv32): (code: seq<Op>)
  {
    var wide := Flag(w, 31);
    var v := Field(w, 10, 12) * (if Flag(w, 22) then 4096 else 1);
    Load(Reg(w, 5), true, wide) + [AluImm(AddOrSub(w), wide, FromNat(v, 64))] + AddTail(w, true)
  }

  /** A left shift and a right shift of the same amount select and extend the low bits. */
  function ExtendOperand(w: bv32): (code: seq<Op>)
  {
    var wide := Flag(w, 31);
    var option := Three(w, 13);
    var bits := match option % 4 case 0 => 8 case 1 => 16 case 2 => 32 case _ => 64;
    var spare := Width(wide) - bits;
    Load(Reg(w, 16), false, wide)
    + (if spare > 0 then
         [ShiftImm(LSL, wide, RAX, spare)] + [ShiftImm(if option >= 4 then ASR else LSR, wide, RAX, spare)]
       else [])
    + (if Three(w, 10) > 0 then [ShiftImm(LSL, wide, RAX, Three(w, 10))] else [])
  }

  function AddRegisters(w: bv32, stack: bool): (code: seq<Op>)
  {
    var wide := Flag(w, 31);
    [MovReg(R9, RAX)] + Load(Reg(w, 5), stack, wide) + [Alu(AddOrSub(w), wide, RAX, R9)] + AddTail(w, stack)
  }

  function AddExtendedCode(w: bv32): (code: seq<Op>)
  {
    ExtendOperand(w) + AddRegisters(w, true)
  }

  function AddShiftedCode(w: bv32): (code: seq<Op>)
  {
    ShiftOperand(w) + AddRegisters(w, false)
  }

  // ---------- Branches ----------

  function Onward(pc: nat): (v: Word)
  {
    FromInt(pc + 4, 64)
  }

  function ConditionalBranchCode(w: bv32, pc: nat, n: nat): (code: seq<Op>)
  {
    var cond := Reg4(w, 0);
    var taken := Finish(FromInt(pc + 4 * Signed(Field(w, 5, 19), 19), 64), n + 1, Next);
    if cond >= 14 then taken
    else IfReturn(ConditionTest(cond), FalseCc(cond), taken, Finish(Onward(pc), n + 1, Next))
  }

  function TestBranchCode(w: bv32, pc: nat, n: nat): (code: seq<Op>)
  {
    var position := 32 * BitOf(w, 31) + Reg(w, 19);
    IfReturn(
      Load(Reg(w, 0), false, position >= 32) + [BitTest(position)],
      if Flag(w, 24) then CarryClear else CarrySet,
      Finish(FromInt(pc + 4 * Signed(Field(w, 5, 14), 14), 64), n + 1, Next),
      Finish(Onward(pc), n + 1, Next))
  }

  function CompareBranchCode(w: bv32, pc: nat, n: nat): (code: seq<Op>)
  {
    IfReturn(
      Load(Reg(w, 0), false, Flag(w, 31)) + [TestRax],
      if Flag(w, 24) then Zero else NotZero,
      Finish(FromInt(pc + 4 * Signed(Field(w, 5, 19), 19), 64), n + 1, Next),
      Finish(Onward(pc), n + 1, Next))
  }

  function Link(pc: nat): (code: seq<Op>)
  {
    [MovImm(RAX, Onward(pc))] + [StoreX(30)]
  }

  function ImmediateBranchCode(w: bv32, pc: nat, n: nat): (code: seq<Op>)
  {
    (if Flag(w, 31) then Link(pc) else [])
    + Finish(FromInt(pc + 4 * Signed(Field(w, 0, 26), 26), 64), n + 1, Next)
  }

  function RegisterBranchCode(w: bv32, pc: nat, n: nat): (code: seq<Op>)
  {
    Load(Reg(w, 5), false, true) + [MovReg(R9, RAX)]
    + (if IsBranchLinkRegister(w) then Link(pc) else [])
    + [StorePc(R9)] + [AddRetired(n + 1)] + [Ret(Next)]
  }
}
