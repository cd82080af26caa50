/**
 * What each instruction computes, as arithmetic, from its encoding written out as masks and digits: shifted and
 * extended operands, sums with their flags, logic, multiplication, wide moves, selects, conditions and branches.
 */
module InstructionLaws {
  import opened Basics
  import opened PowersOfTwo
  import opened Words
  import opened A64
  import opened InstructionBits
  import opened ShiftLaws
  import opened FlagBridge
  import EncodingProofs

  // ---------- Registers ----------

  /** A register operand: number 31 is zero, and a narrow operand is the lower half. */
  lemma OperandValue(r: State, n: nat, wide: bool)
    requires n < 32
    ensures |X(r, n, wide)| == (if wide then 64 else 32)
    ensures Val(X(r, n, wide)) == if n == 31 then 0 else Val(r.x[n]) % Pow2(if wide then 64 else 32)
    ensures Val(XSP(r, n, wide)) == Val(if n == 31 then r.sp else r.x[n]) % Pow2(if wide then 64 else 32)
  {
    hide Val, Pow2;
    ValZero(Zeros(if wide then 64 else 32));
    ValLow(if n == 31 then r.sp else r.x[n], if wide then 64 else 32);
  }

  /** A result reaches exactly its register, with the upper half of a narrow one cleared. */
  lemma ResultWritten(r: State, n: nat, z: Bits, m: nat)
    requires n < 32 && |z| <= 64 && m < 31
    ensures var s := SetX(r, n, z);
      && Val(s.x[m]) == (if m == n then Val(z) else Val(r.x[m]))
      && s == r.(x := s.x)
    ensures var s := SetXSP(r, n, z);
      && Val(s.x[m]) == (if m == n then Val(z) else Val(r.x[m]))
      && Val(s.sp) == (if n == 31 then Val(z) else Val(r.sp))
      && s == r.(x := s.x, sp := s.sp)
  {
    hide Val;
    ValExtend(z, 64);
  }

  // ---------- Sums ----------

  /** The flags of a sum or difference: sign, zero, carry (or no borrow) and signed overflow. */
  function SumFlagsOf(subtract: bool, a: Bits, b: Bits, z: Bits): (f: Nzcv)
    requires |a| == |b| == |z| > 0
  {
    var exact := if subtract then SVal(a) - SVal(b) else SVal(a) + SVal(b);
    Nzcv(SVal(z) < 0, Val(z) == 0,
         if subtract then Val(a) >= Val(b) else Val(a) + Val(b) >= Pow2(|a|),
         !(-(Pow2(|a| - 1) as int) <= exact < Pow2(|a| - 1)))
  }

  /** z is the sum or difference of a and b at their width, and f its flags. */
  ghost predicate IsSumOf(subtract: bool, a: Bits, b: Bits, z: Bits, f: Nzcv)
    requires |a| == |b| > 0
  {
    && |z| == |a|
    && Val(z) == (if subtract then Val(a) - Val(b) else Val(a) + Val(b)) % Pow2(|a|)
    && f == SumFlagsOf(subtract, a, b, z)
  }

  lemma SignFlag(z: Bits)
    requires |z| > 0
    ensures Msb(z) <==> SVal(z) < 0
  {
    ValBound(z);
  }

  lemma AdditionMeans(a: Bits, b: Bits)
    requires |a| == |b| > 0
    ensures var (z, f) := AddWithCarry(a, b, false); IsSumOf(false, a, b, z, f)
  {
    hide FromNat, Val, SVal, Pow2;
    var (z, f) := AddWithCarry(a, b, false);
    SumFlags(a, b, false);
    SignFlag(z);
    ValZero(z);
  }

  lemma SubtractionMeans(a: Bits, b: Bits)
    requires |a| == |b| > 0
    ensures var (z, f) := AddWithCarry(a, Not(b), true); IsSumOf(true, a, b, z, f)
  {
    hide FromNat, Val, SVal, Pow2;
    var (z, f) := AddWithCarry(a, Not(b), true);
    SumFlags(a, Not(b), true);
    ValNot(b);
    SValNot(b);
    ValBound(b);
    SignFlag(z);
    ValZero(z);
    ModShift(Val(a) - Val(b), 1, Pow2(|a|));
  }

  /** What ADD, ADDS, SUB and SUBS leave, by bits 30 and 29. */
  function SumWritten(r: State, w: bv32, z: Bits, f: Nzcv, stack: bool): (effect: Effect)
    requires |z| <= 64
  {
    Through(if w & 0x2000_0000 != 0 then SetNzcv(SetX(r, Rd(w), z), f)
            else if stack then SetXSP(r, Rd(w), z) else SetX(r, Rd(w), z))
  }

  lemma AddSubtractMeans(r: State, w: bv32, a: Bits, b: Bits, stack: bool) returns (z: Bits, f: Nzcv)
    requires |a| == |b| && 0 < |a| <= 64
    ensures IsSumOf(w & 0x4000_0000 != 0, a, b, z, f)
    ensures AddSubtract(r, w, a, b, stack) == SumWritten(r, w, z, f, stack)
  {
    hide AddWithCarry, IsSumOf, SetX, SetXSP, SetNzcv, Rd, Reg, Flag;
    UppermostFlags(w);
    CommonFields(w);
    AdditionMeans(a, b);
    SubtractionMeans(a, b);
    var sum := if w & 0x4000_0000 != 0 then AddWithCarry(a, Not(b), true) else AddWithCarry(a, b, false);
    z, f := sum.0, sum.1;
  }

  /** ADD and SUB with a 12-bit immediate, shifted by 12 when bit 22 is set; register 31 is the stack pointer. */
  lemma AddImmediates(r: State, pc: nat, cfg: Config, w: bv32) returns (b: Bits, z: Bits, f: Nzcv)
    requires w & 0x1f80_0000 == 0x1100_0000
    ensures |b| == Bitness(w) && Val(b) == Digits(w, 0x400, 0x1000) * (if w & 0x40_0000 != 0 then 0x1000 else 1)
    ensures |z| == Bitness(w) && IsSumOf(w & 0x4000_0000 != 0, XSP(r, Rn(w), IsWide(w)), b, z, f)
    ensures Execute(r, pc, cfg, w) == Some(SumWritten(r, w, z, f, true))
  {
    hide *;
    ImmediateWord(r, pc, cfg, w);
    CommonFields(w);
    b := ImmediateOperand(r, w);
    z, f := AddSubtractMeans(r, w, XSP(r, Rn(w), IsWide(w)), b, true);
    assert |z| == Bitness(w) by { SumWidth(w & 0x4000_0000 != 0, XSP(r, Rn(w), IsWide(w)), b, z, f); }
  }

  lemma SumWidth(subtract: bool, a: Bits, b: Bits, z: Bits, f: Nzcv)
    requires |a| == |b| > 0 && IsSumOf(subtract, a, b, z, f)
    ensures |z| == |a|
  {
  }

  lemma ImmediateWord(r: State, pc: nat, cfg: Config, w: bv32)
    requires w & 0x1f80_0000 == 0x1100_0000
    ensures Execute(r, pc, cfg, w) == Some(AddImmediate(r, w))
  {
    hide Execute, AddImmediate;
    EncodingProofs.ImmediateMeaning(r, pc, cfg, w);
  }

  lemma ImmediateOperand(r: State, w: bv32) returns (b: Bits)
    ensures |b| == Bitness(w) && Val(b) == Digits(w, 0x400, 0x1000) * (if w & 0x40_0000 != 0 then 0x1000 else 1)
    ensures AddImmediate(r, w) == AddSubtract(r, w, XSP(r, Rn(w), IsWide(w)), b, true)
  {
    hide AddSubtract, XSP, Field, Flag, Digits, Pow2, Val, FromNat, Reg, Rn, Width, Bitness, IsWide;
    CommonFields(w);
    UpperFlags(w);
    LowerPowers();
    FieldIsDigits(w, 10, 12);
    var imm := Field(w, 10, 12) * (if Flag(w, 22) then 4096 else 1);
    b := FromNat(imm, Width(Flag(w, 31)));
    ValFromNat(imm, |b|);
    Pow2Monotonic(32, |b|);
    UppermostPowers();
    Pow2Next(31);
    ModUnique(imm, Pow2(|b|), 0, imm);
  }

  /** ADD and SUB with a shifted register: the shift is bits 23:22, its count bits 15:10; rotation and long counts are undefined. */
  lemma AddShiftedRegisters(r: State, pc: nat, cfg: Config, w: bv32) returns (b: Bits, z: Bits, f: Nzcv)
    requires w & 0x1f20_0000 == 0x0b00_0000
    ensures Digits(w, 0x40_0000, 4) == 3 || Digits(w, 0x400, 64) >= Bitness(w) ==>
      Execute(r, pc, cfg, w) == Some(Undefined(r, w))
    ensures Digits(w, 0x40_0000, 4) != 3 && Digits(w, 0x400, 64) < Bitness(w) ==>
      && |b| == |z| == Bitness(w)
      && ShiftedBy(Digits(w, 0x40_0000, 4), X(r, Rm(w), IsWide(w)), Digits(w, 0x400, 64), b)
      && IsSumOf(w & 0x4000_0000 != 0, X(r, Rn(w), IsWide(w)), b, z, f)
      && Execute(r, pc, cfg, w) == Some(SumWritten(r, w, z, f, false))
  {
    hide *;
    AddShiftedWord(r, pc, cfg, w);
    CommonFields(w);
    ShiftFields(w);
    z, f := [], Nzcv(false, false, false, false);
    if Digits(w, 0x40_0000, 4) == 3 || Digits(w, 0x400, 64) >= Bitness(w) {
      b := [];
      AddShiftedUndefined(r, w);
    } else {
      b := Shift(Kind(w, 22), X(r, Rm(w), IsWide(w)), Digits(w, 0x400, 64));
      AddShiftedDefined(r, w);
      UpperPowers();
      ShiftMeans(w, 22, X(r, Rm(w), IsWide(w)), Digits(w, 0x400, 64));
      z, f := AddSubtractMeans(r, w, X(r, Rn(w), IsWide(w)), b, false);
      SumWidth(w & 0x4000_0000 != 0, X(r, Rn(w), IsWide(w)), b, z, f);
    }
  }

  /** The count of a shifted operand, and where it is out of range. */
  lemma ShiftFields(w: bv32)
    ensures Six(w, 10) == Digits(w, 0x400, 64) && Field(w, 22, 2) == Digits(w, 0x40_0000, 4)
  {
    hide Field, Digits, Pow2;
    LowestPowers();
    LowerPowers();
    UpperPowers();
    FieldIsDigits(w, 10, 6);
    FieldIsDigits(w, 22, 2);
  }

  lemma AddShiftedWord(r: State, pc: nat, cfg: Config, w: bv32)
    requires w & 0x1f20_0000 == 0x0b00_0000
    ensures Execute(r, pc, cfg, w) == Some(AddShifted(r, w))
  {
    hide Execute, AddShifted;
    EncodingProofs.ShiftedMeaning(r, pc, cfg, w);
  }

  lemma AddShiftedUndefined(r: State, w: bv32)
    requires Digits(w, 0x40_0000, 4) == 3 || Digits(w, 0x400, 64) >= Bitness(w)
    ensures AddShifted(r, w) == Undefined(r, w)
  {
    hide Field, Digits, Flag, X, Shift, AddSubtract, Bitness, IsWide, Undefined, Six;
    ShiftFields(w);
    CommonFields(w);
  }

  lemma AddShiftedDefined(r: State, w: bv32)
    requires Digits(w, 0x40_0000, 4) != 3 && Digits(w, 0x400, 64) < Bitness(w)
    ensures AddShifted(r, w) == AddSubtract(r, w, X(r, Rn(w), IsWide(w)),
      Shift(Kind(w, 22), X(r, Rm(w), IsWide(w)), Digits(w, 0x400, 64)), false)
  {
    hide Field, Digits, Flag, X, Shift, AddSubtract, Bitness, IsWide, Six, Kind, Rn, Rm, Reg, Undefined;
    ShiftFields(w);
    CommonFields(w);
  }

  // ---------- Logic ----------

  /** AND, ORR, EOR and ANDS, by the two-bit operation. */
  predicate Gate(op: nat, a: bool, b: bool)
  {
    match op
    case 1 => a || b
    case 2 => a != b
    case _ => a && b
  }

  /** z is the bitwise operation, with the second operand inverted when bit 21 of a register form is set. */
  predicate IsLogicOf(op: nat, a: Bits, b: Bits, invert: bool, z: Bits)
    requires |a| == |b|
  {
    |z| == |a| && forall i :: 0 <= i < |a| ==> z[i] == Gate(op, a[i], b[i] != invert)
  }

  /** Logic and ANDS with a shifted register. */
  lemma LogicalShiftedRegisters(r: State, pc: nat, cfg: Config, w: bv32) returns (b: Bits, z: Bits)
    requires w & 0x1f00_0000 == 0x0a00_0000
    ensures Digits(w, 0x400, 64) >= Bitness(w) ==> Execute(r, pc, cfg, w) == Some(Undefined(r, w))
    ensures Digits(w, 0x400, 64) < Bitness(w) ==>
      && |b| == |z| == Bitness(w)
      && ShiftedBy(Digits(w, 0x40_0000, 4), X(r, Rm(w), IsWide(w)), Digits(w, 0x400, 64), b)
      && IsLogicOf(Digits(w, 0x2000_0000, 4), X(r, Rn(w), IsWide(w)), b, w & 0x20_0000 != 0, z)
      && Execute(r, pc, cfg, w) == Some(LogicWritten(r, w, z))
  {
    hide *;
    LogicalShiftedWord(r, pc, cfg, w);
    CommonFields(w);
    b, z := [], [];
    if Digits(w, 0x400, 64) >= Bitness(w) {
      LogicalShiftedUndefined(r, w);
    } else {
      b := Shift(Kind(w, 22), X(r, Rm(w), IsWide(w)), Digits(w, 0x400, 64));
      UpperPowers();
      ShiftMeans(w, 22, X(r, Rm(w), IsWide(w)), Digits(w, 0x400, 64));
      z := LogicalShiftedDefined(r, w, b);
      LogicWidth(Digits(w, 0x2000_0000, 4), X(r, Rn(w), IsWide(w)), b, w & 0x20_0000 != 0, z);
    }
  }

  lemma LogicWidth(op: nat, a: Bits, b: Bits, invert: bool, z: Bits)
    requires |a| == |b| && IsLogicOf(op, a, b, invert, z)
    ensures |z| == |a|
  {
  }

  /** The register, and for ANDS the sign and zero flags with carry and overflow cleared. */
  function LogicWritten(r: State, w: bv32, z: Bits): (effect: Effect)
    requires 0 < |z| <= 64
  {
    var s := SetX(r, Rd(w), z);
    Through(if Digits(w, 0x2000_0000, 4) == 3 then SetNzcv(s, Nzcv(SVal(z) < 0, Val(z) == 0, false, false)) else s)
  }

  lemma LogicalShiftedWord(r: State, pc: nat, cfg: Config, w: bv32)
    requires w & 0x1f00_0000 == 0x0a00_0000
    ensures Execute(r, pc, cfg, w) == Some(LogicalShifted(r, w))
  {
    hide Execute, LogicalShifted;
    EncodingProofs.ShiftedMeaning(r, pc, cfg, w);
  }

  lemma LogicalShiftedUndefined(r: State, w: bv32)
    requires Digits(w, 0x400, 64) >= Bitness(w)
    ensures LogicalShifted(r, w) == Undefined(r, w)
  {
    hide Field, Digits, Flag, X, Shift, SetX, SetNzcv, Logic, Not, LogicFlags, Bitness, IsWide, Undefined, Six;
    ShiftFields(w);
    CommonFields(w);
  }

  lemma GateMeans(op: nat, a: Bits, b: Bits, invert: bool)
    requires |a| == |b| && op < 4
    ensures IsLogicOf(op, a, b, invert, Logic(op, a, if invert then Not(b) else b))
  {
  }

  lemma LogicalShiftedDefined(r: State, w: bv32, b: Bits) returns (z: Bits)
    requires Digits(w, 0x400, 64) < Bitness(w)
    requires b == Shift(Kind(w, 22), X(r, Rm(w), IsWide(w)), Digits(w, 0x400, 64))
    ensures IsLogicOf(Digits(w, 0x2000_0000, 4), X(r, Rn(w), IsWide(w)), b, w & 0x20_0000 != 0, z)
    ensures LogicalShifted(r, w) == LogicWritten(r, w, z)
  {
    hide Field, Digits, Flag, X, Shift, SetX, SetNzcv, Logic, Not, Bitness, IsWide, Six, IsLogicOf, Kind,
      Rd, Rn, Rm, Reg, Pow2, Val, SVal, Undefined;
    ShiftFields(w);
    CommonFields(w);
    UpperFlags(w);
    LowestPowers();
    UppermostPowers();
    FieldIsDigits(w, 29, 2);
    var a, op := X(r, Rn(w), IsWide(w)), Digits(w, 0x2000_0000, 4);
    GateMeans(op, a, b, w & 0x20_0000 != 0);
    z := Logic(op, a, if w & 0x20_0000 != 0 then Not(b) else b);
    SignFlag(z);
    ValZero(z);
  }
}
