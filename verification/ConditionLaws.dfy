/** Conditions, conditional selects and conditional compares, from encodings written out as masks and digits. */
module ConditionLaws {
  import opened Basics
  import opened PowersOfTwo
  import opened Words
  import opened A64
  import opened InstructionBits
  import opened ShiftLaws
  import opened InstructionLaws
  import opened FlagBridge
  import EncodingProofs

  // ---------- Conditions ----------

  /** The sixteen conditions in the order of their codes. */
  predicate Holds(code: nat, f: Nzcv)
  {
    match code
    case 0 => f.z
    case 1 => !f.z
    case 2 => f.c
    case 3 => !f.c
    case 4 => f.n
    case 5 => !f.n
    case 6 => f.v
    case 7 => !f.v
    case 8 => f.c && !f.z
    case 9 => !f.c || f.z
    case 10 => f.n == f.v
    case 11 => f.n != f.v
    case 12 => !f.z && f.n == f.v
    case 13 => f.z || f.n != f.v
    case _ => true
  }

  lemma ConditionMeans(code: nat, f: Nzcv)
    requires code < 16
    ensures ConditionHolds(code, f) == Holds(code, f)
  {
  }

  /** After a comparison the conditions are the comparisons they are named for, unsigned and signed. */
  lemma ConditionsCompare(a: Bits, b: Bits, z: Bits, f: Nzcv)
    requires |a| == |b| > 0 && IsSumOf(true, a, b, z, f)
    ensures ConditionHolds(0, f) <==> Val(a) == Val(b)
    ensures ConditionHolds(1, f) <==> Val(a) != Val(b)
    ensures ConditionHolds(2, f) <==> Val(a) >= Val(b)
    ensures ConditionHolds(3, f) <==> Val(a) < Val(b)
    ensures ConditionHolds(8, f) <==> Val(a) > Val(b)
    ensures ConditionHolds(9, f) <==> Val(a) <= Val(b)
    ensures ConditionHolds(10, f) <==> SVal(a) >= SVal(b)
    ensures ConditionHolds(11, f) <==> SVal(a) < SVal(b)
    ensures ConditionHolds(12, f) <==> SVal(a) > SVal(b)
    ensures ConditionHolds(13, f) <==> SVal(a) <= SVal(b)
  {
    hide Val, SVal, Pow2;
    SValCentre(a);
    SValCentre(b);
    SValCentre(z);
    DifferenceValue(a, b, z, f);
  }

  /** The difference at its width, unsigned and signed, and where it wraps. */
  lemma DifferenceValue(a: Bits, b: Bits, z: Bits, f: Nzcv)
    requires |a| == |b| > 0 && IsSumOf(true, a, b, z, f)
    ensures Val(z) == if Val(a) >= Val(b) then Val(a) - Val(b) else Val(a) - Val(b) + Pow2(|a|)
  {
    hide Val, SVal, Pow2, SumFlagsOf;
    ValBound(a);
    ValBound(b);
    var d, m := Val(a) - Val(b), Pow2(|a|);
    ModUnique(d, m, if d < 0 then -1 else 0, if d < 0 then d + m else d);
  }

  // ---------- Selects ----------

  /** What the four conditional selects write when the condition fails: bits 30 and 10 choose. */
  predicate IsAlternative(w: bv32, b: Bits, z: Bits)
  {
    && |z| == |b|
    && (w & 0x4000_0400 == 0 ==> Val(z) == Val(b))
    && (w & 0x4000_0400 == 0x400 ==> Val(z) == (Val(b) + 1) % Pow2(|b|))
    && (w & 0x4000_0400 == 0x4000_0000 ==> Val(z) == Pow2(|b|) - 1 - Val(b))
    && (w & 0x4000_0400 == 0x4000_0400 ==> Val(z) == -(Val(b) as int) % Pow2(|b|))
  }

  /** CSEL, CSINC, CSINV and CSNEG. */
  lemma ConditionalSelects(r: State, pc: nat, cfg: Config, w: bv32) returns (z: Bits)
    requires w & 0x3fe0_0800 == 0x1a80_0000
    ensures |z| == Bitness(w)
    ensures Execute(r, pc, cfg, w) == Some(Through(SetX(r, Rd(w), z)))
    ensures if Holds(Digits(w, 0x1000, 16), GetNzcv(r)) then z == X(r, Rn(w), IsWide(w))
            else IsAlternative(w, X(r, Rm(w), IsWide(w)), z)
  {
    hide *;
    SelectWord(r, pc, cfg, w);
    CommonFields(w);
    ConditionField(w);
    ConditionMeans(Digits(w, 0x1000, 16), GetNzcv(r));
    z := SelectResult(r, w);
  }

  lemma SelectWord(r: State, pc: nat, cfg: Config, w: bv32)
    requires w & 0x3fe0_0800 == 0x1a80_0000
    ensures Execute(r, pc, cfg, w) == Some(ConditionalSelect(r, w))
  {
    hide Execute, ConditionalSelect;
    EncodingProofs.RegisterMeaning(r, pc, cfg, w);
  }

  lemma ConditionField(w: bv32)
    ensures Reg4(w, 12) == Digits(w, 0x1000, 16) && Reg4(w, 0) == Digits(w, 1, 16)
  {
    hide Field, Digits, Pow2;
    LowestPowers();
    LowerPowers();
    FieldIsDigits(w, 12, 4);
    FieldIsDigits(w, 0, 4);
  }

  function Other(b: Bits, inverted: bool, incremented: bool): (z: Bits)
  {
    var c := if inverted then Not(b) else b;
    if incremented then FromNat(Val(c) + 1, |c|) else c
  }

  lemma OtherMeans(w: bv32, b: Bits)
    ensures IsAlternative(w, b, Other(b, w & 0x4000_0000 != 0, w & 0x400 != 0))
  {
    hide Val, Pow2, FromNat;
    ValNot(b);
    ValBound(b);
    ValFromNat(Val(b) + 1, |b|);
    ValFromNat(Pow2(|b|) - Val(b), |b|);
    ModShift(-(Val(b) as int), 1, Pow2(|b|));
  }

  lemma SelectResult(r: State, w: bv32) returns (z: Bits)
    ensures |z| == Bitness(w)
    ensures ConditionalSelect(r, w) == Through(SetX(r, Rd(w), z))
    ensures if ConditionHolds(Reg4(w, 12), GetNzcv(r)) then z == X(r, Rn(w), IsWide(w))
            else IsAlternative(w, X(r, Rm(w), IsWide(w)), z)
  {
    hide Field, Digits, Flag, X, SetX, Bitness, IsWide, IsAlternative, Rd, Rn, Rm, Reg, Reg4, Pow2, Val, FromNat, ConditionHolds, GetNzcv;
    CommonFields(w);
    UppermostFlags(w);
    LowerFlags(w);
    var b := X(r, Rm(w), IsWide(w));
    OtherMeans(w, b);
    z := if ConditionHolds(Reg4(w, 12), GetNzcv(r)) then X(r, Rn(w), IsWide(w))
         else Other(b, w & 0x4000_0000 != 0, w & 0x400 != 0);
  }

  // ---------- Conditional compares ----------

  /** CCMN and CCMP: the flags of the sum or difference, or the four flags written in the instruction. */
  lemma ConditionalCompares(r: State, pc: nat, cfg: Config, w: bv32) returns (b: Bits, z: Bits, f: Nzcv)
    requires w & 0x3fe0_0410 == 0x3a40_0000
    ensures Execute(r, pc, cfg, w) == Some(Through(SetNzcv(r, f)))
    ensures |b| == Bitness(w)
    ensures if w & 0x800 != 0 then Val(b) == Rm(w) else b == X(r, Rm(w), IsWide(w))
    ensures if Holds(Digits(w, 0x1000, 16), GetNzcv(r)) then IsSumOf(w & 0x4000_0000 != 0, X(r, Rn(w), IsWide(w)), b, z, f)
            else f == Nzcv(w & 8 != 0, w & 4 != 0, w & 2 != 0, w & 1 != 0)
  {
    hide *;
    CompareWord(r, pc, cfg, w);
    CommonFields(w);
    ConditionField(w);
    ConditionMeans(Digits(w, 0x1000, 16), GetNzcv(r));
    b := CompareOperand(r, w);
    var a := X(r, Rn(w), IsWide(w));
    if ConditionHolds(Reg4(w, 12), GetNzcv(r)) {
      z, f := CompareTaken(r, w, a, b);
    } else {
      z, f := [], Nzcv(w & 8 != 0, w & 4 != 0, w & 2 != 0, w & 1 != 0);
      CompareSkipped(r, w);
    }
  }

  lemma CompareWord(r: State, pc: nat, cfg: Config, w: bv32)
    requires w & 0x3fe0_0410 == 0x3a40_0000
    ensures Execute(r, pc, cfg, w) == Some(ConditionalCompare(r, w))
  {
    hide Execute, ConditionalCompare;
    EncodingProofs.RegisterMeaning(r, pc, cfg, w);
  }

  function SecondOperand(r: State, w: bv32): (b: Bits)
  {
    if Flag(w, 11) then FromNat(Reg(w, 16), Width(Flag(w, 31))) else X(r, Reg(w, 16), Flag(w, 31))
  }

  lemma CompareOperand(r: State, w: bv32) returns (b: Bits)
    ensures |b| == Bitness(w) && b == SecondOperand(r, w)
    ensures if w & 0x800 != 0 then Val(b) == Rm(w) else b == X(r, Rm(w), IsWide(w))
  {
    hide Field, Digits, Flag, X, Bitness, IsWide, Rm, Reg, Pow2, Val, FromNat, Width;
    CommonFields(w);
    LowerFlags(w);
    b := SecondOperand(r, w);
    var n := Width(Flag(w, 31));
    ValFromNat(Rm(w), n);
    Pow2Monotonic(5, n);
    LowestPowers();
    ModUnique(Rm(w), Pow2(n), 0, Rm(w));
  }

  lemma CompareTaken(r: State, w: bv32, a: Bits, b: Bits) returns (z: Bits, f: Nzcv)
    requires ConditionHolds(Reg4(w, 12), GetNzcv(r)) && a == X(r, Rn(w), IsWide(w)) && b == SecondOperand(r, w)
    requires |a| == |b| > 0
    ensures ConditionalCompare(r, w) == Through(SetNzcv(r, f))
    ensures IsSumOf(w & 0x4000_0000 != 0, a, b, z, f)
  {
    hide Field, Digits, Flag, X, IsWide, Rm, Rn, Reg, Reg4, FromNat, Width, ConditionHolds, GetNzcv, SetNzcv, AddWithCarry, IsSumOf;
    CommonFields(w);
    UppermostFlags(w);
    AdditionMeans(a, b);
    SubtractionMeans(a, b);
    var sum := if w & 0x4000_0000 != 0 then AddWithCarry(a, Not(b), true) else AddWithCarry(a, b, false);
    z, f := sum.0, sum.1;
  }

  lemma CompareSkipped(r: State, w: bv32)
    requires !ConditionHolds(Reg4(w, 12), GetNzcv(r))
    ensures ConditionalCompare(r, w) == Through(SetNzcv(r, Nzcv(w & 8 != 0, w & 4 != 0, w & 2 != 0, w & 1 != 0)))
  {
    hide Flag, X, ConditionHolds, GetNzcv, SetNzcv, AddWithCarry, Field, Pow2;
    LowestFlags(w);
    Nibble(w);
  }

  function Digit(b: bool): (n: nat) { if b then 1 else 0 }

  /** A number taken apart two at a time is the word of its digits. */
  lemma PairOfBits(b0: bool, b1: bool, n: nat, high: nat)
    requires high == Digit(b1) + 2 * n
    ensures FromNat(Digit(b0) + 2 * high, 2) == [b0, b1]
    ensures FromNat(Digit(b0) + 2 * high, 4) == [b0, b1] + FromNat(n, 2)
  {
    assert (Digit(b0) + 2 * high) / 2 == high && high / 2 == n;
    assert FromNat(high, 1) == [b1] && FromNat(high, 3) == [b1] + FromNat(n, 2);
  }

  lemma Nibble(w: bv32)
    ensures FromNat(Reg4(w, 0), 4) == [Flag(w, 0), Flag(w, 1), Flag(w, 2), Flag(w, 3)]
  {
    hide Field, Flag, Pow2, FromNat;
    FieldStep(w, 0, 3);
    FieldStep(w, 1, 2);
    FieldStep(w, 2, 1);
    FieldStep(w, 3, 0);
    assert Field(w, 4, 0) == 0 by { LowestPowers(); }
    PairOfBits(Flag(w, 2), Flag(w, 3), 0, Field(w, 3, 1));
    PairOfBits(Flag(w, 0), Flag(w, 1), Field(w, 2, 2), Field(w, 1, 3));
  }
}
