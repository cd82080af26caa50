/** Bitfield moves and logical immediates bit by bit, from encodings written out. */
module MaskLaws {
  import opened Basics
  import opened PowersOfTwo
  import opened Words
  import opened A64
  import opened InstructionBits
  import opened InstructionLaws
  import Emission
  import BitfieldProofs
  import LogicalMask
  import EncodingProofs
  import AccessLaws

  // ---------- Bitfield moves ----------

  /** The encodings that are defined: the width bits agree, and a narrow form has narrow positions. */
  predicate FieldsDefined(w: bv32)
  {
    && (w & 0x40_0000 != 0) == (w & 0x8000_0000 != 0)
    && Digits(w, 0x1_0000, 64) < Bitness(w) && Digits(w, 0x400, 64) < Bitness(w)
  }

  /**
   * Bits r to s of the source go to the bottom when s is not below r; otherwise bits 0 to s go up to bit n - r. Every other
   * bit is that of the destination for BFM, and zero for UBFM.
   */
  predicate IsFieldMove(r: nat, s: nat, x: Bits, rest: Bits, z: Bits)
    requires |x| == |rest| && r < |x| && s < |x|
  {
    && |z| == |x|
    && forall i :: 0 <= i < |x| ==>
         z[i] == if s >= r then (if i <= s - r then x[i + r] else rest[i])
                 else if |x| - r <= i <= |x| - r + s then x[i - (|x| - r)] else rest[i]
  }

  lemma FieldsFromDigits(w: bv32)
    ensures Six(w, 16) == Digits(w, 0x1_0000, 64) && Six(w, 10) == Digits(w, 0x400, 64)
    ensures BitOf(w, 22) == (if w & 0x40_0000 != 0 then 1 else 0)
  {
    hide Field, Digits, Pow2;
    LowestPowers();
    LowerPowers();
    UpperPowers();
    UpperFlags(w);
    FieldIsDigits(w, 16, 6);
    FieldIsDigits(w, 10, 6);
  }

  lemma DefinedMeans(w: bv32)
    ensures Emission.BitfieldDefined(w) == FieldsDefined(w)
  {
    hide Field, Digits;
    FieldsFromDigits(w);
    CommonFields(w);
  }

  /** BFM and UBFM. */
  lemma BitfieldMoves(r: State, pc: nat, cfg: Config, w: bv32) returns (z: Bits)
    requires w & 0x7f80_0000 == 0x3300_0000 || w & 0x7f80_0000 == 0x5300_0000
    ensures !FieldsDefined(w) ==> Execute(r, pc, cfg, w) == Some(Undefined(r, w))
    ensures FieldsDefined(w) ==>
      && |z| == Bitness(w)
      && Execute(r, pc, cfg, w) == Some(Through(SetX(r, Rd(w), z)))
      && IsFieldMove(Digits(w, 0x1_0000, 64), Digits(w, 0x400, 64), X(r, Rn(w), IsWide(w)),
                     if w & 0x7f80_0000 == 0x3300_0000 then X(r, Rd(w), IsWide(w)) else Zeros(Bitness(w)), z)
  {
    hide *;
    var keep := w & 0x7f80_0000 == 0x3300_0000;
    BitfieldWord(r, pc, cfg, w);
    DefinedMeans(w);
    z := [];
    if FieldsDefined(w) {
      z := FieldMoved(r, w, keep);
      CommonFields(w);
    } else {
      BitfieldUndefined(r, w, keep);
    }
  }

  lemma BitfieldWord(r: State, pc: nat, cfg: Config, w: bv32)
    requires w & 0x7f80_0000 == 0x3300_0000 || w & 0x7f80_0000 == 0x5300_0000
    ensures Execute(r, pc, cfg, w) == Some(BitfieldMove(r, w, w & 0x7f80_0000 == 0x3300_0000))
  {
    hide Execute, BitfieldMove, IsBitfieldMove, IsUnsignedBitfieldMove;
    BitfieldClass(w);
    EncodingProofs.ImmediateMeaning(r, pc, cfg, w);
  }

  lemma BitfieldClass(w: bv32)
    ensures IsBitfieldMove(w) <==> w & 0x7f80_0000 == 0x3300_0000
    ensures IsUnsignedBitfieldMove(w) <==> w & 0x7f80_0000 == 0x5300_0000
  {
  }

  lemma BitfieldUndefined(r: State, w: bv32, keep: bool)
    requires !FieldsDefined(w)
    ensures BitfieldMove(r, w, keep) == Undefined(r, w)
  {
    hide Field, Digits, Flag, X, SetX, DecodeBitMasks, Undefined, Bitness;
    FieldsFromDigits(w);
    CommonFields(w);
    UppermostFlags(w);
  }

  lemma FieldMoved(r: State, w: bv32, keep: bool) returns (z: Bits)
    requires FieldsDefined(w) && Emission.BitfieldDefined(w)
    ensures |z| == Bitness(w) && BitfieldMove(r, w, keep) == Through(SetX(r, Rd(w), z))
    ensures IsFieldMove(Digits(w, 0x1_0000, 64), Digits(w, 0x400, 64), X(r, Rn(w), IsWide(w)),
                        if keep then X(r, Rd(w), IsWide(w)) else Zeros(Bitness(w)), z)
  {
    hide Field, Digits, Flag, X, SetX, DecodeBitMasks, BitfieldMove, BitfieldProofs.BitfieldValue, Rd, Rn, Reg, Bitness, IsWide, Width;
    FieldsFromDigits(w);
    CommonFields(w);
    BitfieldProofs.BitfieldEffect(r, w, keep);
    var n := Width(Flag(w, 31));
    var masks := DecodeBitMasks(BitOf(w, 22), Six(w, 10), Six(w, 16), false, n).value;
    z := BitfieldProofs.BitfieldValue(r, w, keep, masks);
    var x, rest := X(r, Reg(w, 5), Flag(w, 31)), if keep then X(r, Reg(w, 0), Flag(w, 31)) else Zeros(n);
    forall i | 0 <= i < n ensures MovedBit(Six(w, 16), Six(w, 10), x, rest, z, i) {
      BitfieldProofs.BitfieldBit(r, w, keep, i);
    }
    EveryBitMoved(Six(w, 16), Six(w, 10), x, rest, z);
  }

  predicate MovedBit(r: nat, s: nat, x: Bits, rest: Bits, z: Bits, i: nat)
    requires |x| == |rest| == |z| && r < |x| && s < |x| && i < |x|
  {
    z[i] == if s >= r then (if i <= s - r then x[i + r] else rest[i])
            else if |x| - r <= i <= |x| - r + s then x[i - (|x| - r)] else rest[i]
  }

  lemma EveryBitMoved(r: nat, s: nat, x: Bits, rest: Bits, z: Bits)
    requires |x| == |rest| == |z| && r < |x| && s < |x|
    requires forall i :: 0 <= i < |x| ==> MovedBit(r, s, x, rest, z, i)
    ensures IsFieldMove(r, s, x, rest, z)
  {
    forall i | 0 <= i < |x|
      ensures z[i] == if s >= r then (if i <= s - r then x[i + r] else rest[i])
                      else if |x| - r <= i <= |x| - r + s then x[i - (|x| - r)] else rest[i]
    {
      assert MovedBit(r, s, x, rest, z, i);
    }
  }

  // ---------- Logical immediates ----------

  /** A mask of n bits that repeats every size bits: s + 1 ones, rotated right by r. */
  predicate IsPattern(size: nat, r: nat, s: nat, n: nat, mask: Bits)
    requires size > 0
  {
    |mask| == n && forall i :: 0 <= i < n ==> (mask[i] <==> (i + r) % size <= s % size)
  }

  /** The digits that give the element size: N above the complement of the s field. */
  function SizeDigits(w: bv32): (v: nat)
    ensures v < 128
  {
    (if w & 0x40_0000 != 0 then 64 else 0) + (63 - Digits(w, 0x400, 64))
  }

  /** The immediate is defined: a narrow form has no N, the element fits, and it is not all ones. */
  predicate MaskDefined(w: bv32, len: nat)
  {
    && !(w & 0x8000_0000 == 0 && w & 0x40_0000 != 0)
    && len >= 1 && Pow2(len) <= Bitness(w) && Digits(w, 0x400, 64) % Pow2(len) != Pow2(len) - 1
  }

  /** AND, ORR, EOR and ANDS with a mask; 2^len is the highest power in the size digits. */
  lemma LogicalImmediates(r: State, pc: nat, cfg: Config, w: bv32, len: nat) returns (mask: Bits, z: Bits)
    requires w & 0x1f80_0000 == 0x1200_0000 && Pow2(len) <= SizeDigits(w) < Pow2(len + 1)
    ensures !MaskDefined(w, len) ==> Execute(r, pc, cfg, w) == Some(Undefined(r, w))
    ensures MaskDefined(w, len) ==>
      && |mask| == |z| == Bitness(w)
      && IsPattern(Pow2(len), Digits(w, 0x1_0000, 64), Digits(w, 0x400, 64), Bitness(w), mask)
      && IsLogicOf(Digits(w, 0x2000_0000, 4), X(r, Rn(w), IsWide(w)), mask, false, z)
      && Execute(r, pc, cfg, w) == Some(
           if Digits(w, 0x2000_0000, 4) == 3 then LogicWritten(r, w, z) else Through(SetXSP(r, Rd(w), z)))
  {
    hide *;
    LogicalWord(r, pc, cfg, w);
    CommonFields(w);
    FieldsFromDigits(w);
    SizeFound(w, len);
    mask, z := [], [];
    LogicalPattern(w, len);
    DefinedParts(w, len);
    if MaskDefined(w, len) {
      mask := DecodeBitMasks(BitOf(w, 22), Six(w, 10), Six(w, 16), true, Width(Flag(w, 31))).value.0;
      z := LogicalDefined(r, w, mask);
      LogicWidth(Digits(w, 0x2000_0000, 4), X(r, Rn(w), IsWide(w)), mask, false, z);
    } else {
      LogicalUndefined(r, w, len);
    }
  }

  lemma DefinedParts(w: bv32, len: nat)
    ensures MaskDefined(w, len) <==> (!(w & 0x8000_0000 == 0 && w & 0x40_0000 != 0)
      && len >= 1 && Pow2(len) <= Bitness(w) && Digits(w, 0x400, 64) % Pow2(len) != Pow2(len) - 1)
  {
  }

  lemma LogicalWord(r: State, pc: nat, cfg: Config, w: bv32)
    requires w & 0x1f80_0000 == 0x1200_0000
    ensures Execute(r, pc, cfg, w) == Some(LogicalImmediate(r, w))
  {
    hide Execute, LogicalImmediate;
    EncodingProofs.ImmediateMeaning(r, pc, cfg, w);
  }

  lemma SizeFound(w: bv32, len: nat)
    requires Pow2(len) <= SizeDigits(w) < Pow2(len + 1)
    ensures HighestSetBit(64 * BitOf(w, 22) + (63 - Six(w, 10))) == len
  {
    hide Field, Digits, Pow2, HighestSetBit;
    FieldsFromDigits(w);
    BitfieldProofs.HighestBit(SizeDigits(w), len);
  }

  lemma LogicalPattern(w: bv32, len: nat)
    requires HighestSetBit(64 * BitOf(w, 22) + (63 - Six(w, 10))) == len
    ensures var masks := DecodeBitMasks(BitOf(w, 22), Six(w, 10), Six(w, 16), true, Width(Flag(w, 31)));
      && (masks.Some? <==> len >= 1 && Pow2(len) <= Bitness(w) && Digits(w, 0x400, 64) % Pow2(len) != Pow2(len) - 1)
      && (masks.Some? ==> IsPattern(Pow2(len), Digits(w, 0x1_0000, 64), Digits(w, 0x400, 64), Bitness(w), masks.value.0))
  {
    hide Field, Digits, Flag, Pow2, DecodeBitMasks, HighestSetBit, Width, Bitness;
    FieldsFromDigits(w);
    CommonFields(w);
    LogicalMask.DecodedPattern(BitOf(w, 22), Six(w, 10), Six(w, 16), Width(Flag(w, 31)));
    var size, r, s := Pow2(len), Six(w, 16), Six(w, 10);
    PatternMeans(size, r, s, Width(Flag(w, 31)));
  }

  lemma PatternMeans(size: nat, r: nat, s: nat, n: nat)
    requires size > 0
    ensures IsPattern(size, r, s, n, LogicalMask.Pattern(size, s % size, r % size, n))
  {
    var mask := LogicalMask.Pattern(size, s % size, r % size, n);
    forall i | 0 <= i < n ensures mask[i] <==> (i + r) % size <= s % size {
      AccessLaws.ResidueAdded(i, r, size);
    }
  }

  lemma LogicalUndefined(r: State, w: bv32, len: nat)
    requires !MaskDefined(w, len)
    requires var masks := DecodeBitMasks(BitOf(w, 22), Six(w, 10), Six(w, 16), true, Width(Flag(w, 31)));
      masks.Some? <==> len >= 1 && Pow2(len) <= Bitness(w) && Digits(w, 0x400, 64) % Pow2(len) != Pow2(len) - 1
    ensures LogicalImmediate(r, w) == Undefined(r, w)
  {
    hide Field, Digits, Flag, X, SetX, SetXSP, DecodeBitMasks, Undefined, Bitness, Logic, Width;
    FieldsFromDigits(w);
    CommonFields(w);
  }

  lemma LogicalDefined(r: State, w: bv32, mask: Bits) returns (z: Bits)
    requires !(w & 0x8000_0000 == 0 && w & 0x40_0000 != 0) && |mask| == Bitness(w)
    requires var masks := DecodeBitMasks(BitOf(w, 22), Six(w, 10), Six(w, 16), true, Width(Flag(w, 31)));
      masks.Some? && masks.value.0 == mask
    ensures IsLogicOf(Digits(w, 0x2000_0000, 4), X(r, Rn(w), IsWide(w)), mask, false, z)
    ensures LogicalImmediate(r, w) ==
      if Digits(w, 0x2000_0000, 4) == 3 then LogicWritten(r, w, z) else Through(SetXSP(r, Rd(w), z))
  {
    hide Field, Digits, Flag, X, SetX, SetXSP, SetNzcv, DecodeBitMasks, Undefined, Logic, Width, Rd, Rn, Reg, IsLogicOf, Val, SVal, Pow2;
    FieldsFromDigits(w);
    CommonFields(w);
    LowestPowers();
    UppermostPowers();
    FieldIsDigits(w, 29, 2);
    var a, op := X(r, Rn(w), IsWide(w)), Digits(w, 0x2000_0000, 4);
    GateMeans(op, a, mask, false);
    z := Logic(op, a, mask);
    SignFlag(z);
    ValZero(z);
  }
}
