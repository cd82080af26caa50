/** Where loads and stores go and how much they move, as arithmetic from encodings written out. */
module AccessLaws {
  import opened Basics
  import opened PowersOfTwo
  import opened Words
  import opened A64
  import opened InstructionBits
  import opened ShiftLaws
  import opened InstructionLaws
  import opened ValueLaws

  lemma SumOfTwo(a: Word, b: Word, x: nat, y: int)
    requires Val(a) == x && Val(b) == y % Pow2(64)
    ensures Val(FromInt(Val(a) + Val(b), 64)) == (x + y) % Pow2(64)
  {
    hide Val, Pow2, FromInt;
    IntValue(Val(a) + Val(b), 64);
    ResidueAdded(x, y, Pow2(64));
  }

  lemma ResidueAdded(x: int, y: int, m: int)
    requires m > 0
    ensures (x + y % m) % m == (x + y) % m
  {
    ModShift(x + y % m, y / m, m);
    assert y / m * m == m * (y / m);
  }

  // ---------- One register ----------

  /** The access width, from bits 31:30. */
  lemma AccessWidth(w: bv32)
    ensures AccessBytes(w) == match Digits(w, 0x4000_0000, 4) case 0 => 1 case 1 => 2 case 2 => 4 case _ => 8
    ensures SizeField(w) == Digits(w, 0x4000_0000, 4) && Opc(w) == Digits(w, 0x40_0000, 4)
  {
    hide Field, Digits, Pow2;
    LowestPowers();
    UpperPowers();
    UppermostPowers();
    FieldIsDigits(w, 30, 2);
    FieldIsDigits(w, 22, 2);
  }

  /** The signed 9-bit offset of the unscaled and write-back forms. */
  lemma NineBits(w: bv32)
    ensures Signed(Field(w, 12, 9), 9) == TwosComplement(Digits(w, 0x1000, 512), 512)
  {
    hide Field, Digits, Pow2, Signed, TwosComplement;
    LowerPowers();
    FieldIsDigits(w, 12, 9);
    SignedIs(Field(w, 12, 9), 9);
  }

  /** LDR and STR with an unsigned offset count it in units of the access. */
  lemma UnsignedOffset(r: State, w: bv32)
    requires w & 0x3b00_0000 == 0x3900_0000
    ensures Val(ScalarAddress(r, w)) == (Val(XSP(r, Rn(w), true)) + Digits(w, 0x400, 0x1000) * AccessBytes(w)) % Pow2(64)
    ensures WriteBackScalar(r, w, ScalarUpdated(r, w)) == r
  {
    hide Val, Pow2, FromInt, Field, Digits, XSP, ExtendReg, AccessBytes, Rn, Reg;
    CommonFields(w);
    LowerPowers();
    FieldIsDigits(w, 10, 12);
    var offset := Digits(w, 0x400, 0x1000) * AccessBytes(w);
    UnsignedApart(w);
    IntValue(offset, 64);
    SumOfTwo(XSP(r, Rn(w), true), FromInt(offset, 64), Val(XSP(r, Rn(w), true)), offset);
  }

  lemma UnsignedApart(w: bv32)
    requires w & 0x3b00_0000 == 0x3900_0000
    ensures !IsRegisterOffset(w) && IsUnsignedOffset(w) && !IsWriteBack(w)
  {
  }

  /** The unscaled forms add nine signed bits. */
  lemma UnscaledOffset(r: State, w: bv32)
    requires w & 0x3b20_0c00 == 0x3800_0000
    ensures Val(ScalarAddress(r, w)) == (Val(XSP(r, Rn(w), true)) + TwosComplement(Digits(w, 0x1000, 512), 512)) % Pow2(64)
    ensures WriteBackScalar(r, w, ScalarUpdated(r, w)) == r
  {
    hide Val, Pow2, FromInt, Field, Digits, XSP, ExtendReg, AccessBytes, Rn, Reg, ScalarUpdated;
    NineApart(w);
    NineUpdated(r, w);
  }

  lemma NineApart(w: bv32)
    requires w & 0x3b20_0000 == 0x3800_0000
    ensures !IsRegisterOffset(w) && !IsUnsignedOffset(w)
    ensures IsWriteBack(w) <==> w & 0x400 != 0
    ensures IsPostIndexed(w) <==> w & 0xc00 == 0x400
  {
    hide Field;
    LowerFlags(w);
  }

  lemma NineUpdated(r: State, w: bv32)
    requires w & 0x3b20_0000 == 0x3800_0000
    ensures Val(ScalarUpdated(r, w)) == (Val(XSP(r, Rn(w), true)) + TwosComplement(Digits(w, 0x1000, 512), 512)) % Pow2(64)
  {
    hide Val, Pow2, FromInt, Field, Digits, XSP, ExtendReg, AccessBytes, Rn, Reg, TwosComplement, Signed;
    CommonFields(w);
    NineBits(w);
    NineApart(w);
    var offset := TwosComplement(Digits(w, 0x1000, 512), 512);
    IntValue(offset, 64);
    SumOfTwo(XSP(r, Rn(w), true), FromInt(offset, 64), Val(XSP(r, Rn(w), true)), offset);
  }

  /** Pre-index forms access the updated base, post-index forms the base itself; both write the updated base back. */
  lemma WriteBackOffset(r: State, w: bv32)
    requires w & 0x3b20_0400 == 0x3800_0400
    ensures Val(ScalarUpdated(r, w)) == (Val(XSP(r, Rn(w), true)) + TwosComplement(Digits(w, 0x1000, 512), 512)) % Pow2(64)
    ensures ScalarAddress(r, w) == if w & 0x800 != 0 then ScalarUpdated(r, w) else XSP(r, Rn(w), true)
    ensures WriteBackScalar(r, w, ScalarUpdated(r, w)) == SetXSP(r, Rn(w), ScalarUpdated(r, w))
  {
    hide Val, Pow2, FromInt, Field, Digits, XSP, SetXSP, ExtendReg, AccessBytes, Rn, Reg, ScalarUpdated;
    CommonFields(w);
    NineApart(w);
    NineUpdated(r, w);
  }

  /** The register offset is extended by its option and counted in units of the access when bit 12 is set. */
  lemma RegisterOffset(r: State, w: bv32)
    requires w & 0x3b20_0c00 == 0x3820_0800
    ensures var offset := Extended(X(r, Rm(w), true), Digits(w, 0x2000, 8)) *
                          Pow2(if w & 0x1000 != 0 then Digits(w, 0x4000_0000, 4) else 0);
      Val(ScalarAddress(r, w)) == (Val(XSP(r, Rn(w), true)) + offset) % Pow2(64)
    ensures WriteBackScalar(r, w, ScalarUpdated(r, w)) == r
  {
    hide Val, SVal, Pow2, FromInt, Field, Digits, X, XSP, ExtendReg, AccessBytes, Rn, Rm, Reg, Extended;
    CommonFields(w);
    RegisterApart(w);
    RegisterFields(w);
    var shift := if w & 0x1000 != 0 then Digits(w, 0x4000_0000, 4) else 0;
    var x := X(r, Rm(w), true);
    ExtendMeans(x, Digits(w, 0x2000, 8), shift);
    SumOfTwo(XSP(r, Rn(w), true), ExtendReg(x, Digits(w, 0x2000, 8), shift), Val(XSP(r, Rn(w), true)),
             Extended(x, Digits(w, 0x2000, 8)) * Pow2(shift));
  }

  lemma RegisterApart(w: bv32)
    requires w & 0x3b20_0c00 == 0x3820_0800
    ensures IsRegisterOffset(w) && !IsWriteBack(w)
  {
  }

  lemma RegisterFields(w: bv32)
    ensures ExtendOption(w) == Digits(w, 0x2000, 8) && SizeField(w) == Digits(w, 0x4000_0000, 4)
    ensures Flag(w, 12) <==> w & 0x1000 != 0
  {
    hide Field, Digits, Pow2;
    LowestPowers();
    LowerPowers();
    UppermostPowers();
    FieldIsDigits(w, 13, 3);
    FieldIsDigits(w, 30, 2);
    LowerFlags(w);
  }

  // ---------- Pairs ----------

  /** The element width and the addressing mode of a pair: 1 is post-index and 3 pre-index. */
  lemma PairShape(w: bv32)
    ensures PairBytes(w) == if Digits(w, 0x4000_0000, 4) == 2 then 8 else 4
    ensures PairMode(w) == Digits(w, 0x80_0000, 4)
    ensures PairDisplacement(w) == TwosComplement(Digits(w, 0x8000, 128), 128) * (if Digits(w, 0x4000_0000, 4) == 2 then 8 else 4)
  {
    hide Field, Digits, Pow2, Signed, TwosComplement;
    LowestPowers();
    LowerPowers();
    UpperPowers();
    UppermostPowers();
    FieldIsDigits(w, 30, 2);
    FieldIsDigits(w, 23, 2);
    FieldIsDigits(w, 15, 7);
    SignedIs(Field(w, 15, 7), 7);
  }

  /** A pair starts at the base plus seven signed bits in units of an element, or at the base itself when it is post-indexed. */
  lemma PairPlace(r: State, w: bv32)
    ensures Val(PairUpdated(r, w)) == (Val(XSP(r, Rn(w), true)) + TwosComplement(Digits(w, 0x8000, 128), 128) *
                                       (if Digits(w, 0x4000_0000, 4) == 2 then 8 else 4)) % Pow2(64)
    ensures PairAddress(r, w) == if w & 0x180_0000 == 0x80_0000 then XSP(r, Rn(w), true) else PairUpdated(r, w)
    ensures WriteBackPair(r, w, PairUpdated(r, w)) == if w & 0x80_0000 != 0 then SetXSP(r, Rn(w), PairUpdated(r, w)) else r
  {
    hide Val, Pow2, FromInt, Field, Digits, XSP, SetXSP, Rn, Reg, TwosComplement, PairDisplacement, PairMode;
    CommonFields(w);
    PairShape(w);
    PairModes(w);
    IntValue(Val(PairBase(r, w)) + PairDisplacement(w), 64);
  }

  lemma PairModes(w: bv32)
    ensures PairMode(w) == 1 <==> w & 0x180_0000 == 0x80_0000
    ensures PairMode(w) == 1 || PairMode(w) == 3 <==> w & 0x80_0000 != 0
  {
    hide Field, Pow2;
    FieldPair(w, 23);
    UpperFlags(w);
    UppermostFlags(w);
  }
}
