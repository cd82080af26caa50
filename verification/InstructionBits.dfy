/**
 * The bits of an instruction word by their masks, independent of the decoder: every one-bit field is the mask
 * with that bit, and a two-bit field is read from its two masks.
 */
module InstructionBits {
  import opened PowersOfTwo
  import opened Words
  import opened A64

  lemma Back(w: bv32)
    ensures (w as nat) as bv32 == w
  {
  }

  lemma LowestBits(w: bv32, n: nat)
    requires n < 0x1_0000_0000 && n as bv32 == w
    ensures w & 0x1 != 0 <==> n / 0x1 % 2 == 1
    ensures w & 0x2 != 0 <==> n / 0x2 % 2 == 1
    ensures w & 0x4 != 0 <==> n / 0x4 % 2 == 1
    ensures w & 0x8 != 0 <==> n / 0x8 % 2 == 1
    ensures w & 0x10 != 0 <==> n / 0x10 % 2 == 1
    ensures w & 0x20 != 0 <==> n / 0x20 % 2 == 1
    ensures w & 0x40 != 0 <==> n / 0x40 % 2 == 1
    ensures w & 0x80 != 0 <==> n / 0x80 % 2 == 1
  {
  }

  lemma LowerBits(w: bv32, n: nat)
    requires n < 0x1_0000_0000 && n as bv32 == w
    ensures w & 0x100 != 0 <==> n / 0x100 % 2 == 1
    ensures w & 0x200 != 0 <==> n / 0x200 % 2 == 1
    ensures w & 0x400 != 0 <==> n / 0x400 % 2 == 1
    ensures w & 0x800 != 0 <==> n / 0x800 % 2 == 1
    ensures w & 0x1000 != 0 <==> n / 0x1000 % 2 == 1
    ensures w & 0x2000 != 0 <==> n / 0x2000 % 2 == 1
    ensures w & 0x4000 != 0 <==> n / 0x4000 % 2 == 1
    ensures w & 0x8000 != 0 <==> n / 0x8000 % 2 == 1
  {
  }

  lemma UpperBits(w: bv32, n: nat)
    requires n < 0x1_0000_0000 && n as bv32 == w
    ensures w & 0x10000 != 0 <==> n / 0x10000 % 2 == 1
    ensures w & 0x20000 != 0 <==> n / 0x20000 % 2 == 1
    ensures w & 0x40000 != 0 <==> n / 0x40000 % 2 == 1
    ensures w & 0x80000 != 0 <==> n / 0x80000 % 2 == 1
    ensures w & 0x100000 != 0 <==> n / 0x100000 % 2 == 1
    ensures w & 0x200000 != 0 <==> n / 0x200000 % 2 == 1
    ensures w & 0x400000 != 0 <==> n / 0x400000 % 2 == 1
    ensures w & 0x800000 != 0 <==> n / 0x800000 % 2 == 1
  {
  }

  lemma UppermostBits(w: bv32, n: nat)
    requires n < 0x1_0000_0000 && n as bv32 == w
    ensures w & 0x1000000 != 0 <==> n / 0x1000000 % 2 == 1
    ensures w & 0x2000000 != 0 <==> n / 0x2000000 % 2 == 1
    ensures w & 0x4000000 != 0 <==> n / 0x4000000 % 2 == 1
    ensures w & 0x8000000 != 0 <==> n / 0x8000000 % 2 == 1
    ensures w & 0x10000000 != 0 <==> n / 0x10000000 % 2 == 1
    ensures w & 0x20000000 != 0 <==> n / 0x20000000 % 2 == 1
    ensures w & 0x40000000 != 0 <==> n / 0x40000000 % 2 == 1
    ensures w & 0x80000000 != 0 <==> n / 0x80000000 % 2 == 1
  {
  }

  lemma LowestPowers()
    ensures Pow2(0) == 0x1 && Pow2(1) == 0x2 && Pow2(2) == 0x4 && Pow2(3) == 0x8
    ensures Pow2(4) == 0x10 && Pow2(5) == 0x20 && Pow2(6) == 0x40 && Pow2(7) == 0x80
  {
    hide Pow2;
    Pow2Zero();
    Pow2Next(0);
    Pow2Next(1);
    Pow2Next(2);
    Pow2Next(3);
    Pow2Next(4);
    Pow2Next(5);
    Pow2Next(6);
  }

  lemma LowerPowers()
    ensures Pow2(8) == 0x100 && Pow2(9) == 0x200 && Pow2(10) == 0x400 && Pow2(11) == 0x800
    ensures Pow2(12) == 0x1000 && Pow2(13) == 0x2000 && Pow2(14) == 0x4000 && Pow2(15) == 0x8000
  {
    hide Pow2;
    LowestPowers();
    Pow2Next(7);
    Pow2Next(8);
    Pow2Next(9);
    Pow2Next(10);
    Pow2Next(11);
    Pow2Next(12);
    Pow2Next(13);
    Pow2Next(14);
  }

  lemma UpperPowers()
    ensures Pow2(16) == 0x10000 && Pow2(17) == 0x20000 && Pow2(18) == 0x40000 && Pow2(19) == 0x80000
    ensures Pow2(20) == 0x100000 && Pow2(21) == 0x200000 && Pow2(22) == 0x400000 && Pow2(23) == 0x800000
  {
    hide Pow2;
    LowerPowers();
    Pow2Next(15);
    Pow2Next(16);
    Pow2Next(17);
    Pow2Next(18);
    Pow2Next(19);
    Pow2Next(20);
    Pow2Next(21);
    Pow2Next(22);
  }

  lemma UppermostPowers()
    ensures Pow2(24) == 0x1000000 && Pow2(25) == 0x2000000 && Pow2(26) == 0x4000000 && Pow2(27) == 0x8000000
    ensures Pow2(28) == 0x10000000 && Pow2(29) == 0x20000000 && Pow2(30) == 0x40000000 && Pow2(31) == 0x80000000
  {
    hide Pow2;
    UpperPowers();
    Pow2Next(23);
    Pow2Next(24);
    Pow2Next(25);
    Pow2Next(26);
    Pow2Next(27);
    Pow2Next(28);
    Pow2Next(29);
    Pow2Next(30);
  }

  lemma FlagBit(w: bv32, i: nat, p: nat)
    requires i < 32 && Pow2(i) == p
    ensures Flag(w, i) <==> (w as nat) / p % 2 == 1
  {
    assert Pow2(1) == 2;
  }

  lemma LowestFlags(w: bv32)
    ensures Flag(w, 0) <==> w & 0x1 != 0
    ensures Flag(w, 1) <==> w & 0x2 != 0
    ensures Flag(w, 2) <==> w & 0x4 != 0
    ensures Flag(w, 3) <==> w & 0x8 != 0
    ensures Flag(w, 4) <==> w & 0x10 != 0
    ensures Flag(w, 5) <==> w & 0x20 != 0
    ensures Flag(w, 6) <==> w & 0x40 != 0
    ensures Flag(w, 7) <==> w & 0x80 != 0
  {
    hide *;
    Back(w);
    LowestBits(w, w as nat);
    LowestPowers();
    FlagBit(w, 0, 0x1);
    FlagBit(w, 1, 0x2);
    FlagBit(w, 2, 0x4);
    FlagBit(w, 3, 0x8);
    FlagBit(w, 4, 0x10);
    FlagBit(w, 5, 0x20);
    FlagBit(w, 6, 0x40);
    FlagBit(w, 7, 0x80);
  }

  lemma LowerFlags(w: bv32)
    ensures Flag(w, 8) <==> w & 0x100 != 0
    ensures Flag(w, 9) <==> w & 0x200 != 0
    ensures Flag(w, 10) <==> w & 0x400 != 0
    ensures Flag(w, 11) <==> w & 0x800 != 0
    ensures Flag(w, 12) <==> w & 0x1000 != 0
    ensures Flag(w, 13) <==> w & 0x2000 != 0
    ensures Flag(w, 14) <==> w & 0x4000 != 0
    ensures Flag(w, 15) <==> w & 0x8000 != 0
  {
    hide *;
    Back(w);
    LowerBits(w, w as nat);
    LowerPowers();
    FlagBit(w, 8, 0x100);
    FlagBit(w, 9, 0x200);
    FlagBit(w, 10, 0x400);
    FlagBit(w, 11, 0x800);
    FlagBit(w, 12, 0x1000);
    FlagBit(w, 13, 0x2000);
    FlagBit(w, 14, 0x4000);
    FlagBit(w, 15, 0x8000);
  }

  lemma UpperFlags(w: bv32)
    ensures Flag(w, 16) <==> w & 0x10000 != 0
    ensures Flag(w, 17) <==> w & 0x20000 != 0
    ensures Flag(w, 18) <==> w & 0x40000 != 0
    ensures Flag(w, 19) <==> w & 0x80000 != 0
    ensures Flag(w, 20) <==> w & 0x100000 != 0
    ensures Flag(w, 21) <==> w & 0x200000 != 0
    ensures Flag(w, 22) <==> w & 0x400000 != 0
    ensures Flag(w, 23) <==> w & 0x800000 != 0
  {
    hide *;
    Back(w);
    UpperBits(w, w as nat);
    UpperPowers();
    FlagBit(w, 16, 0x10000);
    FlagBit(w, 17, 0x20000);
    FlagBit(w, 18, 0x40000);
    FlagBit(w, 19, 0x80000);
    FlagBit(w, 20, 0x100000);
    FlagBit(w, 21, 0x200000);
    FlagBit(w, 22, 0x400000);
    FlagBit(w, 23, 0x800000);
  }

  lemma UppermostFlags(w: bv32)
    ensures Flag(w, 24) <==> w & 0x1000000 != 0
    ensures Flag(w, 25) <==> w & 0x2000000 != 0
    ensures Flag(w, 26) <==> w & 0x4000000 != 0
    ensures Flag(w, 27) <==> w & 0x8000000 != 0
    ensures Flag(w, 28) <==> w & 0x10000000 != 0
    ensures Flag(w, 29) <==> w & 0x20000000 != 0
    ensures Flag(w, 30) <==> w & 0x40000000 != 0
    ensures Flag(w, 31) <==> w & 0x80000000 != 0
  {
    hide *;
    Back(w);
    UppermostBits(w, w as nat);
    UppermostPowers();
    FlagBit(w, 24, 0x1000000);
    FlagBit(w, 25, 0x2000000);
    FlagBit(w, 26, 0x4000000);
    FlagBit(w, 27, 0x8000000);
    FlagBit(w, 28, 0x10000000);
    FlagBit(w, 29, 0x20000000);
    FlagBit(w, 30, 0x40000000);
    FlagBit(w, 31, 0x80000000);
  }
  /** A field is the binary number of its bits. */
  lemma FieldStep(w: bv32, lo: nat, len: nat)
    requires lo + len < 32
    ensures Field(w, lo, len + 1) == (if Flag(w, lo) then 1 else 0) + 2 * Field(w, lo + 1, len)
  {
    hide Pow2;
    NumeralStep(w as nat, Pow2(lo), Pow2(len));
    Pow2Next(len);
    Pow2Next(lo);
    assert Pow2(1) == 2 by { LowestPowers(); }
  }

  lemma NumeralStep(n: nat, p: nat, q: nat)
    requires p > 0 && q > 0
    ensures n / p % (2 * q) == n / p % 2 + 2 * (n / (2 * p) % q)
  {
    DividedTwice(n, p, 2);
    ModHalf(n / p, q);
  }

  /** A two-bit field from its two bits. */
  lemma FieldPair(w: bv32, lo: nat)
    requires lo + 2 <= 32
    ensures Field(w, lo, 2) == (if Flag(w, lo) then 1 else 0) + (if Flag(w, lo + 1) then 2 else 0)
  {
    hide Field, Pow2;
    FieldStep(w, lo, 1);
    assert Pow2(1) == 2 by { LowestPowers(); }
  }

  /** Digits of the word, as plain division: unit and range are powers of two written out. */
  function Digits(w: bv32, unit: nat, range: nat): (n: nat)
    requires unit > 0 && range > 0
    ensures n < range
  {
    (w as nat) / unit % range
  }

  lemma FieldIsDigits(w: bv32, lo: nat, len: nat)
    requires lo + len <= 32
    ensures Field(w, lo, len) == Digits(w, Pow2(lo), Pow2(len))
  {
  }

  // ---------- The fields that most instructions have, written out ----------

  predicate IsWide(w: bv32) { w & 0x8000_0000 != 0 }

  function Bitness(w: bv32): (n: nat)
    ensures n == 32 || n == 64
  {
    if w & 0x8000_0000 != 0 then 64 else 32
  }

  function Rd(w: bv32): (n: nat) ensures n < 32 { Digits(w, 1, 32) }
  function Rn(w: bv32): (n: nat) ensures n < 32 { Digits(w, 0x20, 32) }
  function Ra(w: bv32): (n: nat) ensures n < 32 { Digits(w, 0x400, 32) }
  function Rm(w: bv32): (n: nat) ensures n < 32 { Digits(w, 0x1_0000, 32) }

  lemma CommonFields(w: bv32)
    ensures Flag(w, 31) == IsWide(w) && Width(IsWide(w)) == Bitness(w)
    ensures Reg(w, 0) == Rd(w) && Reg(w, 5) == Rn(w) && Reg(w, 10) == Ra(w) && Reg(w, 16) == Rm(w)
  {
    hide Field, Digits, Pow2;
    UppermostFlags(w);
    LowestPowers();
    LowerPowers();
    UpperPowers();
    FieldIsDigits(w, 0, 5);
    FieldIsDigits(w, 5, 5);
    FieldIsDigits(w, 10, 5);
    FieldIsDigits(w, 16, 5);
  }
}
