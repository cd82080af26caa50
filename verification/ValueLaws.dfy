/** Multiplication, wide moves, extended operands and PC-relative addresses as arithmetic, from encodings written out. */
module ValueLaws {
  import opened Basics
  import opened PowersOfTwo
  import opened Words
  import opened A64
  import opened InstructionBits
  import opened ShiftLaws
  import opened InstructionLaws
  import opened FlagBridge
  import EncodingProofs

  // ---------- Multiplication ----------

  /** MADD and MSUB, by bit 15: the exact value at the width. */
  lemma MultiplyAdds(r: State, pc: nat, cfg: Config, w: bv32) returns (z: Bits)
    requires w & 0x7fe0_0000 == 0x1b00_0000
    ensures |z| == Bitness(w)
    ensures Execute(r, pc, cfg, w) == Some(Through(SetX(r, Rd(w), z)))
    ensures Val(z) == (if w & 0x8000 != 0
      then Val(X(r, Ra(w), IsWide(w))) - Val(X(r, Rn(w), IsWide(w))) * Val(X(r, Rm(w), IsWide(w)))
      else Val(X(r, Ra(w), IsWide(w))) + Val(X(r, Rn(w), IsWide(w))) * Val(X(r, Rm(w), IsWide(w)))) % Pow2(Bitness(w))
  {
    hide *;
    MultiplyWord(r, pc, cfg, w);
    CommonFields(w);
    LowerFlags(w);
    var product := Val(X(r, Rn(w), IsWide(w))) * Val(X(r, Rm(w), IsWide(w)));
    var exact := if w & 0x8000 != 0 then Val(X(r, Ra(w), IsWide(w))) - product else Val(X(r, Ra(w), IsWide(w))) + product;
    z := FromInt(exact, Bitness(w));
    MultiplyIs(r, w, product, exact);
    IntValue(exact, Bitness(w));
  }

  lemma IntValue(v: int, n: nat)
    ensures Val(FromInt(v, n)) == v % Pow2(n)
  {
    hide Pow2, Val, FromNat;
    ValFromNat(v % Pow2(n), n);
    ModUnique(v % Pow2(n), Pow2(n), 0, v % Pow2(n));
  }

  lemma MultiplyWord(r: State, pc: nat, cfg: Config, w: bv32)
    requires w & 0x7fe0_0000 == 0x1b00_0000
    ensures Execute(r, pc, cfg, w) == Some(MultiplyAdd(r, w))
  {
    hide Execute, MultiplyAdd;
    EncodingProofs.RegisterMeaning(r, pc, cfg, w);
  }

  lemma MultiplyIs(r: State, w: bv32, product: nat, exact: int)
    requires product == Val(X(r, Reg(w, 5), Flag(w, 31))) * Val(X(r, Reg(w, 16), Flag(w, 31)))
    requires exact == if Flag(w, 15) then Val(X(r, Reg(w, 10), Flag(w, 31))) - product else Val(X(r, Reg(w, 10), Flag(w, 31))) + product
    ensures MultiplyAdd(r, w) == Through(SetX(r, Reg(w, 0), FromInt(exact, Width(Flag(w, 31)))))
  {
    hide X, SetX, Val, Field, FromInt;
  }

  // ---------- Wide moves ----------

  /** The value with sixteen bits from pos replaced. */
  function Replaced(v: nat, pos: nat, imm: nat): (n: int)
  {
    v - v / Pow2(pos) % 0x1_0000 * Pow2(pos) + imm * Pow2(pos)
  }

  /** MOVZ, MOVN and MOVK: a 16-bit immediate at a multiple of 16, alone, inverted, or among the bits that were there. */
  lemma WideMoves(r: State, pc: nat, cfg: Config, w: bv32) returns (z: Bits)
    requires w & 0x7f80_0000 == 0x5280_0000 || w & 0x7f80_0000 == 0x1280_0000 || w & 0x7f80_0000 == 0x7280_0000
    ensures 16 * Digits(w, 0x20_0000, 4) >= Bitness(w) ==> Execute(r, pc, cfg, w) == Some(Undefined(r, w))
    ensures 16 * Digits(w, 0x20_0000, 4) < Bitness(w) ==>
      var pos, imm := 16 * Digits(w, 0x20_0000, 4), Digits(w, 0x20, 0x1_0000);
      && |z| == Bitness(w)
      && Execute(r, pc, cfg, w) == Some(Through(SetX(r, Rd(w), z)))
      && (w & 0x7f80_0000 == 0x5280_0000 ==> Val(z) == imm * Pow2(pos))
      && (w & 0x7f80_0000 == 0x1280_0000 ==> Val(z) == Pow2(|z|) - 1 - imm * Pow2(pos))
      && (w & 0x7f80_0000 == 0x7280_0000 ==> Val(z) == Replaced(Val(X(r, Rd(w), IsWide(w))), pos, imm))
  {
    hide *;
    WideWord(r, pc, cfg, w);
    WideFields(w);
    CommonFields(w);
    z := [];
    if 16 * Digits(w, 0x20_0000, 4) >= Bitness(w) {
      WideUndefined(r, w);
    } else {
      var base := if IsMoveKeep(w) then X(r, Rd(w), IsWide(w)) else Zeros(Bitness(w));
      var imm, pos := Digits(w, 0x20, 0x1_0000), 16 * Digits(w, 0x20_0000, 4);
      var placed := Placed(base, imm, pos);
      z := if IsMoveNot(w) then Not(placed) else placed;
      WideDefined(r, w, base, placed);
      PlacedValue(base, imm, pos);
      NotValue(placed);
      WideNames(w);
      NothingReplaced(Bitness(w), pos, imm);
    }
  }

  lemma NotValue(x: Bits)
    ensures Val(Not(x)) == Pow2(|x|) - 1 - Val(x)
  {
    ValNot(x);
  }

  lemma NothingReplaced(n: nat, pos: nat, imm: nat)
    ensures Val(Zeros(n)) == 0 && Replaced(0, pos, imm) == imm * Pow2(pos)
  {
    hide Val;
    ValZero(Zeros(n));
  }

  lemma WideWord(r: State, pc: nat, cfg: Config, w: bv32)
    requires w & 0x7f80_0000 == 0x5280_0000 || w & 0x7f80_0000 == 0x1280_0000 || w & 0x7f80_0000 == 0x7280_0000
    ensures Execute(r, pc, cfg, w) == Some(MoveWide(r, w))
  {
    hide Execute, MoveWide, IsMoveWide;
    WideIs(w);
    EncodingProofs.ImmediateMeaning(r, pc, cfg, w);
  }

  lemma WideIs(w: bv32)
    requires w & 0x7f80_0000 == 0x5280_0000 || w & 0x7f80_0000 == 0x1280_0000 || w & 0x7f80_0000 == 0x7280_0000
    ensures IsMoveWide(w)
  {
  }

  lemma WideNames(w: bv32)
    ensures IsMoveKeep(w) <==> w & 0x7f80_0000 == 0x7280_0000
    ensures IsMoveNot(w) <==> w & 0x7f80_0000 == 0x1280_0000
  {
  }

  lemma WideFields(w: bv32)
    ensures Quarter(w) == Digits(w, 0x20_0000, 4) && Field(w, 5, 16) == Digits(w, 0x20, 0x1_0000)
  {
    hide Field, Digits, Pow2;
    LowestPowers();
    LowerPowers();
    UpperPowers();
    FieldIsDigits(w, 21, 2);
    FieldIsDigits(w, 5, 16);
  }

  /** Sixteen bits of a number inside a word. */
  function Placed(base: Bits, imm: nat, pos: nat): (z: Bits)
    requires pos + 16 <= |base|
    ensures |z| == |base|
  {
    base[..pos] + FromNat(imm, 16) + base[pos + 16..]
  }

  lemma WideUndefined(r: State, w: bv32)
    requires 16 * Digits(w, 0x20_0000, 4) >= Bitness(w)
    ensures MoveWide(r, w) == Undefined(r, w)
  {
    hide Field, Digits, Flag, X, SetX, FromNat, Undefined, IsMoveKeep, IsMoveNot, Bitness;
    WideFields(w);
    CommonFields(w);
    BitnessIs(w);
  }

  lemma BitnessIs(w: bv32)
    ensures Bitness(w) == if IsWide(w) then 64 else 32
  {
  }

  lemma WideDefined(r: State, w: bv32, base: Bits, placed: Bits)
    requires 16 * Digits(w, 0x20_0000, 4) < Bitness(w)
    requires |base| == Bitness(w) && base == if IsMoveKeep(w) then X(r, Rd(w), IsWide(w)) else Zeros(Bitness(w))
    requires 16 * Digits(w, 0x20_0000, 4) + 16 <= |base|
    requires placed == Placed(base, Digits(w, 0x20, 0x1_0000), 16 * Digits(w, 0x20_0000, 4))
    ensures MoveWide(r, w) == Through(SetX(r, Rd(w), if IsMoveNot(w) then Not(placed) else placed))
  {
    hide Field, Digits, Flag, X, SetX, FromNat, Undefined, IsMoveKeep, IsMoveNot, Bitness, Rd, Reg, IsWide;
    WideFields(w);
    CommonFields(w);
    BitnessIs(w);
    var pos, imm := 16 * Quarter(w), FromNat(Field(w, 5, 16), 16);
    var n := Width(Flag(w, 31));
    assert placed == seq(n, i requires 0 <= i < n => if pos <= i < pos + 16 then imm[i - pos] else base[i]);
  }

  /** Three digits: one below p, sixteen bits from p on, and the rest. */
  function Numeral(low: nat, p: nat, middle: nat, high: nat): (n: nat)
  {
    low + p * (middle + 0x1_0000 * high)
  }

  lemma PartsValue(low: Bits, middle: Bits, high: Bits)
    requires |middle| == 16
    ensures Val(low + middle + high) == Numeral(Val(low), Pow2(|low|), Val(middle), Val(high))
    ensures Val(low) < Pow2(|low|) && Val(middle) < 0x1_0000
  {
    hide Val, Pow2;
    UpperPowers();
    assert low + middle + high == low + (middle + high);
    ValAppend(low, middle + high);
    ValAppend(middle, high);
    ValBound(low);
    ValBound(middle);
  }

  lemma MiddleReplaced(v: nat, pos: nat, low: nat, middle: nat, high: nat, imm: nat)
    requires low < Pow2(pos) && middle < 0x1_0000 && v == Numeral(low, Pow2(pos), middle, high)
    ensures Replaced(v, pos, imm) == Numeral(low, Pow2(pos), imm, high)
  {
    hide Pow2;
    var p, q := Pow2(pos), middle + 0x1_0000 * high;
    ModUnique(v, p, q, low);
    ModUnique(q, 0x1_0000, high, middle);
    Distribute(middle, 0x1_0000 * high, p);
    Distribute(imm, 0x1_0000 * high, p);
  }

  lemma ImmediateValue(imm: nat)
    requires imm < 0x1_0000
    ensures Val(FromNat(imm, 16)) == imm
  {
    hide Val, Pow2, FromNat;
    UpperPowers();
    ValFromNat(imm, 16);
    ModUnique(imm, 0x1_0000, 0, imm);
  }

  lemma InThree(base: Bits, imm: nat, pos: nat, low: Bits, middle: Bits, high: Bits)
    requires pos + 16 <= |base| && low == base[..pos] && middle == base[pos..pos + 16] && high == base[pos + 16..]
    ensures base == low + middle + high && Placed(base, imm, pos) == low + FromNat(imm, 16) + high
    ensures |low| == pos
  {
    hide FromNat;
  }

  lemma PlacedValue(base: Bits, imm: nat, pos: nat)
    requires pos + 16 <= |base| && imm < 0x1_0000
    ensures Val(Placed(base, imm, pos)) == Replaced(Val(base), pos, imm)
  {
    hide *;
    var low, middle, high := base[..pos], base[pos..pos + 16], base[pos + 16..];
    InThree(base, imm, pos, low, middle, high);
    PartsValue(low, middle, high);
    ImmediateValue(imm);
    PartsValue(low, FromNat(imm, 16), high);
    MiddleReplaced(Val(base), pos, Val(low), Val(middle), Val(high), imm);
  }

  // ---------- Extended operands ----------

  /** The value that an extension option takes from a register: its low bits, unsigned or signed from option 4 on. */
  function Extended(x: Bits, option: nat): (v: int)
    requires |x| >= 32
  {
    var size := match option % 4 case 0 => 8 case 1 => 16 case 2 => 32 case _ => |x|;
    if option >= 4 then SVal(x[..size]) else Val(x[..size])
  }

  /** Sign or zero copies above a word keep its value, read as signed or unsigned. */
  lemma Widened(x: Bits, k: nat, signed: bool)
    requires |x| > 0
    ensures Val(x + seq(k, i => signed && Msb(x))) == (if signed then SVal(x) else Val(x)) % Pow2(|x| + k)
  {
    hide Val, Pow2;
    var top := seq(k, i => signed && Msb(x));
    var z := x + top;
    ValBound(z);
    ValMsb(z);
    if signed {
      assert top == seq(k, i => Msb(x));
      SignExtended(x, k);
      ModUnique(SVal(z), Pow2(|z|), if Msb(z) then -1 else 0, Val(z));
    } else {
      ValAppend(x, top);
      ValZero(top);
      ModUnique(Val(x), Pow2(|z|), 0, Val(z));
    }
  }

  function OptionSize(option: nat, n: nat): (size: nat)
  {
    match option % 4 case 0 => 8 case 1 => 16 case 2 => 32 case _ => n
  }

  /** The operand fits above its shift: all of it is there, then copies of its sign or zeros. */
  lemma ExtendedWhole(x: Bits, option: nat, shift: nat, size: nat)
    requires option < 8 && shift <= 4 && (|x| == 32 || |x| == 64) && size == OptionSize(option, |x|) && size + shift <= |x|
    ensures ExtendReg(x, option, shift) == Zeros(shift) + (x[..size] + seq(|x| - shift - size, i => option >= 4 && Msb(x[..size])))
  {
  }

  /** The operand does not fit: what is above the width is lost. */
  lemma ExtendedCut(x: Bits, option: nat, shift: nat, size: nat)
    requires option < 8 && shift <= 4 && (|x| == 32 || |x| == 64) && size == OptionSize(option, |x|) && size + shift > |x|
    ensures ExtendReg(x, option, shift) == Zeros(shift) + x[..|x| - shift]
  {
  }

  /** The low part of a signed value is that of the unsigned one. */
  lemma LowOfSigned(y: Bits, k: nat)
    requires 0 < |y| && k <= |y|
    ensures SVal(y) % Pow2(k) == Val(y) % Pow2(k)
  {
    hide Val, Pow2;
    if Msb(y) {
      Pow2Add(|y| - k, k);
      WholeDropped(Val(y), Pow2(|y| - k), Pow2(k));
    }
  }

  lemma WholeDropped(v: int, c: int, p: int)
    requires p > 0
    ensures (v - c * p) % p == v % p
  {
    ModShift(v, -c, p);
    assert (-c) * p == -(c * p);
  }

  /** ExtendReg: the extended value times a power of two, at the width. */
  lemma ExtendMeans(x: Bits, option: nat, shift: nat)
    requires option < 8 && shift <= 4 && (|x| == 32 || |x| == 64)
    ensures Val(ExtendReg(x, option, shift)) == Extended(x, option) * Pow2(shift) % Pow2(|x|)
  {
    hide Val, Pow2, SVal, ExtendReg;
    var n, size := |x|, OptionSize(option, |x|);
    var y := x[..size];
    var high: Bits;
    if size + shift <= n {
      high := y + seq(n - shift - size, i => option >= 4 && Msb(y));
      ExtendedWhole(x, option, shift, size);
      Widened(y, n - shift - size, option >= 4);
    } else {
      high := x[..n - shift];
      ExtendedCut(x, option, shift, size);
      assert high == y[..n - shift];
      ValLow(y, n - shift);
      LowOfSigned(y, n - shift);
    }
    ShiftedUp(high, shift, Extended(x, option), n);
  }

  lemma ShiftedUp(high: Bits, shift: nat, v: int, n: nat)
    requires |high| + shift == n && Val(high) == v % Pow2(|high|)
    ensures Val(Zeros(shift) + high) == v * Pow2(shift) % Pow2(n)
  {
    hide Val, Pow2;
    ValAppend(Zeros(shift), high);
    ValZero(Zeros(shift));
    Pow2Add(|high|, shift);
    ScaledModulo(v, Pow2(shift), Pow2(|high|));
    assert Pow2(shift) * Val(high) == Val(high) * Pow2(shift);
  }

  /** ADD and SUB with an extended register: option 15:13, shift 12:10 up to 4; register 31 is the stack pointer. */
  lemma AddExtendedRegisters(r: State, pc: nat, cfg: Config, w: bv32) returns (b: Bits, z: Bits, f: Nzcv)
    requires w & 0x1fe0_0000 == 0x0b20_0000
    ensures Digits(w, 0x400, 8) > 4 ==> Execute(r, pc, cfg, w) == Some(Undefined(r, w))
    ensures Digits(w, 0x400, 8) <= 4 ==>
      && |b| == |z| == Bitness(w)
      && Val(b) == Extended(X(r, Rm(w), IsWide(w)), Digits(w, 0x2000, 8)) * Pow2(Digits(w, 0x400, 8)) % Pow2(|b|)
      && IsSumOf(w & 0x4000_0000 != 0, XSP(r, Rn(w), IsWide(w)), b, z, f)
      && Execute(r, pc, cfg, w) == Some(SumWritten(r, w, z, f, true))
  {
    hide *;
    ExtendedWord(r, pc, cfg, w);
    CommonFields(w);
    ExtendFields(w);
    b, z, f := [], [], Nzcv(false, false, false, false);
    if Digits(w, 0x400, 8) > 4 {
      AddExtendedUndefined(r, w);
    } else {
      b := ExtendReg(X(r, Rm(w), IsWide(w)), Digits(w, 0x2000, 8), Digits(w, 0x400, 8));
      AddExtendedDefined(r, w);
      ExtendMeans(X(r, Rm(w), IsWide(w)), Digits(w, 0x2000, 8), Digits(w, 0x400, 8));
      z, f := AddSubtractMeans(r, w, XSP(r, Rn(w), IsWide(w)), b, true);
      SumWidth(w & 0x4000_0000 != 0, XSP(r, Rn(w), IsWide(w)), b, z, f);
    }
  }

  lemma ExtendFields(w: bv32)
    ensures Three(w, 10) == Digits(w, 0x400, 8) && Three(w, 13) == Digits(w, 0x2000, 8)
  {
    hide Field, Digits, Pow2;
    LowestPowers();
    LowerPowers();
    FieldIsDigits(w, 10, 3);
    FieldIsDigits(w, 13, 3);
  }

  lemma ExtendedWord(r: State, pc: nat, cfg: Config, w: bv32)
    requires w & 0x1fe0_0000 == 0x0b20_0000
    ensures Execute(r, pc, cfg, w) == Some(AddExtended(r, w))
  {
    hide Execute, AddExtended;
    EncodingProofs.ShiftedMeaning(r, pc, cfg, w);
  }

  lemma AddExtendedUndefined(r: State, w: bv32)
    requires Digits(w, 0x400, 8) > 4
    ensures AddExtended(r, w) == Undefined(r, w)
  {
    hide Field, Digits, Flag, X, XSP, ExtendReg, AddSubtract, Undefined, Three;
    ExtendFields(w);
  }

  lemma AddExtendedDefined(r: State, w: bv32)
    requires Digits(w, 0x400, 8) <= 4
    ensures AddExtended(r, w) == AddSubtract(r, w, XSP(r, Rn(w), IsWide(w)),
      ExtendReg(X(r, Rm(w), IsWide(w)), Digits(w, 0x2000, 8), Digits(w, 0x400, 8)), true)
  {
    hide Field, Digits, Flag, X, XSP, ExtendReg, AddSubtract, Undefined, Three, Rn, Rm, Reg, IsWide;
    ExtendFields(w);
    CommonFields(w);
  }

  // ---------- Addresses from the PC ----------

  /** A two's complement number of the given range. */
  function TwosComplement(n: nat, range: nat): (v: int)
  {
    if 2 * n >= range then n - range else n
  }

  lemma SignedIs(n: nat, len: nat)
    requires len > 0
    ensures Signed(n, len) == TwosComplement(n, Pow2(len))
  {
    hide Pow2;
    Pow2Next(len - 1);
  }

  /** ADR adds 21 signed bits to the PC; ADRP adds them as pages to the page of the PC. */
  lemma PcRelatives(r: State, pc: nat, cfg: Config, w: bv32) returns (z: Bits)
    requires w & 0x1f00_0000 == 0x1000_0000
    ensures |z| == 64 && Execute(r, pc, cfg, w) == Some(Through(SetX(r, Rd(w), z)))
    ensures var imm := TwosComplement(4 * Digits(w, 0x20, 0x8_0000) + Digits(w, 0x2000_0000, 4), 0x20_0000);
      Val(z) == (if w & 0x8000_0000 != 0 then pc - pc % 4096 + 4096 * imm else pc + imm) % Pow2(64)
  {
    hide *;
    PcRelativeWord(r, pc, cfg, w);
    CommonFields(w);
    UppermostFlags(w);
    PcFields(w);
    var imm := TwosComplement(4 * Digits(w, 0x20, 0x8_0000) + Digits(w, 0x2000_0000, 4), 0x20_0000);
    var target := if w & 0x8000_0000 != 0 then pc - pc % 4096 + 4096 * imm else pc + imm;
    z := FromInt(target, 64);
    PcRelativeIs(r, pc, w, imm, target);
    IntValue(target, 64);
  }

  lemma PcFields(w: bv32)
    ensures Signed(4 * Field(w, 5, 19) + Field(w, 29, 2), 21) ==
      TwosComplement(4 * Digits(w, 0x20, 0x8_0000) + Digits(w, 0x2000_0000, 4), 0x20_0000)
  {
    hide Field, Digits, Pow2, Signed, TwosComplement;
    LowestPowers();
    UpperPowers();
    UppermostPowers();
    FieldIsDigits(w, 5, 19);
    FieldIsDigits(w, 29, 2);
    SignedIs(4 * Field(w, 5, 19) + Field(w, 29, 2), 21);
  }

  lemma PcRelativeWord(r: State, pc: nat, cfg: Config, w: bv32)
    requires w & 0x1f00_0000 == 0x1000_0000
    ensures Execute(r, pc, cfg, w) == Some(PcRelative(r, pc, w))
  {
    hide Execute, PcRelative;
    EncodingProofs.ImmediateMeaning(r, pc, cfg, w);
  }

  lemma PcRelativeIs(r: State, pc: nat, w: bv32, imm: int, target: int)
    requires imm == Signed(4 * Field(w, 5, 19) + Field(w, 29, 2), 21)
    requires target == if Flag(w, 31) then pc - pc % 4096 + 4096 * imm else pc + imm
    ensures PcRelative(r, pc, w) == Through(SetX(r, Reg(w, 0), FromInt(target, 64)))
  {
    hide Field, Signed, SetX, FromInt, Flag;
  }
}
