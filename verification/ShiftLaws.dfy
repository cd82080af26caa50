/**
 * What the shifts mean as arithmetic, from the encodings written out as masks: nothing here names the decoder of the
 * shift kind or the function that shifts, which the meaning of an instruction and its emitted code have in common.
 */
module ShiftLaws {
  import opened Basics
  import opened PowersOfTwo
  import opened Words
  import opened A64
  import opened InstructionBits
  import EncodingProofs

  // ---------- The four shifts as arithmetic ----------

  lemma ValSplit(x: Bits, k: nat)
    requires k <= |x|
    ensures Val(x) == Val(x[..k]) + Pow2(k) * Val(x[k..])
    ensures Val(x[..k]) < Pow2(k)
  {
    assert x[..k] + x[k..] == x;
    ValAppend(x[..k], x[k..]);
    ValBound(x[..k]);
  }

  /** The low part of a product with a power of two comes from the low part of the factor. */
  lemma ScaledModulo(v: int, p: nat, q: nat)
    requires p > 0 && q > 0
    ensures v * p % (q * p) == v % q * p
  {
    var d, m := v / q, v % q;
    assert v == q * d + m;
    MulOrder(m, q, p);
    assert v * p == (q * p) * d + m * p by {
      Distribute(q * d, m, p);
      MulAssoc(q, d, p);
      MulAssoc(q, p, d);
      assert d * p == p * d;
    }
    ModUnique(v * p, q * p, d, m * p);
  }

  lemma LeftShiftValue(x: Bits, k: nat)
    requires k < |x|
    ensures Val(Shift(LSL, x, k)) == Val(x) * Pow2(k) % Pow2(|x|)
  {
    hide Val, Pow2;
    var n := |x|;
    assert Shift(LSL, x, k) == Zeros(k) + x[..n - k];
    ValAppend(Zeros(k), x[..n - k]);
    ValZero(Zeros(k));
    ValLow(x, n - k);
    Pow2Add(n - k, k);
    ScaledModulo(Val(x), Pow2(k), Pow2(n - k));
    assert Pow2(k) * (Val(x) % Pow2(n - k)) == Val(x) % Pow2(n - k) * Pow2(k);
  }

  lemma RightShiftValue(x: Bits, k: nat)
    requires k < |x|
    ensures Val(Shift(LSR, x, k)) == Val(x) / Pow2(k)
  {
    hide Val, Pow2;
    assert Shift(LSR, x, k) == Extend(x[k..], |x|);
    ValExtend(x[k..], |x|);
    ValSplit(x, k);
    ModUnique(Val(x), Pow2(k), Val(x[k..]), Val(x[..k]));
  }

  /** k copies of the sign above a word keep its signed value. */
  lemma SignExtended(x: Bits, k: nat)
    requires |x| > 0
    ensures SVal(x + seq(k, i => Msb(x))) == SVal(x)
  {
    hide Val, Pow2;
    var top := seq(k, i => Msb(x));
    var z := x + top;
    ValAppend(x, top);
    Pow2Add(|x|, k);
    assert |z| > 0 && Msb(z) == Msb(x);
    if Msb(x) {
      assert top == Not(Zeros(k));
      ValNot(Zeros(k));
      ValZero(Zeros(k));
      assert Pow2(|x|) * (Pow2(k) - 1) == Pow2(|x|) * Pow2(k) - Pow2(|x|);
    } else {
      ValZero(top);
    }
  }

  lemma ArithmeticShiftValue(x: Bits, k: nat)
    requires k < |x|
    ensures SVal(Shift(ASR, x, k)) == SVal(x) / Pow2(k)
  {
    hide Val, Pow2;
    var high := x[k..];
    assert Msb(high) == Msb(x);
    assert Shift(ASR, x, k) == high + seq(k, i => Msb(high));
    SignExtended(high, k);
    ValSplit(x, k);
    Pow2Add(k, |high|);
    assert SVal(x) == Pow2(k) * SVal(high) + Val(x[..k]) by {
      assert Pow2(k) * (Val(high) - Pow2(|high|)) == Pow2(k) * Val(high) - Pow2(k) * Pow2(|high|);
    }
    ModUnique(SVal(x), Pow2(k), SVal(high), Val(x[..k]));
  }

  // ---------- What a shift by k must be, kind by kind ----------

  /** z is x shifted by k: left, right, right with the sign, or around, as a two-bit code says. */
  ghost predicate ShiftedBy(code: nat, x: Bits, k: nat, z: Bits)
    requires |x| > 0
  {
    && |z| == |x|
    && match code
       case 0 => Val(z) == Val(x) * Pow2(k) % Pow2(|x|)
       case 1 => Val(z) == Val(x) / Pow2(k)
       case 2 => SVal(z) == SVal(x) / Pow2(k)
       case _ => forall i :: 0 <= i < |x| ==> z[i] == x[(i + k) % |x|]
  }

  lemma RotationBits(x: Bits, k: nat)
    requires k < |x|
    ensures forall i :: 0 <= i < |x| ==> Shift(ROR, x, k)[i] == x[(i + k) % |x|]
  {
    forall i | 0 <= i < |x| ensures Shift(ROR, x, k)[i] == x[(i + k) % |x|] {
      ModUnique(i + k, |x|, if i + k < |x| then 0 else 1, if i + k < |x| then i + k else i + k - |x|);
    }
  }

  lemma KindFromDigits(w: bv32, lo: nat)
    requires lo + 2 <= 32
    ensures Kind(w, lo) == match Digits(w, Pow2(lo), 4) case 0 => LSL case 1 => LSR case 2 => ASR case _ => ROR
  {
    hide Pow2, Digits, Field;
    LowestPowers();
    FieldIsDigits(w, lo, 2);
  }

  lemma ShiftMeans(w: bv32, lo: nat, x: Bits, k: nat)
    requires k < |x| && lo + 2 <= 32
    ensures ShiftedBy(Digits(w, Pow2(lo), 4), x, k, Shift(Kind(w, lo), x, k))
  {
    hide Val, SVal, Field, Digits, Pow2, Shift, Kind;
    KindFromDigits(w, lo);
    LeftShiftValue(x, k);
    RightShiftValue(x, k);
    ArithmeticShiftValue(x, k);
    RotationBits(x, k);
  }

  /** Two-bit codes from masks, at the two places where a shift kind is encoded. */
  lemma CodeFromMasks(w: bv32)
    ensures Digits(w, 0x400, 4) == (if w & 0x400 != 0 then 1 else 0) + (if w & 0x800 != 0 then 2 else 0)
    ensures Digits(w, 0x40_0000, 4) == (if w & 0x40_0000 != 0 then 1 else 0) + (if w & 0x80_0000 != 0 then 2 else 0)
  {
    hide Digits, Field, Pow2;
    LowestPowers();
    LowerPowers();
    UpperPowers();
    LowerFlags(w);
    UpperFlags(w);
    FieldPair(w, 10);
    FieldPair(w, 22);
    FieldIsDigits(w, 10, 2);
    FieldIsDigits(w, 22, 2);
  }

  /** What LSLV, LSRV, ASRV and RORV write, for the source x and the count k. */
  ghost predicate IsVariableShiftOf(w: bv32, x: Bits, k: nat, z: Bits)
    requires |x| > 0
  {
    && |z| == |x|
    && (w & 0x7fe0_fc00 == 0x1ac0_2000 ==> Val(z) == Val(x) * Pow2(k) % Pow2(|x|))
    && (w & 0x7fe0_fc00 == 0x1ac0_2400 ==> Val(z) == Val(x) / Pow2(k))
    && (w & 0x7fe0_fc00 == 0x1ac0_2800 ==> SVal(z) == SVal(x) / Pow2(k))
    && (w & 0x7fe0_fc00 == 0x1ac0_2c00 ==> forall i :: 0 <= i < |x| ==> z[i] == x[(i + k) % |x|])
  }

  lemma VariableShiftNames(w: bv32, x: Bits, k: nat, z: Bits)
    requires |x| > 0 && ShiftedBy(Digits(w, 0x400, 4), x, k, z)
    ensures IsVariableShiftOf(w, x, k, z)
  {
    hide Digits, Val, SVal, Pow2;
    CodeFromMasks(w);
  }

  lemma VariableShiftWord(r: State, pc: nat, cfg: Config, w: bv32)
    requires w & 0x7fe0_f000 == 0x1ac0_2000
    ensures Execute(r, pc, cfg, w) == Some(VariableShift(r, w))
  {
    hide Execute, VariableShift;
    EncodingProofs.RegisterMeaning(r, pc, cfg, w);
  }

  /** The four variable shifts: the count is the second register modulo the width. */
  lemma VariableShifts(r: State, pc: nat, cfg: Config, w: bv32) returns (z: Bits)
    requires w & 0x7fe0_f000 == 0x1ac0_2000
    ensures |z| == Bitness(w)
    ensures Execute(r, pc, cfg, w) == Some(Through(SetX(r, Rd(w), z)))
    ensures IsVariableShiftOf(w, X(r, Rn(w), IsWide(w)), Val(X(r, Rm(w), IsWide(w))) % Bitness(w), z)
  {
    hide *;
    VariableShiftWord(r, pc, cfg, w);
    CommonFields(w);
    var x, k := X(r, Rn(w), IsWide(w)), Val(X(r, Rm(w), IsWide(w))) % Bitness(w);
    z := Shift(Kind(w, 10), x, k);
    VariableShiftIs(r, w);
    LowerPowers();
    ShiftMeans(w, 10, x, k);
    VariableShiftNames(w, x, k, z);
  }

  lemma VariableShiftIs(r: State, w: bv32)
    ensures VariableShift(r, w) == Through(SetX(r, Reg(w, 0),
      Shift(Kind(w, 10), X(r, Reg(w, 5), Flag(w, 31)), Val(X(r, Reg(w, 16), Flag(w, 31))) % Width(Flag(w, 31)))))
  {
  }
}
