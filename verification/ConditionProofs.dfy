/** Guest conditions, tested on the committed flags, and the two shapes of conditional code. */
module ConditionProofs {
  import opened PowersOfTwo
  import opened Words
  import opened A64
  import opened HostOps
  import opened Emission
  import opened HostRuns
  import opened FlagBridge

  lemma {:induction false} ZeroWord(n: nat)
    ensures FromNat(0, n) == Zeros(n)
  {
    if n > 0 {
      ZeroWord(n - 1);
      assert Zeros(n) == [false] + Zeros(n - 1);
    }
  }

  /** Four given bits at the bottom of a word. */
  function Nibble(b0: bool, b1: bool, b2: bool, b3: bool, n: nat): (w: Bits)
    requires n >= 4
    ensures |w| == n
  {
    seq(n, i requires 0 <= i < n => if i == 0 then b0 else if i == 1 then b1 else if i == 2 then b2 else i == 3 && b3)
  }

  lemma SmallWord(v: nat, n: nat)
    requires v < 16 && n >= 4
    ensures FromNat(v, n) == Nibble(v % 2 == 1, v / 2 % 2 == 1, v / 4 % 2 == 1, v / 8 % 2 == 1, n)
  {
    hide FromNat;
    ZeroWord(n - 4);
    FromNatStep(v, n);
    FromNatStep(v / 2, n - 1);
    FromNatStep(v / 4, n - 2);
    FromNatStep(v / 8, n - 3);
    var bits := [v % 2 == 1] + ([v / 2 % 2 == 1] + ([v / 4 % 2 == 1] + ([v / 8 % 2 == 1] + Zeros(n - 4))));
    assert v / 2 / 2 == v / 4 && v / 4 / 2 == v / 8 && v / 8 / 2 == 0;
    assert FromNat(v, n) == bits;
    NibbleConcat(v % 2 == 1, v / 2 % 2 == 1, v / 4 % 2 == 1, v / 8 % 2 == 1, n);
  }

  lemma FromNatStep(v: nat, n: nat)
    requires n > 0
    ensures FromNat(v, n) == [v % 2 == 1] + FromNat(v / 2, n - 1)
  {
  }

  lemma NibbleConcat(b0: bool, b1: bool, b2: bool, b3: bool, n: nat)
    requires n >= 4
    ensures [b0] + ([b1] + ([b2] + ([b3] + Zeros(n - 4)))) == Nibble(b0, b1, b2, b3, n)
  {
    var bits := [b0] + ([b1] + ([b2] + ([b3] + Zeros(n - 4))));
    var w := Nibble(b0, b1, b2, b3, n);
    forall i | 0 <= i < n ensures bits[i] == w[i] {
      if i >= 4 {
        assert bits[i] == Zeros(n - 4)[i - 4];
      }
    }
  }

  lemma NibbleZero(b0: bool, b1: bool, b2: bool, b3: bool, n: nat)
    requires n >= 4
    ensures IsZero(Nibble(b0, b1, b2, b3, n)) <==> !b0 && !b1 && !b2 && !b3
  {
    var w := Nibble(b0, b1, b2, b3, n);
    assert w[0] == b0 && w[1] == b1 && w[2] == b2 && w[3] == b3;
  }

  /** Bit i of a nibble word. */
  function NibbleBit(b0: bool, b1: bool, b2: bool, b3: bool, i: nat): (b: bool)
  {
    if i == 0 then b0 else if i == 1 then b1 else if i == 2 then b2 else i == 3 && b3
  }

  lemma NibbleAt(b0: bool, b1: bool, b2: bool, b3: bool, n: nat, i: nat)
    requires n >= 4 && i < n
    ensures Nibble(b0, b1, b2, b3, n)[i] == NibbleBit(b0, b1, b2, b3, i)
  {
  }

  lemma NibbleLogic(a0: bool, a1: bool, a2: bool, a3: bool, b0: bool, b1: bool, b2: bool, b3: bool, n: nat)
    requires n >= 4
    ensures And(Nibble(a0, a1, a2, a3, n), Nibble(b0, b1, b2, b3, n)) == Nibble(a0 && b0, a1 && b1, a2 && b2, a3 && b3, n)
    ensures Xor(Nibble(a0, a1, a2, a3, n), Nibble(b0, b1, b2, b3, n)) == Nibble(a0 != b0, a1 != b1, a2 != b2, a3 != b3, n)
  {
    hide Nibble;
    var a, b := Nibble(a0, a1, a2, a3, n), Nibble(b0, b1, b2, b3, n);
    var both, either := Nibble(a0 && b0, a1 && b1, a2 && b2, a3 && b3, n), Nibble(a0 != b0, a1 != b1, a2 != b2, a3 != b3, n);
    forall i | 0 <= i < n ensures And(a, b)[i] == both[i] && Xor(a, b)[i] == either[i] {
      NibbleAt(a0, a1, a2, a3, n, i);
      NibbleAt(b0, b1, b2, b3, n, i);
      NibbleAt(a0 && b0, a1 && b1, a2 && b2, a3 && b3, n, i);
      NibbleAt(a0 != b0, a1 != b1, a2 != b2, a3 != b3, n, i);
    }
    assert And(a, b) == both;
    assert Xor(a, b) == either;
  }

  /** A comparison sets the zero flag exactly on equal words. */
  lemma CompareEqual(a: Bits, b: Bits)
    requires |a| == |b| > 0
    ensures Arithmetic(Sub, a, b).1.zf <==> a == b
  {
    hide FromNat, Val, IsZero;
    var m := Pow2(|a|);
    var d := Val(a) - Val(b);
    ValBound(a);
    ValBound(b);
    ModUnique(d, m, if d < 0 then -1 else 0, if d < 0 then d + m else d);
    ValFromNat(d % m, |a|);
    ModUnique(d % m, m, 0, d % m);
    ValZero(FromInt(d, |a|));
    if d == 0 {
      ValInjective(a, b);
    }
  }

  /** The guest flags, brought down to the low bits: V, C, Z, N. */
  lemma LoadFlags(p: seq<Op>, h: Host, k: Host) returns (p': seq<Op>, k': Host)
    requires Runs(p, h, k) && k.rcx.Pointer?
    ensures p' == p + [LoadPstate] + [ShiftImm(LSR, false, RAX, 28)] && Runs(p', h, k')
    ensures var f := GetNzcv(k.cpu.state); k'.rax == Extend(Nibble(f.v, f.c, f.z, f.n, 32), 64)
    ensures SameGuest(k, k')
  {
    hide Runs, Extend;
    var f := GetNzcv(k.cpu.state);
    var low := Low(k.cpu.state.pstate, 32);
    var k1 := k.(rax := Extend(low, 64));
    p' := Do(p, h, k, LoadPstate, k1);
    LowExtend(low, 64);
    p', k' := ShiftRax(p', h, k1, LSR, false, 28, low);
    assert Shift(LSR, low, 28) == Nibble(f.v, f.c, f.z, f.n, 32);
  }

  /** AND with a small constant, and the zero flag it leaves. */
  lemma MaskFlags(p: seq<Op>, h: Host, k: Host, b0: bool, b1: bool, b2: bool, b3: bool, mask: nat)
    returns (p': seq<Op>, k': Host)
    requires Runs(p, h, k) && mask < 16 && k.rax == Extend(Nibble(b0, b1, b2, b3, 32), 64)
    ensures p' == p + [AluImm(AndOp, false, FromNat(mask, 64))] && Runs(p', h, k') && SameGuest(k, k')
    ensures var c0 := b0 && mask % 2 == 1; var c1 := b1 && mask / 2 % 2 == 1;
      var c2 := b2 && mask / 4 % 2 == 1; var c3 := b3 && mask / 8 % 2 == 1;
      && k'.rax == Extend(Nibble(c0, c1, c2, c3, 32), 64)
      && k'.flags.Known? && (k'.flags.zf <==> !c0 && !c1 && !c2 && !c3)
  {
    hide Runs, Step, Extend, FromNat, And, Nibble, IsZero;
    var a := Nibble(b0, b1, b2, b3, 32);
    LowExtend(a, 64);
    p', k' := ComputeImm(p, h, k, AndOp, false, FromNat(mask, 64), a);
    SmallWord(mask, 64);
    LowNibble(mask % 2 == 1, mask / 2 % 2 == 1, mask / 4 % 2 == 1, mask / 8 % 2 == 1);
    NibbleLogic(b0, b1, b2, b3, mask % 2 == 1, mask / 2 % 2 == 1, mask / 4 % 2 == 1, mask / 8 % 2 == 1, 32);
    NibbleZero(b0 && mask % 2 == 1, b1 && mask / 2 % 2 == 1, b2 && mask / 4 % 2 == 1, b3 && mask / 8 % 2 == 1, 32);
  }

  lemma LowNibble(b0: bool, b1: bool, b2: bool, b3: bool)
    ensures Low(Nibble(b0, b1, b2, b3, 64), 32) == Nibble(b0, b1, b2, b3, 32)
  {
    assert Low(Nibble(b0, b1, b2, b3, 64), 32) == Nibble(b0, b1, b2, b3, 32);
  }

  /** The test leaves a defined zero flag on which the guest condition reads off. */
  predicate Tests(k: Host, cond: nat, f: Nzcv)
    requires cond < 14
  {
    k.flags.Known? && (Holds(FalseCc(cond), k.flags) <==> !ConditionHolds(cond, f))
  }

  lemma TestSingle(p: seq<Op>, h: Host, k: Host, cond: nat, f: Nzcv) returns (p': seq<Op>, k': Host)
    requires Runs(p, h, k) && cond < 8 && k.rax == Extend(Nibble(f.v, f.c, f.z, f.n, 32), 64)
    ensures p' == p + [AluImm(AndOp, false, ConditionMask(cond / 2))] && Runs(p', h, k') && SameGuest(k, k')
    ensures Tests(k', cond, f)
  {
    hide Runs, Step, Extend, FromNat, Nibble;
    var group := cond / 2;
    p', k' := MaskFlags(p, h, k, f.v, f.c, f.z, f.n, match group case 0 => 4 case 1 => 2 case 2 => 8 case _ => 1);
  }

  lemma TestHigher(p: seq<Op>, h: Host, k: Host, cond: nat, f: Nzcv) returns (p': seq<Op>, k': Host)
    requires Runs(p, h, k) && cond / 2 == 4 && k.rax == Extend(Nibble(f.v, f.c, f.z, f.n, 32), 64)
    ensures p' == p + [AluImm(AndOp, false, FromNat(6, 64))] + [CompareImm(FromNat(2, 64))]
    ensures Runs(p', h, k') && SameGuest(k, k') && Tests(k', cond, f)
  {
    hide Runs, Extend, FromNat, Arithmetic, Nibble;
    var k1;
    p', k1 := MaskFlags(p, h, k, f.v, f.c, f.z, f.n, 6);
    var a := Nibble(false, f.c, f.z, false, 32);
    var b := Nibble(false, true, false, false, 32);
    SmallWord(2, 64);
    LowNibble(false, true, false, false);
    LowExtend(a, 64);
    k' := k1.(flags := Arithmetic(Sub, a, b).1);
    p' := Do(p', h, k1, CompareImm(FromNat(2, 64)), k');
    CompareEqual(a, b);
    NibbleEqual(false, f.c, f.z, false, false, true, false, false);
    SubFlagsKnown(a, b);
  }

  lemma SubFlagsKnown(a: Bits, b: Bits)
    requires |a| == |b| > 0
    ensures Arithmetic(Sub, a, b).1.Known?
  {
  }

  lemma NibbleEqual(a0: bool, a1: bool, a2: bool, a3: bool, b0: bool, b1: bool, b2: bool, b3: bool)
    ensures Nibble(a0, a1, a2, a3, 32) == Nibble(b0, b1, b2, b3, 32) <==> a0 == b0 && a1 == b1 && a2 == b2 && a3 == b3
  {
    var a, b := Nibble(a0, a1, a2, a3, 32), Nibble(b0, b1, b2, b3, 32);
    assert a[0] == a0 && a[1] == a1 && a[2] == a2 && a[3] == a3;
    assert b[0] == b0 && b[1] == b1 && b[2] == b2 && b[3] == b3;
  }

  lemma TestSigned(p: seq<Op>, h: Host, k: Host, cond: nat, f: Nzcv) returns (p': seq<Op>, k': Host)
    requires Runs(p, h, k) && 10 <= cond < 14 && k.rax == Extend(Nibble(f.v, f.c, f.z, f.n, 32), 64)
    ensures p' == p + [MovReg(R9, RAX)] + [ShiftImm(LSR, false, R9, 3)] + [Alu(XorOp, false, RAX, R9)]
                  + [AluImm(AndOp, false, FromNat(if cond / 2 == 5 then 1 else 5, 64))]
    ensures Runs(p', h, k') && SameGuest(k, k') && Tests(k', cond, f)
  {
    hide Runs, Step, Extend, FromNat, Nibble, Shift, Xor;
    var a := Nibble(f.v, f.c, f.z, f.n, 32);
    p', k' := CopyToR9(p, h, k);
    LowExtend(a, 64);
    p', k' := ShiftBy(p', h, k', LSR, false, R9, 3, a);
    ShiftNibble(f.v, f.c, f.z, f.n);
    var b := Nibble(f.n, false, false, false, 32);
    LowExtend(b, 64);
    p', k' := Compute(p', h, k', XorOp, false, R9, a, b);
    NibbleLogic(f.v, f.c, f.z, f.n, f.n, false, false, false, 32);
    p', k' := MaskFlags(p', h, k', f.v != f.n, f.c != false, f.z != false, f.n != false, if cond / 2 == 5 then 1 else 5);
  }

  lemma ShiftNibble(b0: bool, b1: bool, b2: bool, b3: bool)
    ensures Shift(LSR, Nibble(b0, b1, b2, b3, 32), 3) == Nibble(b3, false, false, false, 32)
  {
    assert Shift(LSR, Nibble(b0, b1, b2, b3, 32), 3) == Nibble(b3, false, false, false, 32);
  }

  /** Every condition below AL: the emitted test decides it. */
  lemma ConditionTestRuns(p: seq<Op>, h: Host, k: Host, cond: nat) returns (p': seq<Op>, k': Host)
    requires Runs(p, h, k) && k.rcx.Pointer? && cond < 14
    ensures p' == p + ConditionTest(cond) && Runs(p', h, k') && SameGuest(k, k')
    ensures Tests(k', cond, GetNzcv(k.cpu.state))
  {
    hide Runs, Step, Extend, FromNat, Tests, Nibble, GetNzcv;
    var f := GetNzcv(k.cpu.state);
    p', k' := LoadFlags(p, h, k);
    if cond < 8 {
      p', k' := TestSingle(p', h, k', cond, f);
    } else if cond / 2 == 4 {
      p', k' := TestHigher(p', h, k', cond, f);
    } else {
      p', k' := TestSigned(p', h, k', cond, f);
    }
    assert p' == p + ConditionTest(cond);
  }

  // ---------- Conditional code ----------

  /** Two arms that rejoin: the host condition selects the second. */
  lemma IfElseRuns(test: seq<Op>, cc: Cc, yes: seq<Op>, no: seq<Op>, h: Host, k: Host, k': Host)
    requires Runs(test, h, k) && Readable(cc, k.flags)
    requires if Holds(cc, k.flags) then Runs(no, k, k') else Runs(yes, k, k')
    ensures Runs(IfElse(test, cc, yes, no), h, k')
  {
    hide Run, Step, Holds;
    var arms := yes + ([Jmp(|no|)] + no);
    RunAppend(test, [Jcc(cc, |yes| + 1)] + arms, h);
    RunJcc(cc, |yes| + 1, arms, k);
    if Holds(cc, k.flags) {
      assert arms[|yes| + 1..] == no;
    } else {
      RunAppend(yes, [Jmp(|no|)] + no, k);
      RunJmp(|no|, no, k');
      assert no[|no|..] == [];
      RunNothing(k');
    }
  }

  /** Two arms that return. */
  lemma IfReturnRuns(test: seq<Op>, cc: Cc, yes: seq<Op>, no: seq<Op>, h: Host, k: Host)
    requires Runs(test, h, k) && Readable(cc, k.flags)
    requires Run(yes, k).Done? && Run(no, k).Done?
    ensures Run(IfReturn(test, cc, yes, no), h) == if Holds(cc, k.flags) then Run(no, k) else Run(yes, k)
  {
    hide Run, Step, Holds;
    RunAppend(test, [Jcc(cc, |yes|)] + (yes + no), h);
    RunJcc(cc, |yes|, yes + no, k);
    if Holds(cc, k.flags) {
      assert (yes + no)[|yes|..] == no;
    } else {
      RunAppend(yes, no, k);
    }
  }
}
