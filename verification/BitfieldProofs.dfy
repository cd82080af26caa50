/** Bitfield moves: shift-and-mask code against the rotate-and-mask definition. */
module BitfieldProofs {
  import opened Basics
  import opened PowersOfTwo
  import opened Words
  import opened A64
  import opened HostOps
  import opened Emission
  import opened HostRuns

  lemma {:induction false} HighestBit(v: nat, k: nat)
    requires Pow2(k) <= v < Pow2(k + 1)
    ensures HighestSetBit(v) == k
  {
    if k > 0 {
      HighestBit(v / 2, k - 1);
    } else {
      assert v == 1 && HighestSetBit(0) == -1;
    }
  }

  /** For a bitfield move the element is the whole register. */
  lemma ElementSize(w: bv32)
    requires BitfieldDefined(w)
    ensures var n := Width(Flag(w, 31));
      var len := HighestSetBit(64 * BitOf(w, 22) + (63 - Six(w, 10)));
      len >= 1 && Pow2(len) == n
  {
    hide Field;
    FivePowers();
    Pow2Next(6);
    HighestBit(64 * BitOf(w, 22) + (63 - Six(w, 10)), if Flag(w, 31) then 6 else 5);
  }

  /** Position i+r of a register of n bits, rotated. */
  function Around(i: nat, r: nat, n: nat): (count: nat)
    requires r < n && i < n
  {
    if i + r < n then i + r else i + r - n
  }

  /** An element of s+1 ones. */
  function Element(s: nat, n: nat): (e: Bits)
    requires s < n
    ensures |e| == n
  {
    Ones(s + 1) + Zeros(n - s - 1)
  }

  lemma ElementBit(s: nat, n: nat, j: nat)
    requires s < n && j < n
    ensures Element(s, n)[j] <==> j <= s
  {
  }

  function Difference(w: bv32): (d: nat)
    requires BitfieldDefined(w)
    ensures d < Width(Flag(w, 31))
  {
    var r, s := Six(w, 16), Six(w, 10);
    if s >= r then s - r else s + Width(Flag(w, 31)) - r
  }

  /** Both masks come from single full-width elements. */
  lemma WholeMasks(w: bv32)
    requires BitfieldDefined(w)
    ensures var n := Width(Flag(w, 31));
      DecodeBitMasks(BitOf(w, 22), Six(w, 10), Six(w, 16), false, n)
      == Some((Replicate(Shift(ROR, Element(Six(w, 10), n), Six(w, 16)), n), Replicate(Element(Difference(w), n), n)))
  {
    hide Field, HighestSetBit, Pow2, Replicate, Shift, Ones, Zeros;
    var n := Width(Flag(w, 31));
    var r: int, s: int := Six(w, 16), Six(w, 10);
    ElementSize(w);
    ModUnique(s, n, 0, s);
    ModUnique(r, n, 0, r);
    ModUnique(s - r, n, if s >= r then 0 else -1, Difference(w));
  }

  /** The two masks, bit by bit. */
  lemma MaskBits(w: bv32, i: nat)
    requires BitfieldDefined(w) && i < Width(Flag(w, 31))
    ensures var n := Width(Flag(w, 31));
      var masks := DecodeBitMasks(BitOf(w, 22), Six(w, 10), Six(w, 16), false, n);
      && masks.Some?
      && (masks.value.0[i] <==> Around(i, Six(w, 16), n) <= Six(w, 10))
      && (masks.value.1[i] <==> i <= Difference(w))
  {
    hide Field, DecodeBitMasks, Element;
    var n := Width(Flag(w, 31));
    WholeMasks(w);
    ModUnique(i, n, 0, i);
    ElementBit(Six(w, 10), n, Around(i, Six(w, 16), n));
    ElementBit(Difference(w), n, i);
  }

  /** The inserted bits of a bitfield move, in place. */
  function Inserted(w: bv32, src: Bits): (z: Bits)
    requires BitfieldDefined(w) && |src| == Width(Flag(w, 31))
    ensures |z| == |src|
  {
    var n := |src|;
    var shifted := if Six(w, 10) >= Six(w, 16) then Shift(LSR, src, Six(w, 16)) else src;
    Shift(LSL, And(shifted, Low(LowOnes(BitfieldLength(w)), n)), Position(w))
  }

  /** Which destination bits a bitfield move replaces. */
  predicate Selects(w: bv32, i: nat)
    requires BitfieldDefined(w)
  {
    Position(w) <= i < Position(w) + BitfieldLength(w)
  }

  lemma InsertedBit(w: bv32, src: Bits, i: nat)
    requires BitfieldDefined(w) && i < |src| == Width(Flag(w, 31))
    ensures Inserted(w, src)[i] <==> Selects(w, i) && src[Around(i, Six(w, 16), |src|)]
  {
    hide Field;
    var j := i - Position(w);
    if j >= 0 {
      assert Low(LowOnes(BitfieldLength(w)), |src|)[j] <==> j < BitfieldLength(w);
    }
  }

  /** The definition, bit by bit: selected bits come from the rotated source, the rest stay. */
  lemma BitfieldBit(r: State, w: bv32, keep: bool, i: nat)
    requires BitfieldDefined(w) && i < Width(Flag(w, 31))
    ensures var n := Width(Flag(w, 31));
      var masks := DecodeBitMasks(BitOf(w, 22), Six(w, 10), Six(w, 16), false, n);
      && masks.Some?
      && BitfieldValue(r, w, keep, masks.value)[i]
         == if Selects(w, i) then X(r, Reg(w, 5), Flag(w, 31))[Around(i, Six(w, 16), n)]
            else keep && X(r, Reg(w, 0), Flag(w, 31))[i]
  {
    hide Field, X, DecodeBitMasks;
    MaskBits(w, i);
  }

  /** The value a bitfield move writes, from its two masks. */
  function BitfieldValue(r: State, w: bv32, keep: bool, masks: (Bits, Bits)): (v: Bits)
    requires BitfieldDefined(w) && |masks.0| == |masks.1| == Width(Flag(w, 31))
    ensures |v| == Width(Flag(w, 31))
  {
    var wide := Flag(w, 31);
    var dst := if keep then X(r, Reg(w, 0), wide) else Zeros(Width(wide));
    var src := X(r, Reg(w, 5), wide);
    var bot := Or(And(dst, Not(masks.0)), And(Shift(ROR, src, Six(w, 16)), masks.0));
    Or(And(dst, Not(masks.1)), And(bot, masks.1))
  }

  lemma BitfieldEffect(r: State, w: bv32, keep: bool)
    requires BitfieldDefined(w)
    ensures var masks := DecodeBitMasks(BitOf(w, 22), Six(w, 10), Six(w, 16), false, Width(Flag(w, 31)));
      && masks.Some?
      && BitfieldMove(r, w, keep) == Through(SetX(r, Reg(w, 0), BitfieldValue(r, w, keep, masks.value)))
  {
    hide Field, X, DecodeBitMasks, SetX, And, Or, Not, Shift;
    MaskBits(w, 0);
  }

  /** UBFM writes exactly the inserted bits. */
  lemma UnsignedAgrees(r: State, w: bv32)
    requires BitfieldDefined(w)
    ensures BitfieldMove(r, w, false) == Through(SetX(r, Reg(w, 0), Inserted(w, X(r, Reg(w, 5), Flag(w, 31)))))
  {
    hide Field, X, DecodeBitMasks, SetX, Inserted, BitfieldValue, BitfieldMove, Selects;
    BitfieldEffect(r, w, false);
    var n := Width(Flag(w, 31));
    var src := X(r, Reg(w, 5), Flag(w, 31));
    var masks := DecodeBitMasks(BitOf(w, 22), Six(w, 10), Six(w, 16), false, n).value;
    forall i | 0 <= i < n ensures BitfieldValue(r, w, false, masks)[i] == Inserted(w, src)[i] {
      BitfieldBit(r, w, false, i);
      InsertedBit(w, src, i);
    }
    assert BitfieldValue(r, w, false, masks) == Inserted(w, src);
  }

  /** The destination bits a BFM keeps. */
  function Kept(w: bv32, dst: Bits): (z: Bits)
    requires BitfieldDefined(w) && |dst| == Width(Flag(w, 31))
    ensures |z| == |dst|
  {
    And(dst, Low(Not(Shift(LSL, LowOnes(BitfieldLength(w)), Position(w))), |dst|))
  }

  lemma KeptBit(w: bv32, dst: Bits, i: nat)
    requires BitfieldDefined(w) && i < |dst| == Width(Flag(w, 31))
    ensures Kept(w, dst)[i] <==> !Selects(w, i) && dst[i]
  {
    hide Field;
    var j := i - Position(w);
    if j >= 0 {
      assert LowOnes(BitfieldLength(w))[j] <==> j < BitfieldLength(w);
    }
  }

  /** BFM merges the inserted bits into the kept ones. */
  lemma MergeAgrees(r: State, w: bv32)
    requires BitfieldDefined(w)
    ensures var wide := Flag(w, 31);
      BitfieldMove(r, w, true)
      == Through(SetX(r, Reg(w, 0), Or(Kept(w, X(r, Reg(w, 0), wide)), Inserted(w, X(r, Reg(w, 5), wide)))))
  {
    hide Field, X, DecodeBitMasks, SetX, Inserted, BitfieldValue, BitfieldMove, Selects, Kept;
    BitfieldEffect(r, w, true);
    var wide := Flag(w, 31);
    var n := Width(wide);
    var src, dst := X(r, Reg(w, 5), wide), X(r, Reg(w, 0), wide);
    var masks := DecodeBitMasks(BitOf(w, 22), Six(w, 10), Six(w, 16), false, n).value;
    forall i | 0 <= i < n ensures BitfieldValue(r, w, true, masks)[i] == Or(Kept(w, dst), Inserted(w, src))[i] {
      BitfieldBit(r, w, true, i);
      InsertedBit(w, src, i);
      KeptBit(w, dst, i);
    }
    assert BitfieldValue(r, w, true, masks) == Or(Kept(w, dst), Inserted(w, src));
  }

  lemma ShiftRightRuns(p: seq<Op>, h: Host, k: Host, w: bv32, src: Bits) returns (p': seq<Op>, k': Host)
    requires BitfieldDefined(w) && Runs(p, h, k) && |src| == Width(Flag(w, 31)) && k.rax == Extend(src, 64)
    ensures p' == p + ShiftRight(w) && Runs(p', h, k') && SameButResult(k, k')
    ensures k'.rax == Extend(if Six(w, 10) >= Six(w, 16) then Shift(LSR, src, Six(w, 16)) else src, 64)
  {
    hide Runs, Extend, Field, Shift;
    if Six(w, 10) >= Six(w, 16) {
      p', k' := ShiftIfAny(p, h, k, LSR, Flag(w, 31), Six(w, 16), src);
    } else {
      p', k' := p, k;
      assert p + [] == p;
    }
  }

  /** The emitted shift, mask and shift leave the inserted bits in RAX. */
  lemma SelectedBitsRuns(w: bv32, h: Host) returns (p: seq<Op>, k: Host)
    requires BitfieldDefined(w) && h.rcx.Pointer?
    ensures p == SelectedBits(w) && Runs(p, h, k) && SameGuest(h, k)
    ensures k.rax == Extend(Inserted(w, X(h.cpu.state, Reg(w, 5), Flag(w, 31))), 64)
  {
    hide Runs, Step, Extend, Low, Field, X, Load, Shift, And, LowOnes, BitfieldLength, Position, ShiftRight, Get;
    var wide := Flag(w, 31);
    var src := X(h.cpu.state, Reg(w, 5), wide);
    var shifted := if Six(w, 10) >= Six(w, 16) then Shift(LSR, src, Six(w, 16)) else src;
    var mask := Low(LowOnes(BitfieldLength(w)), Width(wide));
    p, k := Start(h);
    p, k := LoadOperand(p, h, k, Reg(w, 5), false, wide);
    p, k := ShiftRightRuns(p, h, k, w, src);
    p, k := AndConstant(p, h, k, wide, shifted, LowOnes(BitfieldLength(w)));
    p, k := ShiftIfAny(p, h, k, LSL, wide, Position(w), And(shifted, mask));
  }

  /** AND with a constant brought in through R9. */
  lemma AndConstant(p: seq<Op>, h: Host, k: Host, wide: bool, a: Bits, c: Word) returns (p': seq<Op>, k': Host)
    requires Runs(p, h, k) && |a| == Width(wide) && k.rax == Extend(a, 64)
    ensures p' == p + [MovImm(R9, c)] + [Alu(AndOp, wide, RAX, R9)] && Runs(p', h, k')
    ensures k'.rax == Extend(And(a, Low(c, Width(wide))), 64)
    ensures SameGuest(k, k') && k'.r10 == k.r10
  {
    hide Runs, Step, Extend, Low, And;
    LowExtend(a, 64);
    p', k' := Imm(p, h, k, R9, c);
    p', k' := Compute(p', h, k', AndOp, wide, R9, a, Low(c, Width(wide)));
  }
}
