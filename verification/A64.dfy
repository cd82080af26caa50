/**
 * The A64 integer data-processing, branch, load and store instructions, as the Arm architecture defines
 * them (Arm DDI 0487, section C6.2 and its shared pseudocode), on a processor without SIMD, floating point
 * or later extensions. Only HLT #0 is this runtime's: the monitor exit.
 */
module A64 {
  import opened Basics
  import opened PowersOfTwo
  import opened Words
  import opened LittleEndian

  // ---------- Instruction words ----------

  /** Bits lo .. lo+len-1 of an instruction word, as a number. */
  function Field(w: bv32, lo: nat, len: nat): (f: nat)
    requires lo + len <= 32
    ensures f < Pow2(len)
  {
    ((w as nat) / Pow2(lo)) % Pow2(len)
  }

  function Reg(w: bv32, lo: nat): (r: nat)
    requires lo + 5 <= 32
    ensures r < 32
  {
    assert Pow2(5) == 32 by { FivePowers(); }
    Field(w, lo, 5)
  }

  function Flag(w: bv32, lo: nat): (b: bool)
    requires lo < 32
  {
    Field(w, lo, 1) == 1
  }

  lemma FivePowers()
    ensures Pow2(1) == 2 && Pow2(2) == 4 && Pow2(3) == 8 && Pow2(4) == 16 && Pow2(5) == 32 && Pow2(6) == 64
  {
    assert Pow2(0) == 1;
    assert Pow2(1) == 2;
    assert Pow2(2) == 4;
    assert Pow2(3) == 8;
    assert Pow2(4) == 16;
    assert Pow2(5) == 32;
  }

  /** A two's complement immediate. */
  function Signed(f: nat, len: nat): (v: int)
    requires len > 0
  {
    if f >= Pow2(len - 1) then f - Pow2(len) else f
  }

  predicate Matches(w: bv32, mask: bv32, value: bv32)
  {
    w & mask == value
  }

  predicate IsConditionalSelect(w: bv32) { Matches(w, 0x3fe00800, 0x1a800000) }
  predicate IsVariableShift(w: bv32) { Matches(w, 0x7fe0f000, 0x1ac02000) }
  predicate IsMultiplyAdd(w: bv32) { Matches(w, 0x7fe00000, 0x1b000000) }
  predicate IsConditionalCompare(w: bv32) { Matches(w, 0x3fe00410, 0x3a400000) }
  predicate IsBitfieldMove(w: bv32) { Matches(w, 0x7f800000, 0x33000000) }
  predicate IsUnsignedBitfieldMove(w: bv32) { Matches(w, 0x7f800000, 0x53000000) }
  predicate IsLogicalImmediate(w: bv32) { Matches(w, 0x1f800000, 0x12000000) }
  predicate IsMoveNot(w: bv32) { Matches(w, 0x7f800000, 0x12800000) }
  predicate IsMoveZero(w: bv32) { Matches(w, 0x7f800000, 0x52800000) }
  predicate IsMoveKeep(w: bv32) { Matches(w, 0x7f800000, 0x72800000) }
  predicate IsMoveWide(w: bv32) { IsMoveZero(w) || IsMoveKeep(w) || IsMoveNot(w) }
  predicate IsPcRelative(w: bv32) { Matches(w, 0x1f000000, 0x10000000) }
  predicate IsLogicalShifted(w: bv32) { Matches(w, 0x1f000000, 0x0a000000) }
  predicate IsAddImmediate(w: bv32) { Matches(w, 0x1f800000, 0x11000000) }
  predicate IsAddExtended(w: bv32) { Matches(w, 0x1fe00000, 0x0b200000) }
  predicate IsAddShifted(w: bv32) { Matches(w, 0x1f200000, 0x0b000000) }
  predicate IsConditionalBranch(w: bv32) { Matches(w, 0xff000010, 0x54000000) }
  predicate IsTestBranch(w: bv32) { Matches(w, 0x7e000000, 0x36000000) }
  predicate IsCompareBranch(w: bv32) { Matches(w, 0x7e000000, 0x34000000) }
  predicate IsImmediateBranch(w: bv32) { Matches(w, 0x7c000000, 0x14000000) }
  predicate IsBranchLinkRegister(w: bv32) { Matches(w, 0xfffffc1f, 0xd63f0000) }
  predicate IsRegisterBranch(w: bv32)
  {
    Matches(w, 0xfffffc1f, 0xd61f0000) || IsBranchLinkRegister(w) || Matches(w, 0xfffffc1f, 0xd65f0000)
  }
  const NOP: bv32 := 0xd503201f
  const HLT: bv32 := 0xd4400000

  /** Loads and stores: pairs, unsigned offset, register offset, unscaled and write-back forms. */
  predicate IsMemory(w: bv32)
  {
    IsPair(w) || IsUnsignedOffset(w) || IsRegisterOffset(w) || IsUnscaled(w) || IsWriteBack(w)
  }

  /** Hints, barriers and system-register moves. */
  predicate IsSystem(w: bv32) { Matches(w, 0xffc00000, 0xd5000000) }

  // ---------- State ----------

  type Registers = s: seq<Word> | |s| == 31 witness seq(31, i => Zeros(64))

  /**
   * What instructions act on. Memory instructions and faults record their own word in
   * instruction, from which an exception syndrome is built; far is the fault address.
   */
  datatype State = State(x: Registers, sp: Word, pstate: Word, far: Word, instruction: bv32, ram: Ram, special: Special)

  /** The software thread registers, the exception level and the controls that say what memory is like there. */
  datatype Special = Special(tpidrEl0: Word, tpidrroEl0: Word, tpidrEl1: Word, level: u32, hcr: Word, scr: Word, sctlr: bv64, tcr: bv64)

  datatype ThreadRegister = TpidrEl0 | TpidrroEl0 | TpidrEl1

  /** Guest memory, from a base address; its size fits a machine word. */
  type Ram = s: seq<u8> | |s| < 0x1_0000_0000_0000_0000 witness []

  /**
   * What stays fixed while a block runs: the exception level and the memory regime, with the MMU off. A regime is plain
   * at EL0 and EL1 when no control of a higher level is set; bigEndian is SCTLR.E0E or EE; addresses are tagged when
   * the translation control, TCR.TBI0 or TBI1, has their top byte ignored.
   */
  datatype Config = Config(el: nat, base: u64, native: bool, plain: bool, bigEndian: bool, tagged: bool, checkSp: bool)

  /** The endianness of data at a level. */
  predicate BigEndianData(el: nat, sctlr: bv64) { sctlr & (1 << if el == 0 then 24 else 25) != 0 }

  /** Whether a misaligned stack pointer faults at a level. */
  predicate ChecksStack(el: nat, sctlr: bv64) { sctlr & (if el == 0 then 16 else 8) != 0 }

  /** The regime that the controls of a state select. */
  function Regime(r: State, base: u64): (cfg: Config)
    ensures cfg.el == r.special.level && cfg.base == base && cfg.native
  {
    var c := r.special;
    Config(c.level, base, true, c.level <= 1 && IsZero(c.hcr) && IsZero(c.scr), BigEndianData(c.level, c.sctlr),
           c.tcr & 0x60_0000_0000 != 0, ChecksStack(c.level, c.sctlr))
  }

  datatype Nzcv = Nzcv(n: bool, z: bool, c: bool, v: bool)

  function GetNzcv(r: State): (f: Nzcv)
  {
    Nzcv(r.pstate[31], r.pstate[30], r.pstate[29], r.pstate[28])
  }

  function SetNzcv(r: State, f: Nzcv): (s: State)
    ensures s.special == r.special
  {
    r.(pstate := r.pstate[31 := f.n][30 := f.z][29 := f.c][28 := f.v])
  }

  function Width(wide: bool): (n: nat)
    ensures n == 32 || n == 64
  {
    if wide then 64 else 32
  }

  /** A general register as an operand; number 31 reads as zero. */
  function X(r: State, n: nat, wide: bool): (v: Bits)
    requires n < 32
    ensures |v| == Width(wide)
  {
    if n == 31 then Zeros(Width(wide)) else Low(r.x[n], Width(wide))
  }

  /** A general register as a base; number 31 is the stack pointer. */
  function XSP(r: State, n: nat, wide: bool): (v: Bits)
    requires n < 32
    ensures |v| == Width(wide)
  {
    if n == 31 then Low(r.sp, Width(wide)) else Low(r.x[n], Width(wide))
  }

  /** Writing a 32-bit result clears the upper half; number 31 discards the result. */
  function SetX(r: State, n: nat, v: Bits): (s: State)
    requires n < 32 && |v| <= 64
    ensures s.special == r.special
  {
    if n == 31 then r else r.(x := r.x[n := Extend(v, 64)])
  }

  function SetXSP(r: State, n: nat, v: Bits): (s: State)
    requires n < 32 && |v| <= 64
    ensures s.special == r.special
  {
    if n == 31 then r.(sp := Extend(v, 64)) else r.(x := r.x[n := Extend(v, 64)])
  }

  // ---------- Shared pseudocode ----------

  function AddWithCarry(x: Bits, y: Bits, carry: bool): (result: (Bits, Nzcv))
    requires |x| == |y| > 0
    ensures |result.0| == |x|
  {
    var c := if carry then 1 else 0;
    var unsignedSum := Val(x) + Val(y) + c;
    var signedSum := SVal(x) + SVal(y) + c;
    var sum := FromNat(unsignedSum, |x|);
    (sum, Nzcv(Msb(sum), IsZero(sum), Val(sum) != unsignedSum, SVal(sum) != signedSum))
  }

  predicate ConditionHolds(cond: nat, f: Nzcv)
    requires cond < 16
  {
    var base :=
      match cond / 2
      case 0 => f.z
      case 1 => f.c
      case 2 => f.n
      case 3 => f.v
      case 4 => f.c && !f.z
      case 5 => f.n == f.v
      case 6 => f.n == f.v && !f.z
      case _ => true;
    if cond % 2 == 1 && cond != 15 then !base else base
  }

  function HighestSetBit(v: nat): (n: int)
  {
    if v == 0 then -1 else 1 + HighestSetBit(v / 2)
  }

  function Replicate(e: Bits, n: nat): (s: Bits)
    requires |e| > 0
    ensures |s| == n
  {
    seq(n, i requires 0 <= i < n => e[i % |e|])
  }

  /**
   * The two masks of bitfield and logical immediates. None is an undefined encoding; an
   * all-ones element is undefined only for a logical immediate.
   */
  function DecodeBitMasks(immN: nat, imms: nat, immr: nat, immediate: bool, n: nat): (masks: Option<(Bits, Bits)>)
    requires immN < 2 && imms < 64 && immr < 64
    ensures masks.Some? ==> |masks.value.0| == n && |masks.value.1| == n
  {
    var len := HighestSetBit(64 * immN + (63 - imms));
    if len < 1 || n < Pow2(len) then None else
    var esize := Pow2(len);
    var s := imms % esize;
    var r := immr % esize;
    var d := (s - r) % esize;
    if immediate && s == esize - 1 then None else
    var welem := Ones(s + 1) + Zeros(esize - s - 1);
    var telem := Ones(d + 1) + Zeros(esize - d - 1);
    Some((Replicate(Shift(ROR, welem, r), n), Replicate(telem, n)))
  }

  /** ExtendReg: the low bits of a register, shifted left, then zero- or sign-extended. */
  function ExtendReg(x: Bits, option: nat, shift: nat): (z: Bits)
    requires option < 8 && shift <= 4 && |x| >= 32
    ensures |z| == |x|
  {
    var n := |x|;
    var size := match option % 4 case 0 => 8 case 1 => 16 case 2 => 32 case _ => 64;
    var len := if size <= n - shift then size else n - shift;
    seq(n, i requires 0 <= i < n =>
      if i < shift then false
      else if i - shift < len then x[i - shift]
      else option >= 4 && x[len - 1])
  }

  // ---------- Instructions ----------

  datatype Status =
    | Next
    | Halt
    | UndefinedInstruction
    | PrivilegeFault
    | SystemRegisterTrap
    | InstructionAbort
    | DataAbort
    | AlignmentFault
    | SpAlignmentFault
    | Handover

  /** What one instruction does: fall through, branch, stop as a monitor exit, or raise a fault. */
  datatype Effect =
    | Through(state: State)
    | Jump(state: State, target: Word)
    | Exit(state: State)
    | Fault(state: State, status: Status)

  function Undefined(r: State, w: bv32): (effect: Effect)
  {
    Fault(r.(instruction := w), UndefinedInstruction)
  }

  function ConditionalSelect(r: State, w: bv32): (effect: Effect)
  {
    var wide := Flag(w, 31);
    if ConditionHolds(Reg4(w, 12), GetNzcv(r)) then
      Through(SetX(r, Reg(w, 0), X(r, Reg(w, 5), wide)))
    else
      var b := X(r, Reg(w, 16), wide);
      var inverted := if Flag(w, 30) then Not(b) else b;
      var result := if Flag(w, 10) then FromNat(Val(inverted) + 1, |inverted|) else inverted;
      Through(SetX(r, Reg(w, 0), result))
  }

  function Reg4(w: bv32, lo: nat): (c: nat)
    requires lo + 4 <= 32
    ensures c < 16
  {
    assert Pow2(4) == 16 by { FivePowers(); }
    Field(w, lo, 4)
  }

  function Kind(w: bv32, lo: nat): (shiftKind: ShiftKind)
    requires lo + 2 <= 32
  {
    match Field(w, lo, 2)
    case 0 => LSL
    case 1 => LSR
    case 2 => ASR
    case _ => ROR
  }

  function VariableShift(r: State, w: bv32): (effect: Effect)
  {
    var wide := Flag(w, 31);
    var amount := Val(X(r, Reg(w, 16), wide)) % Width(wide);
    Through(SetX(r, Reg(w, 0), Shift(Kind(w, 10), X(r, Reg(w, 5), wide), amount)))
  }

  function MultiplyAdd(r: State, w: bv32): (effect: Effect)
  {
    var wide := Flag(w, 31);
    var product := Val(X(r, Reg(w, 5), wide)) * Val(X(r, Reg(w, 16), wide));
    var addend := Val(X(r, Reg(w, 10), wide));
    var result := if Flag(w, 15) then addend - product else addend + product;
    Through(SetX(r, Reg(w, 0), FromInt(result, Width(wide))))
  }

  function ConditionalCompare(r: State, w: bv32): (effect: Effect)
  {
    var wide := Flag(w, 31);
    if ConditionHolds(Reg4(w, 12), GetNzcv(r)) then
      var a := X(r, Reg(w, 5), wide);
      var b := if Flag(w, 11) then FromNat(Reg(w, 16), Width(wide)) else X(r, Reg(w, 16), wide);
      var sum := if Flag(w, 30) then AddWithCarry(a, Not(b), true) else AddWithCarry(a, b, false);
      Through(SetNzcv(r, sum.1))
    else
      var flags := FromNat(Reg4(w, 0), 4);
      Through(SetNzcv(r, Nzcv(flags[3], flags[2], flags[1], flags[0])))
  }

  function Six(w: bv32, lo: nat): (f: nat)
    requires lo + 6 <= 32
    ensures f < 64
  {
    assert Pow2(6) == 64 by { FivePowers(); }
    Field(w, lo, 6)
  }

  function BitOf(w: bv32, lo: nat): (f: nat)
    requires lo < 32
    ensures f < 2
  {
    assert Pow2(1) == 2 by { FivePowers(); }
    Field(w, lo, 1)
  }

  /** BFM and UBFM, from the two masks; only BFM keeps destination bits. */
  function BitfieldMove(r: State, w: bv32, keep: bool): (effect: Effect)
  {
    var wide := Flag(w, 31);
    var immr, imms := Six(w, 16), Six(w, 10);
    if (BitOf(w, 22) == 1) != wide || (!wide && (immr >= 32 || imms >= 32)) then Undefined(r, w) else
    var masks := DecodeBitMasks(BitOf(w, 22), imms, immr, false, Width(wide));
    if masks.None? then Undefined(r, w) else
    var (wmask, tmask) := masks.value;
    var dst := if keep then X(r, Reg(w, 0), wide) else Zeros(Width(wide));
    var src := X(r, Reg(w, 5), wide);
    var bot := Or(And(dst, Not(wmask)), And(Shift(ROR, src, immr), wmask));
    Through(SetX(r, Reg(w, 0), Or(And(dst, Not(tmask)), And(bot, tmask))))
  }

  function Logic(op: nat, a: Bits, b: Bits): (z: Bits)
    requires |a| == |b|
    ensures |z| == |a|
  {
    if op == 1 then Or(a, b) else if op == 2 then Xor(a, b) else And(a, b)
  }

  function LogicFlags(z: Bits): (nzcv: Nzcv)
    requires |z| > 0
  {
    Nzcv(Msb(z), IsZero(z), false, false)
  }

  function LogicalImmediate(r: State, w: bv32): (effect: Effect)
  {
    var wide := Flag(w, 31);
    var op := Field(w, 29, 2);
    if !wide && BitOf(w, 22) == 1 then Undefined(r, w) else
    var masks := DecodeBitMasks(BitOf(w, 22), Six(w, 10), Six(w, 16), true, Width(wide));
    if masks.None? then Undefined(r, w) else
    var result := Logic(op, X(r, Reg(w, 5), wide), masks.value.0);
    if op == 3 then Through(SetNzcv(SetX(r, Reg(w, 0), result), LogicFlags(result)))
    else Through(SetXSP(r, Reg(w, 0), result))
  }

  function MoveWide(r: State, w: bv32): (effect: Effect)
  {
    var wide := Flag(w, 31);
    var n := Width(wide);
    var pos := 16 * Quarter(w);
    if !wide && pos >= 32 then Undefined(r, w) else
    var imm := FromNat(Field(w, 5, 16), 16);
    var base := if IsMoveKeep(w) then X(r, Reg(w, 0), wide) else Zeros(n);
    var placed := seq(n, i requires 0 <= i < n => if pos <= i < pos + 16 then imm[i - pos] else base[i]);
    Through(SetX(r, Reg(w, 0), if IsMoveNot(w) then Not(placed) else placed))
  }

  function Quarter(w: bv32): (q: nat)
    ensures q < 4
  {
    assert Pow2(2) == 4 by { FivePowers(); }
    Field(w, 21, 2)
  }

  function PcRelative(r: State, pc: nat, w: bv32): (effect: Effect)
  {
    var imm := Signed(4 * Field(w, 5, 19) + Field(w, 29, 2), 21);
    var target := if Flag(w, 31) then pc - pc % 4096 + 4096 * imm else pc + imm;
    Through(SetX(r, Reg(w, 0), FromInt(target, 64)))
  }

  function LogicalShifted(r: State, w: bv32): (effect: Effect)
  {
    var wide := Flag(w, 31);
    var op := Field(w, 29, 2);
    var amount := Six(w, 10);
    if !wide && amount >= 32 then Undefined(r, w) else
    var shifted := Shift(Kind(w, 22), X(r, Reg(w, 16), wide), amount);
    var operand := if Flag(w, 21) then Not(shifted) else shifted;
    var result := Logic(op, X(r, Reg(w, 5), wide), operand);
    var written := SetX(r, Reg(w, 0), result);
    Through(if op == 3 then SetNzcv(written, LogicFlags(result)) else written)
  }

  /** ADD, ADDS, SUB and SUBS on a ready second operand; only the immediate and extended forms name SP. */
  function AddSubtract(r: State, w: bv32, a: Bits, b: Bits, stack: bool): (effect: Effect)
    requires |a| == |b| && 0 < |a| <= 64
  {
    var sum := if Flag(w, 30) then AddWithCarry(a, Not(b), true) else AddWithCarry(a, b, false);
    if Flag(w, 29) then Through(SetNzcv(SetX(r, Reg(w, 0), sum.0), sum.1))
    else if stack then Through(SetXSP(r, Reg(w, 0), sum.0))
    else Through(SetX(r, Reg(w, 0), sum.0))
  }

  function AddImmediate(r: State, w: bv32): (effect: Effect)
  {
    var wide := Flag(w, 31);
    var imm := Field(w, 10, 12) * (if Flag(w, 22) then 4096 else 1);
    AddSubtract(r, w, XSP(r, Reg(w, 5), wide), FromNat(imm, Width(wide)), true)
  }

  function Three(w: bv32, lo: nat): (f: nat)
    requires lo + 3 <= 32
    ensures f < 8
  {
    assert Pow2(3) == 8 by { FivePowers(); }
    Field(w, lo, 3)
  }

  function AddExtended(r: State, w: bv32): (effect: Effect)
  {
    var wide := Flag(w, 31);
    var amount := Three(w, 10);
    if amount > 4 then Undefined(r, w) else
    var operand := ExtendReg(X(r, Reg(w, 16), wide), Three(w, 13), amount);
    AddSubtract(r, w, XSP(r, Reg(w, 5), wide), operand, true)
  }

  function AddShifted(r: State, w: bv32): (effect: Effect)
  {
    var wide := Flag(w, 31);
    var amount := Six(w, 10);
    if Field(w, 22, 2) == 3 || (!wide && amount >= 32) then Undefined(r, w) else
    var operand := Shift(Kind(w, 22), X(r, Reg(w, 16), wide), amount);
    AddSubtract(r, w, X(r, Reg(w, 5), wide), operand, false)
  }

  function ConditionalBranch(r: State, pc: nat, w: bv32): (effect: Effect)
  {
    if ConditionHolds(Reg4(w, 0), GetNzcv(r)) then Jump(r, FromInt(pc + 4 * Signed(Field(w, 5, 19), 19), 64))
    else Jump(r, FromInt(pc + 4, 64))
  }

  function TestBranch(r: State, pc: nat, w: bv32): (effect: Effect)
  {
    var position := 32 * BitOf(w, 31) + Reg(w, 19);
    if X(r, Reg(w, 0), true)[position] == Flag(w, 24) then
      Jump(r, FromInt(pc + 4 * Signed(Field(w, 5, 14), 14), 64))
    else
      Jump(r, FromInt(pc + 4, 64))
  }

  function CompareBranch(r: State, pc: nat, w: bv32): (effect: Effect)
  {
    if IsZero(X(r, Reg(w, 0), Flag(w, 31))) != Flag(w, 24) then
      Jump(r, FromInt(pc + 4 * Signed(Field(w, 5, 19), 19), 64))
    else
      Jump(r, FromInt(pc + 4, 64))
  }

  function ImmediateBranch(r: State, pc: nat, w: bv32): (effect: Effect)
  {
    Jump(if Flag(w, 31) then SetX(r, 30, FromInt(pc + 4, 64)) else r,
         FromInt(pc + 4 * Signed(Field(w, 0, 26), 26), 64))
  }

  /** BR, BLR and RET: the target is read before the link register is written. */
  function RegisterBranch(r: State, pc: nat, w: bv32): (effect: Effect)
  {
    Jump(if IsBranchLinkRegister(w) then SetX(r, 30, FromInt(pc + 4, 64)) else r, X(r, Reg(w, 5), true))
  }

  // ---------- Register pairs in memory ----------

  /** n bytes of memory, little-endian, as a word of 8n bits. */
  function ReadMem(ram: Ram, offset: nat, n: nat): (v: Bits)
    requires offset + n <= |ram|
    ensures |v| == 8 * n
  {
    seq(8 * n, i requires 0 <= i < 8 * n => FromNat(ram[offset + i / 8], 8)[i % 8])
  }

  /** The bytes of a word, least significant first. */
  function ByteOf(v: Bits, j: nat): (n: u8)
    requires 8 * j + 8 <= |v|
  {
    ValBound(v[8 * j..8 * j + 8]);
    assert Pow2(8) == 256 by { FivePowers(); Pow2Next(6); Pow2Next(7); }
    Val(v[8 * j..8 * j + 8])
  }

  function WriteMem(ram: Ram, offset: nat, v: Bits): (r: Ram)
    requires offset + |v| / 8 <= |ram|
    ensures |r| == |ram|
  {
    ram[..offset] + seq(|v| / 8, j requires 0 <= j < |v| / 8 => ByteOf(v, j)) + ram[offset + |v| / 8..]
  }

  predicate IsPair(w: bv32) { Matches(w, 0x3a000000, 0x28000000) }

  function PairBytes(w: bv32): (n: nat)
    ensures n == 4 || n == 8
  {
    if Field(w, 30, 2) == 2 then 8 else 4
  }

  function PairMode(w: bv32): (m: nat)
    ensures m < 4
  {
    assert Pow2(2) == 4 by { FivePowers(); }
    Field(w, 23, 2)
  }

  /** Base overlap with write-back, and equal destinations, are constrained unpredictable: taken as undefined. */
  predicate PairOverlaps(w: bv32)
  {
    || ((PairMode(w) == 1 || PairMode(w) == 3) && Reg(w, 5) != 31 && (Reg(w, 5) == Reg(w, 0) || Reg(w, 5) == Reg(w, 10)))
    || (Flag(w, 22) && Reg(w, 0) == Reg(w, 10))
  }

  /** LDPSW: the pair load that sign-extends. */
  predicate IsSignedPair(w: bv32)
  {
    Field(w, 30, 2) == 1 && Flag(w, 22) && PairMode(w) != 0
  }

  /** The integer pairs the architecture defines; mode 0 is the non-temporal form. */
  predicate PairAllocated(w: bv32)
  {
    !Flag(w, 26) && (Field(w, 30, 2) == 0 || Field(w, 30, 2) == 2 || IsSignedPair(w)) && !PairOverlaps(w)
  }

  function PairDisplacement(w: bv32): (v: int)
  {
    Signed(Field(w, 15, 7), 7) * PairBytes(w)
  }

  predicate Inside(r: State, cfg: Config, address: nat, n: nat)
  {
    cfg.base <= address && address - cfg.base + n <= |r.ram|
  }

  /** A loaded element: zero-extended by the register write, or sign-extended for LDPSW. */
  function LoadedElement(v: Bits, extend: bool): (z: Bits)
    requires 0 < |v| <= 64
    ensures |v| <= |z| <= 64
  {
    if extend then v + seq(64 - |v|, i => Msb(v)) else v
  }

  /** Both transfers, in order, at an offset into memory. */
  function TransferPair(r: State, w: bv32, offset: nat): (s: State)
    requires offset + 2 * PairBytes(w) <= |r.ram|
    ensures |s.ram| == |r.ram| && s.special == r.special
  {
    var n := PairBytes(w);
    if Flag(w, 22) then
      var first := SetX(r, Reg(w, 0), LoadedElement(ReadMem(r.ram, offset, n), IsSignedPair(w)));
      SetX(first, Reg(w, 10), LoadedElement(ReadMem(first.ram, offset + n, n), IsSignedPair(w)))
    else
      var first := r.(ram := WriteMem(r.ram, offset, X(r, Reg(w, 0), n == 8)));
      first.(ram := WriteMem(first.ram, offset + n, X(first, Reg(w, 10), n == 8)))
  }

  /** Write-back forms update the base after both transfers. */
  function WriteBackPair(r: State, w: bv32, updated: Word): (s: State)
    ensures s.special == r.special
  {
    if PairMode(w) == 1 || PairMode(w) == 3 then SetXSP(r, Reg(w, 5), updated) else r
  }

  /** The base, the updated base, and the address of the first element. */
  function PairBase(r: State, w: bv32): (v: Word)
  {
    XSP(r, Reg(w, 5), true)
  }

  function PairUpdated(r: State, w: bv32): (v: Word)
  {
    FromInt(Val(PairBase(r, w)) + PairDisplacement(w), 64)
  }

  function PairAddress(r: State, w: bv32): (v: Word)
  {
    if PairMode(w) == 1 then PairBase(r, w) else PairUpdated(r, w)
  }

  /** The bytes of one element in the opposite order. */
  function ReverseBytes(ram: Ram, offset: nat, n: nat): (r: Ram)
    requires offset + n <= |ram|
    ensures |r| == |ram|
  {
    ram[..offset] + seq(n, j requires 0 <= j < n => ram[offset + n - 1 - j]) + ram[offset + n..]
  }

  function ReversePair(ram: Ram, offset: nat, n: nat): (r: Ram)
    requires offset + 2 * n <= |ram|
    ensures |r| == |ram|
  {
    ReverseBytes(ReverseBytes(ram, offset, n), offset + n, n)
  }

  /** A big-endian transfer sees, and leaves, the bytes of each element in the opposite order. */
  function MovePair(r: State, cfg: Config, w: bv32, offset: nat): (s: State)
    requires offset + 2 * PairBytes(w) <= |r.ram|
    ensures s.special == r.special
  {
    if !cfg.bigEndian then TransferPair(r, w, offset) else
    var moved := TransferPair(r.(ram := ReversePair(r.ram, offset, PairBytes(w))), w, offset);
    moved.(ram := ReversePair(moved.ram, offset, PairBytes(w)))
  }

  /**
   * A pair transfer with the MMU off: memory is Device, so each element must be aligned, and each
   * must lie wholly inside guest memory; the fault address is the first failing element's.
   */
  function LoadStorePair(r: State, cfg: Config, w: bv32): (effect: Effect)
  {
    var noted := r.(instruction := w);
    if Reg(w, 5) == 31 && cfg.checkSp && Val(PairBase(r, w)) % 16 != 0 then
      Fault(noted.(far := PairBase(r, w)), SpAlignmentFault) else
    var n := PairBytes(w);
    var address := PairAddress(r, w);
    if Val(address) % n != 0 then Fault(noted.(far := address), AlignmentFault)
    else if !Inside(r, cfg, Val(address), n) then Fault(noted.(far := address), DataAbort)
    else if Val(address) + n >= Pow2(64) || !Inside(r, cfg, Val(address) + n, n) then
      Fault(noted.(far := FromInt(Val(address) + n, 64)), DataAbort)
    else Through(WriteBackPair(MovePair(noted, cfg, w, Val(address) - cfg.base), w, PairUpdated(r, w)))
  }

  function LoadStore(r: State, cfg: Config, w: bv32): (effect: Effect)
  {
    if PairAllocated(w) then LoadStorePair(r, cfg, w) else Undefined(r, w)
  }

  // ---------- One register in memory ----------

  predicate IsUnsignedOffset(w: bv32) { Matches(w, 0x3b000000, 0x39000000) }
  predicate IsRegisterOffset(w: bv32) { Matches(w, 0x3b200c00, 0x38200800) }
  predicate IsUnscaled(w: bv32) { Matches(w, 0x3b200c00, 0x38000000) }
  predicate IsWriteBack(w: bv32) { Matches(w, 0x3b200400, 0x38000400) }

  /** The size field, the logarithm of the access width. */
  function SizeField(w: bv32): (s: nat)
    ensures s < 4
  {
    assert Pow2(2) == 4 by { FivePowers(); }
    Field(w, 30, 2)
  }

  function AccessBytes(w: bv32): (n: nat)
    ensures n == 1 || n == 2 || n == 4 || n == 8
  {
    if SizeField(w) == 0 then 1 else if SizeField(w) == 1 then 2 else if SizeField(w) == 2 then 4 else 8
  }

  /** 0 stores, 1 loads, 2 loads with a sign to 64 bits, 3 to 32. */
  function Opc(w: bv32): (c: nat)
    ensures c < 4
  {
    assert Pow2(2) == 4 by { FivePowers(); }
    Field(w, 22, 2)
  }

  function ExtendOption(w: bv32): (o: nat)
    ensures o < 8
  {
    assert Pow2(3) == 8 by { FivePowers(); }
    Field(w, 13, 3)
  }

  /** PRFM and PRFUM: a hint without an effect on the registers. */
  predicate IsPrefetch(w: bv32)
  {
    SizeField(w) == 3 && Opc(w) == 2 && !IsWriteBack(w)
  }

  /** The encodings that are defined; base overlap with write-back is constrained unpredictable, taken as undefined. */
  predicate ScalarAllocated(w: bv32)
  {
    && !Flag(w, 26)
    && (Opc(w) < 2 || SizeField(w) < 2 || (SizeField(w) == 2 && Opc(w) == 2) || IsPrefetch(w))
    && (IsRegisterOffset(w) ==> ExtendOption(w) / 2 % 2 == 1)
    && !(IsWriteBack(w) && Reg(w, 5) != 31 && Reg(w, 5) == Reg(w, 0))
  }

  /** The offset that is added to the base. */
  function ScalarOffset(r: State, w: bv32): (v: Word)
  {
    if IsRegisterOffset(w) then ExtendReg(X(r, Reg(w, 16), true), ExtendOption(w), if Flag(w, 12) then SizeField(w) else 0)
    else if IsUnsignedOffset(w) then FromInt(Field(w, 10, 12) * AccessBytes(w), 64)
    else FromInt(Signed(Field(w, 12, 9), 9), 64)
  }

  function ScalarUpdated(r: State, w: bv32): (v: Word)
  {
    FromInt(Val(XSP(r, Reg(w, 5), true)) + Val(ScalarOffset(r, w)), 64)
  }

  predicate IsPostIndexed(w: bv32)
  {
    IsWriteBack(w) && !Flag(w, 11)
  }

  function ScalarAddress(r: State, w: bv32): (v: Word)
  {
    if IsPostIndexed(w) then XSP(r, Reg(w, 5), true) else ScalarUpdated(r, w)
  }

  /** A loaded value as the register receives it: the register write clears what is above it. */
  function LoadedScalar(v: Bits, opc: nat): (z: Bits)
    requires 0 < |v| <= 32 || (|v| == 64 && opc < 2)
    ensures |v| <= |z| <= 64
  {
    if opc < 2 then v
    else v + seq((if opc == 2 then 64 else 32) - |v|, i => Msb(v))
  }

  function TransferScalar(r: State, w: bv32, offset: nat): (s: State)
    requires offset + AccessBytes(w) <= |r.ram| && (Opc(w) < 2 || AccessBytes(w) < 8)
    ensures |s.ram| == |r.ram| && s.special == r.special
  {
    var n := AccessBytes(w);
    if Opc(w) == 0 then r.(ram := WriteMem(r.ram, offset, Low(X(r, Reg(w, 0), true), 8 * n)))
    else SetX(r, Reg(w, 0), LoadedScalar(ReadMem(r.ram, offset, n), Opc(w)))
  }

  /** Write-back follows the transfer. */
  function WriteBackScalar(r: State, w: bv32, updated: Word): (s: State)
    ensures s.special == r.special
  {
    if IsWriteBack(w) then SetXSP(r, Reg(w, 5), updated) else r
  }

  function MoveScalar(r: State, cfg: Config, w: bv32, offset: nat): (s: State)
    requires offset + AccessBytes(w) <= |r.ram| && (Opc(w) < 2 || AccessBytes(w) < 8)
    ensures s.special == r.special
  {
    if !cfg.bigEndian then TransferScalar(r, w, offset) else
    var moved := TransferScalar(r.(ram := ReverseBytes(r.ram, offset, AccessBytes(w))), w, offset);
    moved.(ram := ReverseBytes(moved.ram, offset, AccessBytes(w)))
  }

  /** With the MMU off memory is Device: the access must be aligned, and it must lie wholly inside guest memory. */
  function LoadStoreScalar(r: State, cfg: Config, w: bv32): (effect: Effect)
    requires ScalarAllocated(w)
  {
    var noted := r.(instruction := w);
    var address := ScalarAddress(r, w);
    if IsPrefetch(w) then Through(noted)
    else if Reg(w, 5) == 31 && cfg.checkSp && Val(XSP(r, 31, true)) % 16 != 0 then
      Fault(noted.(far := XSP(r, 31, true)), SpAlignmentFault)
    else if Val(address) % AccessBytes(w) != 0 then Fault(noted.(far := address), AlignmentFault)
    else if !Inside(r, cfg, Val(address), AccessBytes(w)) then Fault(noted.(far := address), DataAbort)
    else Through(WriteBackScalar(MoveScalar(noted, cfg, w, Val(address) - cfg.base), w, ScalarUpdated(r, w)))
  }

  /** The words that access memory: the defined loads and stores but the prefetches. */
  predicate Accesses(w: bv32)
  {
    if IsPair(w) then PairAllocated(w) else ScalarAllocated(w) && !IsPrefetch(w)
  }

  /** Every integer load and store. */
  function LoadStoreWord(r: State, cfg: Config, w: bv32): (effect: Effect)
  {
    if IsPair(w) then LoadStore(r, cfg, w)
    else if ScalarAllocated(w) then LoadStoreScalar(r, cfg, w)
    else Undefined(r, w)
  }

  // ---------- One instruction ----------

  /** MRS and MSR of a thread register; the direction is bit 21. */
  function ThreadMoved(w: bv32): (r: Option<ThreadRegister>)
  {
    if Matches(w, 0xffdfffe0, 0xd51bd040) then Some(TpidrEl0)
    else if Matches(w, 0xffdfffe0, 0xd51bd060) then Some(TpidrroEl0)
    else if Matches(w, 0xffdfffe0, 0xd518d080) then Some(TpidrEl1)
    else None
  }

  function GetThread(r: State, t: ThreadRegister): (v: Word)
  {
    match t case TpidrEl0 => r.special.tpidrEl0 case TpidrroEl0 => r.special.tpidrroEl0 case TpidrEl1 => r.special.tpidrEl1
  }

  function SetThread(r: State, t: ThreadRegister, v: Word): (s: State)
  {
    match t
    case TpidrEl0 => r.(special := r.special.(tpidrEl0 := v))
    case TpidrroEl0 => r.(special := r.special.(tpidrroEl0 := v))
    case TpidrEl1 => r.(special := r.special.(tpidrEl1 := v))
  }

  /** At EL0 TPIDR_EL1 is undefined, and TPIDRRO_EL0 is read-only. */
  predicate ThreadDenied(el: nat, t: ThreadRegister, read: bool)
  {
    el == 0 && (t.TpidrEl1? || (t.TpidrroEl0? && !read))
  }

  function MoveThread(r: State, el: nat, w: bv32, t: ThreadRegister): (effect: Effect)
  {
    var read := Flag(w, 21);
    if ThreadDenied(el, t, read) then Undefined(r, w)
    else if read then Through(SetX(r, Reg(w, 0), GetThread(r, t)))
    else Through(SetThread(r, t, X(r, Reg(w, 0), true)))
  }

  function ExecuteImmediate(r: State, pc: nat, w: bv32): (found: Option<Effect>)
  {
    if IsPcRelative(w) then Some(PcRelative(r, pc, w))
    else if IsAddImmediate(w) then Some(AddImmediate(r, w))
    else if IsLogicalImmediate(w) then Some(LogicalImmediate(r, w))
    else if IsMoveWide(w) then Some(MoveWide(r, w))
    else if IsBitfieldMove(w) then Some(BitfieldMove(r, w, true))
    else if IsUnsignedBitfieldMove(w) then Some(BitfieldMove(r, w, false))
    else None
  }

  function ExecuteRegister(r: State, w: bv32): (found: Option<Effect>)
  {
    if IsLogicalShifted(w) then Some(LogicalShifted(r, w))
    else if IsAddShifted(w) then Some(AddShifted(r, w))
    else if IsAddExtended(w) then Some(AddExtended(r, w))
    else if IsConditionalCompare(w) then Some(ConditionalCompare(r, w))
    else if IsConditionalSelect(w) then Some(ConditionalSelect(r, w))
    else if IsVariableShift(w) then Some(VariableShift(r, w))
    else if IsMultiplyAdd(w) then Some(MultiplyAdd(r, w))
    else None
  }

  function ExecuteBranch(r: State, pc: nat, w: bv32): (found: Option<Effect>)
  {
    if IsConditionalBranch(w) then Some(ConditionalBranch(r, pc, w))
    else if IsRegisterBranch(w) then Some(RegisterBranch(r, pc, w))
    else if IsImmediateBranch(w) then Some(ImmediateBranch(r, pc, w))
    else if IsCompareBranch(w) then Some(CompareBranch(r, pc, w))
    else if IsTestBranch(w) then Some(TestBranch(r, pc, w))
    else None
  }

  /**
   * The instruction at pc, as the architecture defines it; None for what is outside this model: the system words but
   * the thread registers, loads and stores that are not executed natively or not in a plain regime, loads, stores and
   * branches where addresses are tagged, and every word of no class. The classes are listed in the order of the
   * manual's encoding index; they do not overlap, so the order does not matter.
   */
  function Execute(r: State, pc: nat, cfg: Config, w: bv32): (found: Option<Effect>)
  {
    if IsMemory(w) then (if cfg.native && cfg.plain && !cfg.tagged then Some(LoadStoreWord(r, cfg, w)) else None) else
    var immediate := ExecuteImmediate(r, pc, w);
    if immediate.Some? then immediate else
    var branch := ExecuteBranch(r, pc, w);
    if branch.Some? then (if cfg.tagged then None else branch) else
    var register := ExecuteRegister(r, w);
    if register.Some? then register
    else if ThreadMoved(w).Some? then Some(MoveThread(r, cfg.el, w, ThreadMoved(w).value))
    else if w == NOP then Some(Through(r))
    else if w == HLT then Some(Exit(r))
    else None
  }
}
