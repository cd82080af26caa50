/** The code emitted for LDP and STP: every check precedes the first transfer (runtime/jit.c). */
module PairEmission {
  import opened PowersOfTwo
  import opened Words
  import opened A64
  import opened HostOps
  import opened Emission

  /** The pairs the translator decodes: no LDPSW, no non-temporal form, no SIMD, no overlap. */
  predicate PairValid(w: bv32)
  {
    && !Flag(w, 26) && (Field(w, 30, 2) == 0 || Field(w, 30, 2) == 2) && PairMode(w) != 0
    && !(PairMode(w) != 2 && Reg(w, 5) != 31 && (Reg(w, 5) == Reg(w, 0) || Reg(w, 5) == Reg(w, 10)))
    && !(Flag(w, 22) && Reg(w, 0) == Reg(w, 10))
  }

  /** The checking code, a jump to a fault exit when cc holds, then the rest. */
  function Guard(check: seq<Op>, cc: Cc, rest: seq<Op>, exit: nat): (code: seq<Op>)
  {
    check + ([Jcc(cc, |rest| + exit)] + rest)
  }

  /** A fault exit: FAR, then the block epilogue. */
  function FaultExit(pc: Word, n: nat, status: Status): (code: seq<Op>)
  {
    [StoreFar] + Finish(pc, n, status)
  }

  predicate ChecksSp(w: bv32, cfg: Config)
  {
    Reg(w, 5) == 31 && cfg.checkSp
  }

  /** The stack-alignment exit, present only when it can be taken. */
  function SpExit(w: bv32, pc: Word, n: nat, cfg: Config): (code: seq<Op>)
  {
    if ChecksSp(w, cfg) then FaultExit(pc, n, SpAlignmentFault) else []
  }

  function Exits(w: bv32, pc: Word, n: nat, cfg: Config): (code: seq<Op>)
  {
    SpExit(w, pc, n, cfg) + (FaultExit(pc, n, AlignmentFault) + FaultExit(pc, n, DataAbort))
  }

  /** How far past the end of the transfer code each exit starts. */
  function AlignOffset(w: bv32, pc: Word, n: nat, cfg: Config): (count: nat)
  {
    |SpExit(w, pc, n, cfg)|
  }

  function DataOffset(w: bv32, pc: Word, n: nat, cfg: Config): (count: nat)
  {
    |SpExit(w, pc, n, cfg)| + |FaultExit(pc, n, AlignmentFault)|
  }

  function Element(w: bv32, second: bool): (code: seq<Op>)
  {
    var bytes := PairBytes(w);
    var reg := if second then Reg(w, 10) else Reg(w, 0);
    var disp := if second then bytes else 0;
    if Flag(w, 22) then [MemLoad(bytes, disp)] + Save(reg, false)
    else Load(reg, false, bytes == 8) + [MemStore(bytes, disp)]
  }

  function WriteBack(w: bv32): (code: seq<Op>)
  {
    if PairMode(w) == 2 then [] else
    [MovReg(RAX, R11)]
    + (if PairMode(w) == 1 then [AluImm(Add, true, FromInt(PairDisplacement(w), 64))] else [])
    + Save(Reg(w, 5), true)
  }

  function Transfers(w: bv32): (code: seq<Op>)
  {
    Element(w, false) + Element(w, true) + WriteBack(w)
  }

  function BaseCheck(cfg: Config): (code: seq<Op>)
  {
    [MovImm(RAX, FromNat(cfg.base, 64))] + [Alu(Sub, true, R9, RAX)]
  }

  function RangeCheck(bytes: nat): (code: seq<Op>)
  {
    [AluRegImm(Sub, R10, FromNat(bytes, 64))] + [CompareR9R10]
  }

  /** From the second element's checks to the jump over the exits. */
  function SecondChecks(w: bv32, exit: nat, exits: nat): (code: seq<Op>)
  {
    var bytes := PairBytes(w);
    Guard([AluRegImm(Add, R11, FromNat(bytes, 64))], CarrySet,
      Guard([CompareSize(2 * bytes)], CarrySet,
        Guard(RangeCheck(bytes), Above,
          [AluRegImm(Sub, R11, FromNat(bytes, 64))] + Transfers(w) + [Jmp(exits)],
          exit),
        exit),
      exit)
  }

  function FirstChecks(w: bv32, cfg: Config, exit: nat, exits: nat): (code: seq<Op>)
  {
    var bytes := PairBytes(w);
    Guard(BaseCheck(cfg), CarrySet,
      Guard([CompareSize(bytes)], CarrySet,
        Guard([SizeToR10] + RangeCheck(bytes), Above, SecondChecks(w, exit, exits), exit),
        exit),
      exit)
  }

  /** The address in RAX, R9 and R11, and its alignment test. */
  function AddressCode(w: bv32): (code: seq<Op>)
  {
    Load(Reg(w, 5), true, true)
    + (if PairMode(w) != 1 then [AluImm(Add, true, FromInt(PairDisplacement(w), 64))] else [])
    + [MovReg(R11, RAX)] + [MovReg(R9, RAX)] + [TestByte(PairBytes(w) - 1)]
  }

  function SpCheck(): (code: seq<Op>)
  {
    [LoadSp(true)] + [MovReg(R11, RAX)] + [TestByte(15)]
  }

  function Checks(w: bv32, pc: Word, n: nat, cfg: Config): (code: seq<Op>)
  {
    var exits := |Exits(w, pc, n, cfg)|;
    var aligned := Guard(AddressCode(w), NotZero,
      FirstChecks(w, cfg, DataOffset(w, pc, n, cfg), exits), AlignOffset(w, pc, n, cfg));
    if ChecksSp(w, cfg) then Guard(SpCheck(), NotZero, aligned, 0) else aligned
  }

  function PairCode(w: bv32, pc: Word, n: nat, cfg: Config): (code: seq<Op>)
  {
    [StoreInstruction(w)] + (Checks(w, pc, n, cfg) + Exits(w, pc, n, cfg))
  }
}
