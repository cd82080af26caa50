/** The code emitted for loads and stores of one register (runtime/jit.c). */
module ScalarEmission {
  import opened PowersOfTwo
  import opened Words
  import opened A64
  import opened HostOps
  import opened Emission
  import opened PairEmission

  /** The encodings that are decoded: no prefetch, no reserved size, no SIMD, no overlap of base and data. */
  predicate ScalarValid(w: bv32)
  {
    && !(IsRegisterOffset(w) && ExtendOption(w) / 2 % 2 == 0)
    && !(Flag(w, 26) || (Opc(w) >= 2 && (SizeField(w) == 3 || (Opc(w) == 3 && SizeField(w) == 2))))
    && !(IsWriteBack(w) && Reg(w, 5) != 31 && Reg(w, 5) == Reg(w, 0))
  }

  /** Allocated words that this program does not decode: LDPSW, the non-temporal pairs, and the prefetches. */
  predicate Undecoded(w: bv32)
  {
    if IsPair(w) then PairAllocated(w) && (IsSignedPair(w) || PairMode(w) == 0) else ScalarAllocated(w) && IsPrefetch(w)
  }

  /** Of the allocated pairs exactly these are not decoded. */
  lemma UndecodedPairs(w: bv32)
    ensures PairValid(w) <==> PairAllocated(w) && !(IsSignedPair(w) || PairMode(w) == 0)
  {
    hide Field;
  }

  /** The regimes in which the translator emits accesses. */
  predicate Supported(cfg: Config)
  {
    cfg.plain && !cfg.bigEndian
  }

  /** What this program makes of a load or store: undecoded words are undefined, and other regimes trap. */
  function TransferProfile(r: State, cfg: Config, w: bv32): (effect: Effect)
  {
    if Undecoded(w) then Undefined(r, w)
    else if Accesses(w) && !Supported(cfg) then Fault(r.(instruction := w), SystemRegisterTrap)
    else LoadStoreWord(r, cfg, w)
  }

  /** The displacement of the forms that have one. */
  function ScalarDisplacement(w: bv32): (v: int)
  {
    if IsUnscaled(w) || IsWriteBack(w) then Signed(Field(w, 12, 9), 9)
    else if !IsRegisterOffset(w) then Field(w, 10, 12) * AccessBytes(w) else 0
  }

  function IndexShift(w: bv32): (s: nat)
    ensures s < 4
  {
    if Flag(w, 12) then SizeField(w) else 0
  }

  function ScalarSpExit(w: bv32, pc: Word, n: nat, cfg: Config): (code: seq<Op>)
  {
    if ChecksSp(w, cfg) then FaultExit(pc, n, SpAlignmentFault) else []
  }

  /** A byte is always aligned: it has no alignment test and no alignment exit. */
  function ScalarAlignExit(w: bv32, pc: Word, n: nat): (code: seq<Op>)
  {
    if AccessBytes(w) > 1 then FaultExit(pc, n, AlignmentFault) else []
  }

  function ScalarExits(w: bv32, pc: Word, n: nat, cfg: Config): (code: seq<Op>)
  {
    ScalarSpExit(w, pc, n, cfg) + (ScalarAlignExit(w, pc, n) + FaultExit(pc, n, DataAbort))
  }

  function ScalarAlignOffset(w: bv32, pc: Word, n: nat, cfg: Config): (count: nat)
  {
    |ScalarSpExit(w, pc, n, cfg)|
  }

  function ScalarDataOffset(w: bv32, pc: Word, n: nat, cfg: Config): (count: nat)
  {
    |ScalarSpExit(w, pc, n, cfg)| + |ScalarAlignExit(w, pc, n)|
  }

  /** The base is set aside, the index widened and shifted, and the two added. */
  function IndexCode(w: bv32): (code: seq<Op>)
  {
    [MovReg(R11, RAX)] + Load(Reg(w, 16), false, ExtendOption(w) % 2 == 1)
    + (if ExtendOption(w) == 6 then [SignExtendRax] else [])
    + (if IndexShift(w) > 0 then [ShiftImm(LSL, true, RAX, IndexShift(w))] else [])
    + [Alu(Add, true, RAX, R11)]
  }

  function OffsetCode(w: bv32): (code: seq<Op>)
  {
    if IsRegisterOffset(w) then IndexCode(w)
    else if !IsPostIndexed(w) then [AluImm(Add, true, FromInt(ScalarDisplacement(w), 64))]
    else []
  }

  /** The address goes to R11, for the fault record and write-back, and to R9, for the access. */
  function ScalarAddressCode(w: bv32): (code: seq<Op>)
  {
    OffsetCode(w) + [MovReg(R11, RAX)] + [MovReg(R9, RAX)]
  }

  function ScalarElement(w: bv32): (code: seq<Op>)
  {
    var bytes, reg := AccessBytes(w), Reg(w, 0);
    if Opc(w) == 0 then Load(reg, false, bytes == 8) + [MemStore(bytes, 0)]
    else if Opc(w) == 1 then [MemLoad(bytes, 0)] + Save(reg, false)
    else [MemLoadSigned(bytes, Opc(w) == 2)] + Save(reg, false)
  }

  function ScalarWriteBack(w: bv32): (code: seq<Op>)
  {
    if !IsWriteBack(w) then [] else
    [MovReg(RAX, R11)]
    + (if IsPostIndexed(w) then [AluImm(Add, true, FromInt(ScalarDisplacement(w), 64))] else [])
    + Save(Reg(w, 5), true)
  }

  function ScalarTransfer(w: bv32): (code: seq<Op>)
  {
    ScalarElement(w) + ScalarWriteBack(w)
  }

  /** From the base comparison to the jump over the exits. */
  function ScalarRange(w: bv32, cfg: Config, exit: nat, exits: nat): (code: seq<Op>)
  {
    var bytes := AccessBytes(w);
    Guard(BaseCheck(cfg), CarrySet,
      Guard([CompareSize(bytes)], CarrySet,
        Guard([SizeToR10] + RangeCheck(bytes), Above, ScalarTransfer(w) + [Jmp(exits)], exit),
        exit),
      exit)
  }

  /** The address, its alignment, and the range; the base is in RAX. */
  function ScalarAligned(w: bv32, pc: Word, n: nat, cfg: Config): (code: seq<Op>)
  {
    var range := ScalarRange(w, cfg, ScalarDataOffset(w, pc, n, cfg), |ScalarExits(w, pc, n, cfg)|);
    if AccessBytes(w) > 1 then
      Guard(ScalarAddressCode(w) + [TestByte(AccessBytes(w) - 1)], NotZero, range, ScalarAlignOffset(w, pc, n, cfg))
    else ScalarAddressCode(w) + range
  }

  function ScalarChecks(w: bv32, pc: Word, n: nat, cfg: Config): (code: seq<Op>)
  {
    if ChecksSp(w, cfg) then Guard(SpCheck(), NotZero, ScalarAligned(w, pc, n, cfg), 0)
    else Load(Reg(w, 5), true, true) + ScalarAligned(w, pc, n, cfg)
  }

  function ScalarCode(w: bv32, pc: Word, n: nat, cfg: Config): (code: seq<Op>)
  {
    [StoreInstruction(w)] + (ScalarChecks(w, pc, n, cfg) + ScalarExits(w, pc, n, cfg))
  }
}
