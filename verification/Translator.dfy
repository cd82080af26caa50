/**
 * The translator proper: one word, then a block of up to limit words (translate_impl).
 * A block holds the code of consecutive words up to the first branch, exit or fault.
 */
module Translator {
  import opened Basics
  import opened PowersOfTwo
  import opened LittleEndian
  import opened Words
  import opened A64
  import opened HostOps
  import opened Emission
  import opened PairEmission
  import opened ScalarEmission
  import opened SystemEmission

  /** The code of one word; ends when the code always returns. */
  datatype Piece = Piece(ops: seq<Op>, ends: bool)

  function UndefinedPiece(w: bv32, pc: nat, n: nat): (piece: Piece)
  {
    Piece(FaultCode(w, FromInt(pc, 64), n, UndefinedInstruction), true)
  }

  /** The data-processing classes, in the order the translator tests them. */
  function TranslateData(w: bv32, pc: nat, n: nat): (piece: Option<Piece>)
  {
    if IsConditionalSelect(w) then Some(Piece(SelectCode(w), false))
    else if IsVariableShift(w) then Some(Piece(VariableShiftCode(w), false))
    else if IsMultiplyAdd(w) then Some(Piece(MultiplyAddCode(w), false))
    else if IsConditionalCompare(w) then Some(Piece(ConditionalCompareCode(w), false))
    else if IsBitfieldMove(w) then
      Some(if BitfieldDefined(w) then Piece(BitfieldMoveCode(w), false) else UndefinedPiece(w, pc, n))
    else if IsUnsignedBitfieldMove(w) then
      Some(if BitfieldDefined(w) then Piece(UnsignedBitfieldCode(w), false) else UndefinedPiece(w, pc, n))
    else if IsLogicalImmediate(w) then
      var mask := MaskValue(w);
      Some(if mask.Some? then Piece(LogicalImmediateCode(w, mask.value), false) else UndefinedPiece(w, pc, n))
    else if IsMoveWide(w) then
      Some(if MoveWideDefined(w) then Piece(MoveWideCode(w), false) else UndefinedPiece(w, pc, n))
    else if IsPcRelative(w) then Some(Piece(PcRelativeCode(pc, w), false))
    else if IsLogicalShifted(w) then
      Some(if Flag(w, 31) || Six(w, 10) < 32 then Piece(LogicalShiftedCode(w), false) else UndefinedPiece(w, pc, n))
    else if IsAddImmediate(w) then Some(Piece(AddImmediateCode(w), false))
    else if IsAddExtended(w) then
      Some(if Three(w, 10) <= 4 then Piece(AddExtendedCode(w), false) else UndefinedPiece(w, pc, n))
    else if IsAddShifted(w) then
      Some(if Field(w, 22, 2) != 3 && (Flag(w, 31) || Six(w, 10) < 32) then Piece(AddShiftedCode(w), false)
           else UndefinedPiece(w, pc, n))
    else None
  }

  function TranslateBranch(w: bv32, pc: nat, n: nat): (piece: Option<Piece>)
  {
    if IsConditionalBranch(w) then Some(Piece(ConditionalBranchCode(w, pc, n), true))
    else if IsTestBranch(w) then Some(Piece(TestBranchCode(w, pc, n), true))
    else if IsCompareBranch(w) then Some(Piece(CompareBranchCode(w, pc, n), true))
    else if IsImmediateBranch(w) then Some(Piece(ImmediateBranchCode(w, pc, n), true))
    else if IsRegisterBranch(w) then
      Some(if Reg(w, 5) == 31 then UndefinedPiece(w, pc, n) else Piece(RegisterBranchCode(w, pc, n), true))
    else None
  }

  /** A load or store outside the supported memory regime stops the block, after it has been decoded. */
  function TranslatePair(w: bv32, pc: nat, n: nat, cfg: Config): (piece: Piece)
  {
    if !PairValid(w) then UndefinedPiece(w, pc, n)
    else if !Supported(cfg) then Piece(FaultCode(w, FromInt(pc, 64), n, SystemRegisterTrap), true)
    else Piece(PairCode(w, FromInt(pc, 64), n, cfg), false)
  }

  function TranslateScalar(w: bv32, pc: nat, n: nat, cfg: Config): (piece: Piece)
  {
    if !ScalarValid(w) then UndefinedPiece(w, pc, n)
    else if !Supported(cfg) then Piece(FaultCode(w, FromInt(pc, 64), n, SystemRegisterTrap), true)
    else Piece(ScalarCode(w, FromInt(pc, 64), n, cfg), false)
  }

  function TranslateMemory(w: bv32, pc: nat, n: nat, cfg: Config): (piece: Piece)
  {
    if IsPair(w) then TranslatePair(w, pc, n, cfg) else TranslateScalar(w, pc, n, cfg)
  }

  /** Thread and identification registers. */
  function TranslateSystem(w: bv32, pc: nat, n: nat, cfg: Config): (piece: Option<Piece>)
  {
    if IsIdentity(w) then Some(Piece(IdentityCode(w, FromInt(pc, 64), n), false))
    else if IsThread(w) then
      var t := ThreadOf(w).value;
      Some(if ThreadDenied(cfg.el, t, Flag(w, 21)) then UndefinedPiece(w, pc, n) else Piece(ThreadCode(w, t), false))
    else None
  }

  function Translate(w: bv32, pc: nat, n: nat, cfg: Config): (piece: Piece)
  {
    if ControlAbsent(w, cfg.el) then UndefinedPiece(w, pc, n)
    else if IsMemory(w) && !cfg.native then Piece(FaultCode(w, FromInt(pc, 64), n, Handover), true) else
    var data := TranslateData(w, pc, n);
    if data.Some? then data.value else
    var system := TranslateSystem(w, pc, n, cfg);
    if system.Some? then system.value
    else if IsMemory(w) then TranslateMemory(w, pc, n, cfg) else
    var branch := TranslateBranch(w, pc, n);
    if branch.Some? then branch.value
    else if w == NOP then Piece([], false)
    else if w == HLT then Piece(Finish(Onward(pc), n + 1, Halt), true)
    else Piece(FaultCode(w, FromInt(pc, 64), n, Boundary(w, cfg.el)), true)
  }

  // ---------- Blocks ----------

  /** Guest code: bytes at a guest base address. */
  datatype Guest = Guest(bytes: seq<u8>, base: u64)

  /** The word at pc, if pc is aligned and the word lies inside the guest code. */
  function Fetch(g: Guest, pc: nat): (r: Option<bv32>)
  {
    if pc % 4 != 0 || |g.bytes| < 4 || pc < g.base || pc - g.base > |g.bytes| - 4 || pc > 0xffff_ffff_ffff_fffc then None
    else
      var word := g.bytes[pc - g.base..pc - g.base + 4];
      assert Assemble(word) < 0x1_0000_0000 by {
        EncodeAssemble(word);
        assert Pow256(4) == 256 * Pow256(3) && Pow256(3) == 256 * Pow256(2) && Pow256(2) == 256 * Pow256(1);
      }
      Some(Assemble(word) as bv32)
  }

  /** The code for words n, n+1, ... of a block of at most limit words; pc is the address of word n. */
  function Block(g: Guest, pc: nat, n: nat, limit: nat, cfg: Config): (code: seq<Op>)
    decreases limit - n
  {
    if n >= limit then [] else
    var fetched := Fetch(g, pc);
    if fetched.None? then Finish(FromInt(pc, 64), n, InstructionAbort) else
    var piece := Translate(fetched.value, pc, n, cfg);
    if piece.ends then piece.ops
    else if n + 1 == limit then piece.ops + Finish(Onward(pc), n + 1, Next)
    else piece.ops + Block(g, (pc + 4) % Pow2(64), n + 1, limit, cfg)
  }
}
