/**
 * How the provider run loop performs a load or store: decode, ask the memory provider, check its
 * reply, and only then commit registers (runtime/jit.c, memory_exchange and memory_data_step).
 */
module ProviderMemory {
  import opened Basics
  import opened PowersOfTwo
  import opened Words
  import opened LittleEndian
  import opened A64
  import opened PhysicalMemory
  import opened PairEmission
  import opened ScalarEmission
  import Abi = MemoryAbi

  // ---------- Decoding ----------

  datatype Shape = Shape(width: nat, count: nat, read: bool, signed: bool, result64: bool, mode: nat,
                         rn: nat, rt: nat, rt2: nat, displacement: int, indexed: bool, rm: nat, option: nat, shift: nat)

  predicate ShapeOk(d: Shape)
  {
    && (d.width == 1 || d.width == 2 || d.width == 4 || d.width == 8) && (d.count == 1 || d.count == 2)
    && (d.count == 2 ==> d.width >= 4) && d.mode < 4 && d.rn < 32 && d.rt < 32 && d.rt2 < 32 && d.rm < 32
    && d.option < 8 && d.shift < 4 && (d.signed ==> d.read && d.width < 8)
  }

  /** The shape of a load or store; None for the encodings that are reported undefined. */
  function DecodeMemory(w: bv32): (d: Option<Shape>)
    ensures d.Some? ==> ShapeOk(d.value)
  {
    if IsPair(w) then
      if !PairValid(w) then None
      else Some(Shape(PairBytes(w), 2, Flag(w, 22), false, Field(w, 30, 2) == 2, PairMode(w),
                      Reg(w, 5), Reg(w, 0), Reg(w, 10), PairDisplacement(w), false, 0, 0, 0))
    else if !ScalarValid(w) then None
    else
      var indexed := IsRegisterOffset(w);
      Some(Shape(AccessBytes(w), 1, Opc(w) != 0, Opc(w) >= 2, Opc(w) == 2 || SizeField(w) == 3,
                 if IsWriteBack(w) then (if Flag(w, 11) then 3 else 1) else 2,
                 Reg(w, 5), Reg(w, 0), 0, ScalarDisplacement(w), indexed,
                 if indexed then Reg(w, 16) else 0, if indexed then ExtendOption(w) else 0, if indexed then IndexShift(w) else 0))
  }

  // ---------- The exchange ----------

  /** A reply as it crosses the interface. */
  datatype WireReply = WireReply(abiVersion: u32, structSize: u32, epoch: u64, reserved: (u64, u64, u64), body: PhysicalReply)

  /** What the service fills in besides its answer. */
  function FromService(out: PhysicalReply): (wireReply: WireReply)
  {
    WireReply(1, 80, 0, (0, 0, 0), out)
  }

  const PROVIDER_UNSUPPORTED := 1
  const PROVIDER_INVALID_REQUEST := 2
  const PROVIDER_INVALID_REPLY := 3

  /** What the loop makes of a reply: its data, a guest alignment fault, or a failure of the provider. */
  datatype Judgement = Accept | GuestFault(address: u64, syndrome: nat) | Failure(reason: nat, lastAddress: u64)

  /** Exception class, instruction length, status code, and the write bit: the data alignment syndrome. */
  function DataSyndrome(el: nat, store: bool): (n: nat)
  {
    (0x24 + el) * 0x400_0000 + 0x200_0000 + 0x21 + (if store then 64 else 0)
  }

  function Judge(q: PhysicalRequest, r: WireReply): (judgement: Judgement)
    requires q.width > 0
  {
    var out := r.body;
    if r.abiVersion != 1 || r.structSize != 80 || r.epoch != 0 || r.reserved != (0, 0, 0) || out.result > 3 then
      Failure(PROVIDER_INVALID_REPLY, q.address)
    else if out.result == Abi.OK then
      if out.fault != 0 || out.address != 0 || out.esr != 0 || out.value0 >= Pow256(q.width) || out.value1 >= Pow256(q.width)
         || (q.count == 1 && out.value1 != 0) || (q.operation == Abi.STORE && (out.value0 != 0 || out.value1 != 0))
      then Failure(PROVIDER_INVALID_REPLY, q.address) else Accept
    else if out.value0 != 0 || out.value1 != 0 then Failure(PROVIDER_INVALID_REPLY, q.address)
    else if out.result == INVALID_REQUEST_V1 then
      Failure(if out.fault != 0 || out.address != 0 || out.esr != 0 then PROVIDER_INVALID_REPLY else PROVIDER_INVALID_REQUEST, q.address)
    else if out.result == UNSUPPORTED_V1 then
      if out.fault != 0 || out.esr != 0
         || (out.address != q.address && !(q.count == 2 && out.address == (q.address + q.width) % U64))
      then Failure(PROVIDER_INVALID_REPLY, q.address) else Failure(PROVIDER_UNSUPPORTED, out.address)
    else
      var expected := if q.operation == Abi.FETCH then 0x8a00_0000 else DataSyndrome(q.currentEl, q.operation == Abi.STORE);
      if (if q.operation == Abi.FETCH then out.fault != Abi.PC_ALIGNMENT || q.pc % 4 == 0
          else out.fault != Abi.DATA_ALIGNMENT || q.address % q.width == 0)
         || out.address != q.address || out.esr != expected
      then Failure(PROVIDER_INVALID_REPLY, q.address) else GuestFault(out.address, expected)
  }

  // ---------- One data step ----------

  /** The guest with its provider's memory, and the loop's records. */
  datatype View = View(state: State, pc: Word, retired: nat, lastAddress: u64, requests: nat, completed: nat, syndrome: nat)

  datatype Verdict = Stepped | Raised(status: Status) | Failed(reason: nat)

  /** The bits above the low 32. */
  function HighHalf(): (v: Word) { seq(64, i => i >= 32) }

  /** The offset: a displacement, or an index register widened and shifted. */
  function MemoryOffset(r: State, d: Shape): (v: Word)
    requires ShapeOk(d)
  {
    if !d.indexed then FromInt(d.displacement, 64)
    else
      var x := X(r, d.rm, true);
      var narrow := Extend(Low(x, 32), 64);
      var value := if d.option % 2 == 1 then x
                   else if d.option == 6 && narrow[31] then Or(narrow, HighHalf()) else narrow;
      Shift(LSL, value, d.shift)
  }

  /** The low width bytes. */
  function ByteMask(width: nat): (v: Word) { seq(64, i => i < 8 * width) }

  function Masked(v: Word, width: nat): (n: u64)
    requires width == 1 || width == 2 || width == 4 || width == 8
  {
    Val64(And(v, ByteMask(width)))
  }

  /** A register's number, which fits the interface. */
  function Val64(v: Word): (n: u64)
  {
    ValBound(v);
    assert Pow2(64) == 0x1_0000_0000_0000_0000 by { BigPower(); }
    Val(v)
  }

  lemma BigPower()
    ensures Pow2(64) == 0x1_0000_0000_0000_0000 && Pow2(8) == 256 && Pow2(16) == 0x1_0000 && Pow2(32) == 0x1_0000_0000
  {
    FivePowers();
    Pow2Add(4, 4);
    Pow2Add(8, 8);
    Pow2Add(16, 16);
    Pow2Add(32, 32);
  }

  /** Sign extension by shifting left in 32 bits and right in 64, as the loop does it. */
  function SignExtended(v: Word, width: nat): (word: Word)
    requires 0 < width <= 4
  {
    var up := Shift(LSL, Low(v, 32), 32 - 8 * width);
    Shift(ASR, up + seq(32, i => up[31]), 32 - 8 * width)
  }

  /** Write-back and post-indexed forms differ in which address is used. */
  function Updated(r: State, d: Shape): (v: Word)
    requires ShapeOk(d)
  {
    FromInt(Val(XSP(r, d.rn, true)) + Val(MemoryOffset(r, d)), 64)
  }

  function ElementAddress(r: State, d: Shape): (v: Word)
    requires ShapeOk(d)
  {
    if d.mode == 1 then XSP(r, d.rn, true) else Updated(r, d)
  }

  function Ask(v: View, el: u32, sctlr: bv64, d: Shape): (q: PhysicalRequest)
    requires ShapeOk(d)
  {
    PhysicalRequest(1, 80, if d.read then Abi.LOAD else Abi.STORE, 0,
                    Val64(v.pc), Val64(ElementAddress(v.state, d)),
                    if d.read then 0 else Masked(X(v.state, d.rt, true), d.width),
                    if d.read || d.count == 1 then 0 else Masked(X(v.state, d.rt2, true), d.width),
                    sctlr, 0, d.width, d.count, el, 0)
  }

  /** Register writes of a checked reply: the whole word, or its low half with the upper half cleared. */
  function Saved(r: State, n: nat, value: Word, wide: bool): (s: State)
    requires n < 32
  {
    SetX(r, n, Low(value, Width(wide)))
  }

  function AfterReply(r: State, d: Shape, updated: Word, value0: u64, value1: u64): (s: State)
    requires ShapeOk(d)
  {
    var first := FromNat(value0, 64);
    var loaded := if !d.read then r else Saved(r, d.rt, if d.signed then SignExtended(first, d.width) else first, d.result64);
    var both := if d.read && d.count == 2 then Saved(loaded, d.rt2, FromNat(value1, 64), d.result64) else loaded;
    if d.mode != 2 then SetXSP(both, d.rn, updated) else both
  }

  /** A reply puts an end to the step: data and progress, an alignment fault with its record, or a provider failure. */
  function Answered(v: View, d: Shape, q: PhysicalRequest, reply: WireReply, ram: Ram): (r: (View, Verdict))
    requires ShapeOk(d) && q.width > 0
  {
    var asked := v.(requests := v.requests + 1, lastAddress := q.address, state := v.state.(ram := ram));
    match Judge(q, reply)
    case Failure(reason, last) => (asked.(lastAddress := last), Failed(reason))
    case GuestFault(address, syndrome) =>
      (asked.(lastAddress := address, syndrome := syndrome, state := asked.state.(far := FromNat(address, 64))), Raised(AlignmentFault))
    case Accept =>
      (asked.(state := AfterReply(asked.state, d, Updated(v.state, d), reply.body.value0, reply.body.value1),
              pc := FromInt(Val(v.pc) + 4, 64), retired := v.retired + 1, completed := v.completed + 1), Stepped)
  }

  // ---------- What a data step owes ----------

  /** The regime of an exception level and a control word; the loop itself refuses higher levels and the MMU. */
  function RegimeOf(el: nat, sctlr: bv64, base: u64): (cfg: Config)
  {
    Config(el, base, true, el <= 1 && sctlr & 1 == 0, BigEndianData(el, sctlr), false, ChecksStack(el, sctlr))
  }

  /** Everything but the fault address. */
  predicate SameButFar(a: State, b: State)
  {
    a.(far := b.far) == b
  }

  predicate Stores(w: bv32)
  {
    if IsPair(w) then !Flag(w, 22) else Opc(w) == 0
  }

  /** One step through a provider against the effect of the instruction, with the syndrome of a misaligned access. */
  predicate Meets(effect: Effect, before: View, after: View, out: Verdict, syndrome: nat)
  {
    match effect
    case Through(s) =>
      && out == Stepped && after.state == s && after.pc == FromInt(Val(before.pc) + 4, 64)
      && after.retired == before.retired + 1 && after.completed == before.completed + 1 && after.requests == before.requests + 1
      && after.syndrome == before.syndrome
    case Fault(s, UndefinedInstruction) => out == Raised(UndefinedInstruction) && after == before
    case Fault(s, SpAlignmentFault) => out == Raised(SpAlignmentFault) && after == before.(state := s)
    case Fault(s, AlignmentFault) =>
      && out == Raised(AlignmentFault) && after.state == s && after.pc == before.pc
      && after.retired == before.retired && after.completed == before.completed
      && after.lastAddress == Val(s.far) && after.syndrome == syndrome && after.requests == before.requests + 1
    case Fault(s, DataAbort) =>
      && out == Failed(PROVIDER_UNSUPPORTED) && after.state == before.state && after.pc == before.pc
      && after.retired == before.retired && after.completed == before.completed && after.lastAddress == Val(s.far)
      && after.syndrome == before.syndrome && after.requests == before.requests + 1
    case Fault(s, SystemRegisterTrap) =>
      !out.Stepped? && SameButFar(after.state, before.state) && after.pc == before.pc
      && after.retired == before.retired && after.completed == before.completed
    case _ => false
  }
}
