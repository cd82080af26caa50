/** The physical memory service: one or two elements, all preflighted before any transfer. */
module PhysicalMemory {
  import opened Basics
  import opened LittleEndian
  import opened MemoryAbi
  import opened PowersOfTwo

  const UNSUPPORTED_V1 := 2
  const INVALID_REQUEST_V1 := 3
  const U64 := 0x1_0000_0000_0000_0000

  datatype PhysicalRequest = PhysicalRequest(
    abiVersion: u32, structSize: u32, operation: u32, flags: u32,
    pc: u64, address: u64, value0: u64, value1: u64, sctlr: bv64, epoch: u64,
    width: u32, count: u32, currentEl: u32, reserved: u32)

  datatype PhysicalReply = PhysicalReply(result: u32, fault: u32, value0: u64, value1: u64, address: u64, esr: u64)

  predicate WellFormed(r: PhysicalRequest)
  {
    && r.abiVersion == 1 && r.structSize == 80 && r.flags == 0 && r.reserved == 0 && r.epoch == 0
    && (r.operation == FETCH || r.operation == LOAD || r.operation == STORE)
    && (r.width == 1 || r.width == 2 || r.width == 4 || r.width == 8)
    && (r.count == 1 || r.count == 2) && !(r.count == 2 && r.width < 4)
    && !(r.operation == FETCH && (r.width != 4 || r.count != 1 || r.address != r.pc))
    && !(r.operation != STORE && (r.value0 != 0 || r.value1 != 0))
    && !(r.count == 1 && r.value1 != 0)
    && r.value0 < Pow256(r.width) && r.value1 < Pow256(r.width)
  }

  /** EL0 or EL1, with the MMU off and the endianness bit of that level clear. */
  predicate SupportedControls(el: nat, sctlr: bv64)
  {
    el <= 1 && sctlr & 1 == 0 && sctlr & (1 << if el == 0 then 24 else 25) == 0
  }

  predicate SupportedRegime(r: PhysicalRequest) { SupportedControls(r.currentEl, r.sctlr) }

  function Refused(result: u32, address: u64): (physicalReply: PhysicalReply) { PhysicalReply(result, 0, 0, 0, address, 0) }

  function Misaligned(r: PhysicalRequest): (physicalReply: PhysicalReply)
    requires r.currentEl <= 1
  {
    Refused(GUEST_FAULT, r.address).(
      fault := if r.operation == FETCH then PC_ALIGNMENT else DATA_ALIGNMENT,
      esr := if r.operation == FETCH then 0x8a00_0000
             else (0x24 + r.currentEl) * 0x400_0000 + 0x200_0000 + 0x21 + (if r.operation == STORE then 64 else 0))
  }

  /** n bytes from address lie wholly inside RAM. */
  predicate InRam(base: u64, length: nat, address: nat, n: nat)
  {
    base <= address && address + n <= base + length
  }

  function Stored(ram: seq<u8>, at: nat, value: u64, width: nat): (after: seq<u8>)
    requires at + width <= |ram|
    ensures |after| == |ram|
  {
    ram[..at] + Encode(value, width) + ram[at + width..]
  }

  /** What the service owes: the request happens as a whole exactly when all of its bytes are in RAM. */
  ghost predicate Served(base: u64, ram: seq<u8>, r: PhysicalRequest, out: PhysicalReply, after: seq<u8>)
  {
    if !WellFormed(r) then out == Refused(INVALID_REQUEST_V1, 0) && after == ram
    else if !SupportedRegime(r) then out == Refused(UNSUPPORTED_V1, r.address) && after == ram
    else if r.address % r.width != 0 then out == Misaligned(r) && after == ram
    else if !InRam(base, |ram|, r.address, r.width * r.count) then
      && out == Refused(UNSUPPORTED_V1, if InRam(base, |ram|, r.address, r.width) then (r.address + r.width) % U64 else r.address)
      && after == ram
    else
      var at := r.address - base;
      if r.operation == STORE then
        && out == Refused(OK, 0)
        && |after| == |ram| && after[..at] == ram[..at]
        && after[at..at + r.width] == Encode(r.value0, r.width)
        && (r.count == 2 ==> after[at + r.width..at + 2 * r.width] == Encode(r.value1, r.width))
        && after[at + r.width * r.count..] == ram[at + r.width * r.count..]
      else
        && after == ram && out.result == OK && out.fault == 0 && out.address == 0 && out.esr == 0
        && out.value0 == Assemble(ram[at..at + r.width])
        && out.value1 == if r.count == 2 then Assemble(ram[at + r.width..at + 2 * r.width]) else 0
  }

  lemma StoredParts(ram: seq<u8>, at: nat, value: u64, width: nat)
    requires at + width <= |ram|
    ensures var after := Stored(ram, at, value, width);
            && after[..at] == ram[..at] && after[at..at + width] == Encode(value, width)
            && after[at + width..] == ram[at + width..]
  {
    hide Encode;
  }

  lemma StoredTwice(ram: seq<u8>, at: nat, value0: u64, value1: u64, width: nat)
    requires at + 2 * width <= |ram|
    ensures var after := Stored(Stored(ram, at, value0, width), at + width, value1, width);
            && after[..at] == ram[..at] && after[at..at + width] == Encode(value0, width)
            && after[at + width..at + 2 * width] == Encode(value1, width)
            && after[at + 2 * width..] == ram[at + 2 * width..]
  {
    hide Encode;
    var mid := Stored(ram, at, value0, width);
    var after := Stored(mid, at + width, value1, width);
    StoredParts(ram, at, value0, width);
    StoredParts(mid, at + width, value1, width);
    assert after[..at] == after[..at + width][..at];
    assert after[at..at + width] == after[..at + width][at..] == mid[at..at + width];
    assert after[at + 2 * width..] == mid[at + width..][width..] == ram[at + 2 * width..];
  }

  class MemoryService {
    const ram: array<u8>
    const base: u64

    ghost predicate Valid()
    {
      ram.Length >= 8 && base + ram.Length < U64
    }

    constructor (ram: array<u8>, base: u64)
      requires ram.Length >= 8 && base + ram.Length < U64
      ensures Valid() && this.ram == ram && this.base == base
    {
      this.ram, this.base := ram, base;
    }

    /** A RAM too short for one element, or that would wrap the address space, is refused. */
    static method New(ram: array<u8>, base: u64) returns (r: Built<MemoryService>)
      ensures r == NotBuilt(InvalidRange) <==> ram.Length < 8 || base + ram.Length >= U64
      ensures r.Built? <==> r != NotBuilt(InvalidRange)
      ensures r.Built? ==> fresh(r.service) && r.service.Valid() && r.service.ram == ram && r.service.base == base
    {
      if ram.Length < 8 || base + ram.Length >= U64 { return NotBuilt(InvalidRange); }
      var service := new MemoryService(ram, base);
      r := Built(service);
    }

    method Execute(r: PhysicalRequest) returns (out: PhysicalReply)
      requires Valid()
      modifies ram
      ensures Served(base, old(ram[..]), r, out, ram[..])
    {
      if !WellFormed(r) { return Refused(INVALID_REQUEST_V1, 0); }
      if !SupportedRegime(r) { return Refused(UNSUPPORTED_V1, r.address); }
      if r.address % r.width != 0 { return Misaligned(r); }
      var refused, offsets := Preflight(r);
      if refused.Some? { return refused.value; }
      out := Transfer(r, offsets);
    }

    /** Place every element; the first that is not wholly in RAM refuses the request. */
    method Preflight(r: PhysicalRequest) returns (refused: Option<PhysicalReply>, offsets: array<nat>)
      requires Valid() && (r.count == 1 || r.count == 2) && r.width > 0
      ensures fresh(offsets) && offsets.Length == 2
      ensures refused.None? <==> InRam(base, ram.Length, r.address, r.width * r.count)
      ensures refused.Some? ==> refused.value == Refused(UNSUPPORTED_V1,
                if InRam(base, ram.Length, r.address, r.width) then (r.address + r.width) % U64 else r.address)
      ensures refused.None? ==> offsets[0] == r.address - base && (r.count == 2 ==> offsets[1] == r.address - base + r.width)
    {
      offsets := new nat[2](_ => 0);
      refused := None;
      for element := 0 to r.count
        invariant element > 0 ==> InRam(base, ram.Length, r.address, r.width) && offsets[0] == r.address - base
        invariant element > 1 ==> InRam(base, ram.Length, r.address, 2 * r.width) && offsets[1] == r.address - base + r.width
      {
        assert element * r.width == if element == 0 then 0 else r.width;
        var address := r.address + element * r.width;
        if address >= U64 || address < base || ram.Length < r.width || address - base > ram.Length - r.width {
          refused := Some(Refused(UNSUPPORTED_V1, address % U64));
          return;
        }
        offsets[element] := address - base;
      }
    }

    method Transfer(r: PhysicalRequest, offsets: array<nat>) returns (out: PhysicalReply)
      requires WellFormed(r) && SupportedRegime(r) && r.address % r.width == 0
      requires InRam(base, ram.Length, r.address, r.width * r.count) && offsets.Length == 2
      requires offsets[0] == r.address - base && (r.count == 2 ==> offsets[1] == r.address - base + r.width)
      modifies ram
      ensures Served(base, old(ram[..]), r, out, ram[..])
    {
      hide Pow256, Encode, Assemble, Stored, Misaligned;
      if r.operation == STORE {
        var at, second := offsets[0], offsets[1];
        ghost var before := ram[..];
        StoreElement(at, r.value0, r.width);
        StoredParts(before, at, r.value0, r.width);
        if r.count == 2 {
          StoreElement(second, r.value1, r.width);
          StoredTwice(before, at, r.value0, r.value1, r.width);
        }
        out := Refused(OK, 0);
      } else {
        var value0 := LoadElement(offsets[0], r.width);
        var value1: u64 := 0;
        if r.count == 2 { value1 := LoadElement(offsets[1], r.width); }
        out := Refused(OK, 0).(value0 := value0, value1 := value1);
      }
    }

    method StoreElement(at: nat, value: u64, width: nat)
      requires at + width <= ram.Length
      modifies ram
      ensures ram[..] == Stored(old(ram[..]), at, value, width)
    {
      for byte := 0 to width
        invariant ram[..] == Stored(old(ram[..]), at, value, byte)
      {
        ram[at + byte] := ByteAt(value, byte);
      }
    }

    method LoadElement(at: nat, width: nat) returns (value: u64)
      requires at + width <= ram.Length && (width == 1 || width == 2 || width == 4 || width == 8)
      ensures value == Assemble(ram[at..at + width])
    {
      var gathered: nat := 0;
      for byte := 0 to width
        invariant gathered == Assemble(ram[at..at + byte])
      {
        AssembleAppend(ram[at..at + byte], ram[at + byte]);
        assert ram[at..at + byte + 1] == ram[at..at + byte] + [ram[at + byte]];
        gathered := gathered + ram[at + byte] * Pow256(byte);
      }
      EncodeAssemble(ram[at..at + width]);
      WidthBound(width);
      value := gathered;
    }
  }

  lemma WidthBound(width: nat)
    requires width == 1 || width == 2 || width == 4 || width == 8
    ensures Pow256(width) <= U64
  {
    assert Pow256(4) == 0x1_0000_0000;
    assert Pow256(7) == 256 * Pow256(6) == 65536 * Pow256(5);
  }

  /** What a successful store leaves where a load of the same shape will look. */
  lemma StoreLeaves(base: u64, ram: seq<u8>, r: PhysicalRequest, out: PhysicalReply, after: seq<u8>)
    requires Served(base, ram, r, out, after) && r.operation == STORE && out.result == OK
    ensures WellFormed(r) && SupportedRegime(r) && r.address % r.width == 0 && |after| == |ram|
    ensures InRam(base, |ram|, r.address, r.width * r.count)
    ensures Assemble(after[r.address - base..r.address - base + r.width]) == r.value0
    ensures r.count == 2 ==> Assemble(after[r.address - base + r.width..r.address - base + 2 * r.width]) == r.value1
  {
    hide Pow256, Encode, Assemble;
    AssembleEncode(r.value0, r.width);
    AssembleEncode(r.value1, r.width);
  }

  /** A load of the same shape after a successful store returns what was stored, in any RAM. */
  lemma PhysicalRoundTrip(base: u64, ram: seq<u8>, r: PhysicalRequest, out: PhysicalReply, after: seq<u8>,
                          back: PhysicalReply, later: seq<u8>)
    requires Served(base, ram, r, out, after) && r.operation == STORE && out.result == OK
    requires Served(base, after, r.(operation := LOAD, value0 := 0, value1 := 0), back, later)
    ensures back.result == OK && back.value0 == r.value0 && back.value1 == r.value1 && later == after
  {
    hide Pow256, Encode, Assemble;
    StoreLeaves(base, ram, r, out, after);
    LoadIsWellFormed(r);
  }

  lemma LoadIsWellFormed(r: PhysicalRequest)
    requires WellFormed(r) && r.operation == STORE
    ensures WellFormed(r.(operation := LOAD, value0 := 0, value1 := 0))
    ensures r.count == 1 ==> r.value1 == 0
  {
  }
}
