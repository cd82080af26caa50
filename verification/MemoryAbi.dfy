/** The fixed-width records and codes of the stage-1 memory provider. */
module MemoryAbi {
  import opened Basics
  import opened LittleEndian

  const FETCH := 1
  const LOAD := 2
  const STORE := 3

  const OK := 0
  const GUEST_FAULT := 1
  const UNSUPPORTED := 2
  const UNAVAILABLE := 3
  const INVALID_REQUEST := 4

  const PC_ALIGNMENT := 1
  const DATA_ALIGNMENT := 2
  const ADDRESS_SIZE := 3
  const TRANSLATION := 4
  const PERMISSION := 5
  const ACCESS_FLAG := 6

  const NO_LEVEL := 0xffff_ffff
  const INPUT := 1
  const WALK := 2
  const LEAF := 3
  const CACHED_LEAF := 4
  const HAS_DESCRIPTOR := 1
  const HAS_OUTPUT := 2

  /** Why a service cannot be built over what its caller owns. */
  datatype ServiceError = InvalidRange | InvalidControls

  datatype Built<+T> = Built(service: T) | NotBuilt(error: ServiceError)

  datatype Controls = Controls(
    abiVersion: u32, structSize: u32, profile: u32, reserved: u32,
    sctlr: bv64, ttbr0: bv64, ttbr1: bv64, tcr: bv64, mair: bv64, hcr: bv64, scr: bv64, epoch: u64)

  datatype Request = Request(
    abiVersion: u32, structSize: u32, operation: u32, flags: u32,
    width: u32, count: u32, currentEl: u32, reserved0: u32,
    pc: u64, address: u64, value0: u64, value1: u64, pstate: bv64, controls: Controls, reserved1: u64)

  datatype Reply = Reply(
    abiVersion: u32, result: u32, fault: u32, level: u32, context: u32, fsc: u32, metadataFlags: u32,
    value0: u64, value1: u64, address: u64, esr: u64, epoch: u64, descriptorPa: u64, outputPa: u64)

  /** Every field of a reply but version, result, level and epoch starts at zero. */
  function BlankReply(version: u32, result: u32, epoch: u64): (reply: Reply)
  {
    Reply(version, result, 0, NO_LEVEL, 0, 0, 0, 0, 0, 0, 0, epoch, 0, 0)
  }
}
