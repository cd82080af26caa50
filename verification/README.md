# Verified model of a freestanding Arm-on-x86 runtime

The runtime executes A64 guest code on an x86-64 host. This project models its hardest components in Dafny 4.11 and
proves what they are for. `dafny verify dfyconfig.toml` checks everything.

Each stateful component is a class whose methods follow the program's loops and branches. Their `ensures` clauses
equate the new state with a specification function, and lemmas about that function, over all inputs or all runs, state
the properties. Components made of expressions are functions. In the table below a method row is the link from code to
specification, and a lemma row is a property of the specification.

The modules named `...Laws` state each specification once more without the functions that it shares with the code: in
numbers, bits and addresses, from encodings, offsets and codes written out, and over whole requests, turns or runs. A decoder,
a mask, a comparison or a constant that both sides use answers to a law there.

- **Software binary32** (`PowersOfTwo`, `Binary32`, `Jamming`, `FpScalar`, `FpLaws`). Add and divide of IEEE 754-2019 in four
  rounding modes. Exact values are integers in units of 2^-149, so a quotient is a ratio of integers and the whole proof
  is integer arithmetic. `Binary32` is an independent definition of correct rounding and exact flags, shown to determine
  one answer; `FpScalar` proves that the program's sticky shifts, normalisation loops and packing deliver that answer
  for every pair of operands. Tininess is detected before rounding, which section 7.5 permits.
- **Stage-1 and physical memory services** (`Basics`, `LittleEndian`, `MemoryAbi`, `Stage1`, `TranslationLaws`, `PhysicalMemory`). The
  aligned-scalar fast path refines a byte-by-byte walk; stores are all or nothing, also across two pages mapped to one
  frame; a load returns what the store of its shape wrote.
- **The dynamic control owner** (`DynamicMemory`, `DynamicRuns`, `ControlLaws`). A PREPARE / COMMIT / CANCEL protocol over
  architectural and effective control registers, modelled as a system of services that share one token source. Over
  every run it refines atomic operations, tokens commit once and at home, and the MMU enable is guarded and one-way.
- **The translator** (`Words`, `A64`, `HostOps`, `FlagBridge`, `Emission`, `HostRuns`, `FlagSaving`, `ConditionProofs`,
  `BitfieldProofs`, `DataProofs`, `SystemEmission`, `EncodingProofs`, `OtherEncodings`, `EpilogueProofs`, `PairEmission`,
  `PairProofs`, `ScalarEmission`, `ScalarProofs`, `SystemProofs`, `Translator`, `BlockProofs`, `ByteOrder`,
  `LogicalMask`, `CodeBuffer`; the laws of `A64` in `InstructionBits`, `ShiftLaws`, `InstructionLaws`, `ConditionLaws`,
  `ValueLaws`, `MaskLaws`, `BranchLaws`, `AccessLaws` and `SystemLaws`). `A64` gives the meaning of the integer data-processing, branch, load and store instructions and of the
  moves of thread registers, after Arm DDI 0487, section C6.2, and says nothing of other words or regimes. `HostOps` is an abstract
  x86 machine over RAX, RCX, R9, R10, R11 and the flags, in which an undefined flag that is read, or a jump out of the
  code, is stuck. `CodeBuffer` emits with forward jumps patched in place. The main theorem says that the emitted code of
  a block does what its instructions do, for every word sequence and state.
- **The provider's loads and stores** (`ProviderMemory`, `ProviderProofs`, `ProviderStep`, `ProviderLaws`). In provider mode
  a load or store is a request to the memory service. The C side of that interface and the Rust side are composed: every
  integer load and store has its architectural effect, and the native code and the provider step agree.
- **The run loops** (`RunLoop`, `InterruptLaws`, `NativeBlocks`, `ProviderCache`, `ProviderRun`, `ProviderKeys`). Blocks of up to 32
  instructions between polls are indistinguishable from polling before every instruction; the provider loop's 64-slot native cache
  computes the run that translating every time computes.
- **Devices** (`Aic`, `AicLaws`, `Recovery`, `RecoveryLaws`, `NvramImage`, `NvramProofs`, `NvramLaws`, `NvramDevice`,
  `AnsRouting`, `AnsLaws`). Exactly-once interrupt
  delivery; a framed transport with CRC-32; the NVRAM bank printer and parser with Adler-32; interrupt routing between
  INTx, MSI and MSI-X.

## Where the properties hold, and where they do not

- The translated subset (`EncodingProofs.InSubset`) is the words of the translated classes; loads and stores belong to it
  at EL0 and EL1 with no control of a higher level set, in either byte order, and they and the branches only where
  addresses are not tagged. On the subset the architecture is met except on the words of `BlockProofs.Departs`: BR, BLR
  and RET through register 31, reported as undefined; LDPSW, LDNP, STNP and the prefetches, not decoded; and every access
  where SCTLR.EE or E0E makes data big-endian, which traps. `BlockProofs.TranslateMeetsArchitecture` is the equivalence,
  `BlockProofs.BranchThroughZero` and `ByteOrder.ReversedLoad` are witnesses. The provider step departs on the same
  undecoded words (`ProviderProofs.MeetsArchitecture`). HLT #0 is the monitor exit, and the CONSTRAINED UNPREDICTABLE
  register overlaps of loads and stores are taken as undefined, both as the program does.
- Outside the subset nothing is claimed of the architecture. Instructions such as SBFM, EXTR, ADC, UDIV, CLZ, SMADDL,
  LDTR, literal loads and SVC are reported as undefined (`BlockProofs.Untranslated`, with UDIV as the witness), and loads
  and stores under controls of a higher level trap (`BlockProofs.RegimeTraps`). The program does not look at TCR.TBI0 and
  TBI1: with either set it uses addresses with their tags. Identification registers read as this profile defines them,
  other system words stop the block, and a word whose bit 20 is clear but which otherwise spells MRS or MSR of a thread
  register is taken for one (`EncodingProofs.ThreadAgrees`). The modelled processor has neither SIMD nor floating point,
  so the loads and stores of their registers are undefined.
- Batching is invisible on runs in which no block changes its own words (`RunLoop.CleanRun`). Programs that never store
  into the words ahead have only such runs (`RunLoop.SafeRunIsClean`), as has any program over code in a buffer of its
  own (`NativeBlocks.SubsetBatching`). A block that overwrites its next word shows the difference
  (`RunLoop.BatchingShows`).
- An NVRAM state comes back from its bank if and only if no name contains `=` and either the first common partition has
  data, or it is empty and the next common partition that is printed starts with a terminator (`NvramProofs.RoundTrip`).
  A name with `=` comes back split (`NvramProofs.EqualsInName`). An empty first common partition is not printed: with no
  other one the bank reloads as a fresh one and the generation is lost, and with one that holds text its variables
  appear from it (`NvramProofs.EmptyCommonForgets`). Restored variables have flags 0, because the bank does not store
  flags.
- A recovery frame's flags word is outside its checksum: one changed byte is accepted if and only if it lies there
  (`Recovery.OneByteCorruption`).
- The ANS status bit stays exact under an operation if and only if the host neither moves the head of a drained queue
  nor lets completions come round to the head (`AnsRouting.StatusExactIff`).
- The NVRAM integer parser accepts decimal digits, or hexadecimal digits after `0x`. A leading zero does not mean octal.

## Model

| member | source | states |
|---|---|---|
| FpScalar.Fp32State.Add | runtime/fp_scalar.c:83-109 | For every pair of bit patterns and all four rounding modes the bits and the raised flags are those of the correctly rounded exact sum: NaN propagation and invalid infinities (sections 6.2, 7.2), the sign of an exact zero (6.3), rounding (4.3, 5.4.1), exact IXC, OFC and UFC (7.4 to 7.6); status only accumulates. FpLaws.SumOnItsSide says on which side of the exact sum the result lies |
| FpScalar.Fp32State.AddNonzero | runtime/fp_scalar.c:94-108 | The same for two finite non-zero operands: swap, alignment with jamming, carry or cancellation, rounding |
| FpScalar.Fp32State.RoundSum | runtime/fp_scalar.c:105-108 | An aligned sum that is exact when even and within one unit when odd is delivered correctly rounded, after the carry shift or the normalisation loop |
| FpScalar.Fp32State.Div | runtime/fp_scalar.c:110-127 | For every pair of bit patterns and all four modes: the correctly rounded exact quotient with exact flags, including zero by zero, infinity by infinity, division by zero (7.3) and subnormal results, which do not round twice. FpLaws.QuotientOnItsSide says on which side of the exact quotient the result lies |
| FpScalar.Fp32State.DivNonzero | runtime/fp_scalar.c:119-127 | The same for two finite non-zero operands |
| FpScalar.Fp32State.Pack | runtime/fp_scalar.c:60-82 | Any 27-bit significand that brackets an exact ratio N/D is delivered as the correct rounding of N/D with exact flags, whatever the exponent: subnormal, normal or overflowing |
| FpScalar.Fp32State.Encode | runtime/fp_scalar.c:78-81 | A rounded significand that carried is renormalised, and encoded or overflowed, without changing its value |
| FpScalar.Fp32State.Overflow | runtime/fp_scalar.c:54-59 | Overflow gives the magnitude that the mode and the sign choose, which FpLaws.SumOnItsSide and FpLaws.QuotientOnItsSide characterise, and raises OFC with IXC |
| FpScalar.Fp32State.NanResult | runtime/fp_scalar.c:32-37 | A NaN operand yields a quieted NaN chosen as the program chooses it, and raises the invalid flag exactly for signalling NaNs |
| FpScalar.Fp32State.Result | runtime/fp_scalar.c:23-29 | Status becomes the old status with the raised flags added, and the result carries it |
| FpScalar.Fp32State.Configure | runtime/fp_scalar.c:15-19 | A control word is accepted if and only if it has no bit but the two mode bits, 0x0, 0x400000, 0x800000 and 0xc00000 selecting to nearest, up, down and towards zero; otherwise nothing changes |
| FpScalar.Fp32State.ClearStatus | runtime/fp_scalar.c:20-22 | The only operation that lowers a flag, and it lowers exactly those named |
| FpScalar.Unpack | runtime/fp_scalar.c:43-53 | The significand has its leading bit at 23 and its exponent places the exact magnitude, subnormals included |
| FpScalar.Normalize | runtime/fp_scalar.c:107 | The loop brings the leading bit to 26 while the significand keeps standing for the exact sum, even when a deep cancellation left it odd |
| FpScalar.DivideSignificands | runtime/fp_scalar.c:122-125 | The quotient with its sticky bit has 27 bits and brackets the exact ratio of the significands |
| FpScalar.PackRounds | runtime/fp_scalar.c:70-77 | Truncating three bits and incrementing by mode is correct rounding of the exact ratio, and is exact if and only if the three bits are clear |
| FpScalar.AlignedBrackets | runtime/fp_scalar.c:64-69 | The second jam, for subnormal results, still brackets the exact value, so it cannot round twice |
| FpScalar.TinyExponent | runtime/fp_scalar.c:64-69 | The program's tininess test holds if and only if the exact value is below the least normal number: tininess before rounding (7.5) |
| FpScalar.DeliverOverflow | runtime/fp_scalar.c:54-59 | An overflow result meets the specification exactly when the value rounded with unbounded exponent leaves the format (7.4) |
| FpScalar.AlignedSum | runtime/fp_scalar.c:95-105 | The aligned sum of two operands, the larger first, jams the exact sum or difference; it is zero if and only if the exact one is |
| FpScalar.QuotientForPack | runtime/fp_scalar.c:119-126 | The quotient, exponent and sticky bit together stand for the exact ratio in the form that rounding asks for |
| FpScalar.SumNeverUnderflows | runtime/fp_scalar.c:83-109 | No addition raises the underflow flag: an exact sum below the normal range is representable |
| Jamming.ShiftKeepsBrackets | runtime/fp_scalar.c:38-42 | Shifting with a sticky bit keeps a significand between the same even neighbours of the exact value, for every distance |
| Jamming.ShiftJamsExact | runtime/fp_scalar.c:38-42 | Jamming an exact significand leaves it exact, or odd and within one unit of the exact value |
| Binary32.RoundInGap | runtime/fp_scalar.c:60-82 | A value of either sign is rounded to the neighbour that its position inside its gap selects, in each mode (section 4.3) |
| Binary32.RoundingUnique | runtime/fp_scalar.c:60-82 | The rounding specification names at most one value: it leaves no freedom |
| Binary32.DeliveryUnique | runtime/fp_scalar.c:60-82 | The specified bits and flags are fully determined by the mode and the exact value |
| Stage1.MemoryServiceV2.Execute | runtime/memory-service/src/stage1.rs:103-186 | Same reply and same RAM as the byte-by-byte walk, for every request, mapping and backing layout, whichever path serves it; TranslationLaws says what that walk asks of the translation for each operation |
| Stage1.MemoryServiceV2.New | runtime/memory-service/src/stage1.rs:44-58 | The service is built if and only if ranges and controls are valid, with the error the program reports otherwise |
| Stage1.MemoryServiceV2.TransferSpan | runtime/memory-service/src/stage1.rs:137-149 | The fast path's one transfer has the effect of the whole byte walk |
| Stage1.MemoryServiceV2.StoreSpan | runtime/memory-service/src/stage1.rs:140-141 | A span store replaces exactly the span by the little-endian bytes |
| Stage1.MemoryServiceV2.WalkBytes | runtime/memory-service/src/stage1.rs:152-185 | Preflight of every byte, then the transfer: the reply and the RAM of the byte walk |
| Stage1.MemoryServiceV2.StoreAll | runtime/memory-service/src/stage1.rs:178-184 | The store loop writes the bytes of both values at their places, in order |
| Stage1.MemoryServiceV2.Gather | runtime/memory-service/src/stage1.rs:178-185 | The load loop assembles both values from their places |
| Stage1.SpanBytes | runtime/memory-service/src/stage1.rs:118-151 | One translation and one span check place every byte where byte-wise translation would |
| Stage1.FirstByteDecides | runtime/memory-service/src/stage1.rs:124-133 | When the first byte is refused the walk is refused with the same reply: the fast path keeps the fault priority |
| Stage1.AlignedInPage | runtime/memory-service/src/stage1.rs:118-121 | A naturally aligned scalar never leaves its page, of 4 or 16 KiB |
| Stage1.StopIsFinal | runtime/memory-service/src/stage1.rs:152-177 | A refused byte decides the whole request, whatever follows it |
| Stage1.WalkOutcome | runtime/memory-service/src/stage1.rs:152-186 | The preflight decides the request: refused with RAM unchanged, or every byte owned and then transferred |
| Stage1.StoreConsecutive | runtime/memory-service/src/stage1.rs:178-184 | Byte stores at consecutive places equal one span store |
| Stage1.LoadConsecutive | runtime/memory-service/src/stage1.rs:178-185 | Byte loads at consecutive places equal one span load, from RAM or from the tables |
| Stage1.StorePlacesDistinct | runtime/memory-service/src/stage1.rs:152-177 | The byte places of a store never collide, even when its two pages map to one frame |
| Stage1.StoreAllOrNothing | runtime/memory-service/src/stage1.rs:103-186 | A successful store writes each of its bytes exactly once and nothing else; any other request leaves RAM alone |
| Stage1.LoadReadsStore | runtime/memory-service/src/stage1.rs:103-186 | After a successful store the load of the same shape returns exactly value0 and value1 |
| Stage1.ContractIsMet | runtime/memory-service/src/stage1.rs:103-186 | The assumed contract of address translation is satisfiable |
| PhysicalMemory.MemoryService.Execute | runtime/memory-service/src/lib.rs:26-69 | Reply and RAM are those specified for every physical request: refusals with their addresses and syndromes, and transfers of one or two elements |
| PhysicalMemory.MemoryService.New | runtime/memory-service/src/lib.rs:20-23 | Refused if and only if RAM is shorter than eight bytes or would wrap the address space |
| PhysicalMemory.MemoryService.Preflight | runtime/memory-service/src/lib.rs:48-56 | Refused if and only if some element is not wholly in RAM, with the address of the first such element |
| PhysicalMemory.MemoryService.Transfer | runtime/memory-service/src/lib.rs:57-68 | After the preflight every element is transferred |
| PhysicalMemory.MemoryService.StoreElement | runtime/memory-service/src/lib.rs:63 | One element's bytes are stored least significant first, the rest of RAM stays |
| PhysicalMemory.MemoryService.LoadElement | runtime/memory-service/src/lib.rs:65 | One element is assembled from its bytes |
| PhysicalMemory.StoreLeaves | runtime/memory-service/src/lib.rs:48-68 | A successful store was wholly inside RAM and leaves both values where a load of that shape looks |
| PhysicalMemory.PhysicalRoundTrip | runtime/memory-service/src/lib.rs:26-69 | A load of the same shape after a successful store returns what was stored, in any RAM |
| DynamicMemory.MemoryServiceDynamic.Control | runtime/memory-service/src/dynamic.rs:68-120 | Owner state, token source and reply after each phase are those of the protocol step, and RAM is untouched |
| DynamicMemory.MemoryServiceDynamic.New | runtime/memory-service/src/dynamic.rs:27-34 | Built if and only if the controls are valid with the MMU off and the ranges are valid; the error otherwise |
| DynamicMemory.MemoryServiceDynamic.Resolve | runtime/memory-service/src/dynamic.rs:75-87 | COMMIT installs exactly the prepared proposal, CANCEL drops it, and a wrong token or request changes nothing; ControlLaws.ResolvesPresented says what must be presented |
| DynamicMemory.MemoryServiceDynamic.Install | runtime/memory-service/src/dynamic.rs:84-86 | Both register files, the counters, the translation regime and the enable window change together |
| DynamicMemory.MemoryServiceDynamic.Prepare | runtime/memory-service/src/dynamic.rs:89-119 | A proposal takes a fresh token and is held; committed state stays |
| DynamicMemory.MemoryServiceDynamic.ProposeWrite | runtime/memory-service/src/dynamic.rs:93-106 | The checks and the effect of a register write equal the atomic write on the committed state |
| DynamicMemory.MemoryServiceDynamic.ProposeBarrier | runtime/memory-service/src/dynamic.rs:107-117 | The checks and the effect of ISB, DSB and TLBI equal the atomic barrier |
| DynamicMemory.MemoryServiceDynamic.CheckGuard | runtime/memory-service/src/dynamic.rs:45-67 | The enable guard, checked byte by byte, accepts exactly when the next word is the ISB, identity-mapped executable Normal-NC in owned RAM |
| DynamicMemory.MemoryServiceDynamic.Execute | runtime/memory-service/src/dynamic.rs:124-163 | One data request: reply and RAM of the specified step, owner state unchanged |
| DynamicMemory.MemoryServiceDynamic.Flat | runtime/memory-service/src/dynamic.rs:143-162 | With the MMU off: every byte is placed before any is transferred |
| DynamicMemory.MemoryServiceDynamic.FlatPlaces | runtime/memory-service/src/dynamic.rs:147-154 | The first byte outside RAM and tables decides the refusal |
| DynamicRuns.AtomicKeeps | runtime/memory-service/src/dynamic.rs:93-117 | Every atomic operation keeps the committed invariant: window word in place, snapshots in step, regime matching the effective controls |
| DynamicRuns.InitialInv | runtime/memory-service/src/dynamic.rs:27-34 | A service starts in the owner invariant |
| DynamicRuns.ControlKeeps | runtime/memory-service/src/dynamic.rs:68-120 | Every protocol call keeps the owner invariant |
| DynamicRuns.DataKeeps | runtime/memory-service/src/dynamic.rs:124-163 | Every data request keeps the owner invariant |
| DynamicRuns.StepKeeps | runtime/memory-service/src/dynamic.rs:68-163 | Every event on any service keeps the invariant of the system of services |
| DynamicRuns.ControlRefines | runtime/memory-service/src/dynamic.rs:68-120 | A COMMIT applies exactly the prepared operation to the state PREPARE saw; every other call leaves the committed state alone |
| DynamicRuns.StepRefines | runtime/memory-service/src/dynamic.rs:68-163 | Each call is one atomic act or none, and the act is never refused |
| DynamicRuns.RunRefines | runtime/memory-service/src/dynamic.rs:68-163 | Any interleaving of phases and data requests over any services is a run of atomic operations |
| DynamicRuns.TokensCommitOnce | runtime/memory-service/src/dynamic.rs:118-119 | Over any run no two committing calls present the same token, and none presents one at a service that did not issue it |
| DynamicRuns.CommitsWhereIssued | runtime/memory-service/src/dynamic.rs:75-79 | A call that presents a token held at one service can only ever commit at that service |
| DynamicRuns.WindowFreezesRam | runtime/memory-service/src/dynamic.rs:124-133 | While anything is prepared or an enable is pending, no data request changes RAM |
| DynamicRuns.WindowFetch | runtime/memory-service/src/dynamic.rs:131-162 | In the window the well-formed fetch at the enable address yields the ISB word |
| DynamicRuns.WindowAdmits | runtime/memory-service/src/dynamic.rs:131-133 | Nothing but that fetch is answered in the window, and never with another word |
| DynamicRuns.WindowCloses | runtime/memory-service/src/dynamic.rs:107-113 | The matching ISB is never refused, turns the effective MMU on and closes the window |
| DynamicRuns.AtomicOneWay | runtime/memory-service/src/dynamic.rs:93-113 | No operation clears an M bit, and only the awaited ISB sets the effective one |
| DynamicRuns.RunOneWay | runtime/memory-service/src/dynamic.rs:68-120 | Once set, neither M bit clears on any run |
| DynamicRuns.EnabledOnlyByIsb | runtime/memory-service/src/dynamic.rs:89-113 | Whenever a run turns the effective MMU on, some event of it commits the awaited ISB |
| DynamicRuns.RunCounts | runtime/memory-service/src/dynamic.rs:84-85 | On every run the revision counts committed writes and the epoch counts effective changes |
| BlockProofs.BlockRuns | runtime/jit.c:253-677 | The emitted code of a block, from any register state and for any words, ends as the steps of this processor profile do, data processing, branches, loads and stores, thread and identification registers, and every reported word: x, SP, NZCV, thread registers, PC, RAM, FAR, retired count, status and reported word |
| BlockProofs.BlockMeetsArchitecture | runtime/jit.c:253-677 | For guest code without a departing word, whenever the model of the architecture gives every word the run reaches a meaning in this regime, the emitted block ends as the architecture alone says; in a big-endian regime every access departs |
| BlockProofs.TranslateMeets | runtime/jit.c:259-673 | One word: the emitted code does exactly what the instruction does in this profile: the architecture's effect where the model has one and the translator does not depart, the undefined report or the trap where it departs, and this program's own answer for the words and regimes outside the model |
| BlockProofs.TranslateMeetsArchitecture | runtime/jit.c:259-673 | The model of the architecture (Arm DDI 0487, section C6.2) gives a word a meaning if and only if it lies in a translated class whose meaning is given in the regime (loads and stores: EL0 or EL1, no higher control, no address tags, either byte order; branches: no address tags), and there the emitted code meets it if and only if the word does not depart: no branch through register 31, no undecoded load or store, no access where data are big-endian; nothing is claimed of the rest |
| BlockProofs.RegimeTraps | runtime/jit.c:505-509 | Every decoded load or store outside the supported regimes traps before any access: departing where data are big-endian, outside the subset in the regimes of higher levels |
| ByteOrder.ReversedLoad | runtime/jit.c:574-578 | The witness: LDR X0, [X1] with SCTLR.EE or E0E set loads the bytes in big-endian order in the architecture, and the emitted code traps |
| ByteOrder.LoadsReversed | runtime/jit.c:574-578 | What the model takes a big-endian load to be: byte j of the register comes from the j-th address from the end, and memory is unchanged |
| ByteOrder.StoresReversed | runtime/jit.c:574-578 | What it takes a big-endian store to be, byte by byte, and that nothing else changes |
| BlockProofs.Untranslated | runtime/jit.c:664-673 | Words that section C6.2 defines and no class translates (SBFM, EXTR, ADC and SBC, UDIV and SDIV, the one-source and long-multiply groups, literal and unprivileged loads and stores, SVC, BRK, HLT with another immediate) are outside the subset, and each is reported as undefined in every regime |
| BlockProofs.DivideUntranslated | runtime/jit.c:664-673 | The witness: UDIV X0, X1, X0 is outside the subset and is reported undefined |
| BlockProofs.BranchThroughZero | runtime/jit.c:653-655 | The witness: BR XZR branches to zero in the architecture and is reported undefined by the translator |
| BlockProofs.ConditionalBranchRuns | runtime/jit.c:631-637 | B.cond takes the branch exactly when the condition holds |
| BlockProofs.TestBranchRuns | runtime/jit.c:638-644 | TBZ and TBNZ test the numbered bit, low or high half |
| BlockProofs.CompareBranchRuns | runtime/jit.c:645-649 | CBZ and CBNZ compare the register at its width |
| BlockProofs.ImmediateBranchRuns | runtime/jit.c:650-652 | B and BL: target and link value |
| BlockProofs.RegisterBranchRuns | runtime/jit.c:653-660 | BR, BLR and RET keep the target across the link write |
| BlockProofs.ScalarMeets | runtime/jit.c:564-630 | Loads and stores of one register as translated, including reserved encodings and unsupported regimes |
| ScalarProofs.ScalarChecksRun | runtime/jit.c:579-630 | The emitted sequence of every load and store has the architectural effect: access and write-back, or the right fault with FAR, with the stack pointer, the alignment and the range checked in that order |
| ScalarProofs.ScalarAlignedRuns | runtime/jit.c:585-601 | Address, alignment test (none for a byte) and range: a misaligned access changes nothing |
| ScalarProofs.ScalarRangeRuns | runtime/jit.c:596-617 | The access happens if and only if it lies inside guest RAM; otherwise no register or byte changes |
| ScalarProofs.IndexRuns | runtime/jit.c:585-590 | Register offset: base plus the extended and shifted index, modulo 2^64 |
| ScalarProofs.WidenedAgrees | runtime/jit.c:586-589 | Widening and shifting the index is ExtendReg for every defined option |
| ScalarProofs.SignedLoads | runtime/jit.c:602-606 | Sign-extending loads fill the destination width and clear what is above it |
| ScalarProofs.ShortStores | runtime/jit.c:607-611 | Stores of 1, 2, 4 and 8 bytes write the low bytes of the register |
| ScalarProofs.UpdatedFromAddress | runtime/jit.c:612-616 | What write-back stores, recomputed from the address that was used |
| ScalarEmission.UndecodedPairs | runtime/jit.c:225-231 | Of the allocated integer pairs the decoder refuses exactly LDPSW and the non-temporal forms |
| ScalarProofs.ScalarValidity | runtime/jit.c:233-250 | The decoder accepts exactly the allocated encodings but the prefetches |
| BlockProofs.PairMeets | runtime/jit.c:496-563 | LDP and STP as translated, including reserved encodings and unsupported regimes |
| EncodingProofs.ClassesDisjoint | runtime/jit.c:283-663 | A word belongs to at most one instruction class, so the order of the decoder's tests does not matter |
| EncodingProofs.ExecuteByClass | runtime/jit.c:283-663 | The architecture's meaning of a word is that of its class in whatever order the classes are tested, and is absent exactly for the classes the model gives none |
| EncodingProofs.ThreadAgrees | runtime/jit.c:164-176 | Every MRS and MSR of a thread register is recognised with its register; a word recognised as one is one if and only if its bit 20, which the program does not look at, is set |
| SystemProofs.ThreadRuns | runtime/jit.c:398-412 | Reads and writes of the thread registers the level may move, register 31 as zero in both directions, flags kept |
| SystemProofs.IdentityRuns | runtime/jit.c:376-397 | A read of an identification register yields the profile's value at EL1 with no higher control set and traps otherwise, decided when the code runs |
| FlagBridge.SumFlags | runtime/jit.c:37-59 | AddWithCarry: wrapped sum, carry and signed overflow in terms of the exact sums |
| FlagBridge.AddAgrees | runtime/jit.c:37-59 | Host and guest addition agree on the result and on all four flags |
| FlagBridge.SubAgrees | runtime/jit.c:37-59 | Host and guest subtraction agree, with the guest carry the inverse of the host borrow |
| FlagBridge.ProductAgrees | runtime/jit.c:305-313 | The low half of the signed host product is the low half of the unsigned guest product |
| FlagSaving.SaveFlagsRuns | runtime/jit.c:37-59 | The whole flag-saving sequence commits exactly the four flags and changes nothing else |
| FlagSaving.ReplaceBits | runtime/jit.c:56-58 | Clearing the mask and OR-ing the flag word replaces exactly bits 31 to 28 of PSTATE |
| ConditionProofs.ConditionTestRuns | runtime/jit.c:73-92 | For every condition below AL and every flag value the emitted test leaves the host condition of its jump true exactly when the guest condition fails |
| ConditionProofs.TestSigned | runtime/jit.c:84-89 | The signed conditions, through the XOR of N and V |
| ConditionProofs.TestHigher | runtime/jit.c:81-83 | The unsigned HI and LS conditions, through one comparison |
| ConditionProofs.IfElseRuns | runtime/jit.c:284-293 | Two arms that rejoin: the host condition selects the arm |
| DataProofs.SelectRuns | runtime/jit.c:283-294 | CSEL, CSINC, CSINV and CSNEG |
| DataProofs.VariableShiftRuns | runtime/jit.c:295-304 | LSLV, LSRV, ASRV and RORV, with RCX restored; ShiftLaws.VariableShifts says what they are |
| DataProofs.CountAgrees | runtime/jit.c:296-303 | The host's count in CL, masked, is the guest's count modulo the width |
| DataProofs.MultiplyAddRuns | runtime/jit.c:305-313 | MADD and MSUB |
| DataProofs.AccumulateAgrees | runtime/jit.c:309-312 | Multiply and accumulate at the low width is the exact value reduced, for both signs |
| DataProofs.ConditionalCompareRuns | runtime/jit.c:314-327 | CCMP and CCMN, register and immediate, with the literal flags on the false path |
| DataProofs.BitfieldMoveRuns | runtime/jit.c:328-345 | BFM merges the selected bits and keeps the others |
| DataProofs.UnsignedBitfieldRuns | runtime/jit.c:346-365 | UBFM and all its aliases |
| BitfieldProofs.MaskBits | runtime/jit.c:328-365 | The two masks of DecodeBitMasks, bit by bit, for every defined bitfield encoding |
| BitfieldProofs.UnsignedAgrees | runtime/jit.c:346-365 | UBFM of the architecture writes exactly the inserted bits |
| BitfieldProofs.MergeAgrees | runtime/jit.c:328-345 | BFM of the architecture merges the inserted bits into the kept ones |
| DataProofs.LogicalImmediateRuns | runtime/jit.c:366-375 | AND, ORR, EOR and ANDS with a bitmask immediate, R31 as SP only where it is |
| DataProofs.MoveWideRuns | runtime/jit.c:413-428 | MOVZ, MOVN and MOVK |
| DataProofs.PcRelativeRuns | runtime/jit.c:429-435 | ADR and ADRP from the guest PC |
| DataProofs.LogicalShiftedRuns | runtime/jit.c:436-454 | Logical shifted register, with inversion and the MOV alias; InstructionLaws.LogicalShiftedRegisters says what it computes |
| DataProofs.AddImmediateRuns | runtime/jit.c:455-462 | ADD and SUB immediate, R31 as SP or ZR |
| DataProofs.AddExtendedRuns | runtime/jit.c:463-483 | ADD and SUB extended register |
| DataProofs.ExtendAgrees | runtime/jit.c:471-479 | The shift pair equals ExtendReg for every option and amount |
| DataProofs.AddShiftedRuns | runtime/jit.c:484-495 | ADD and SUB shifted register; InstructionLaws.AddShiftedRegisters says what they compute |
| HostOps.RunAppend | runtime/jit.c:60-70 | Emitted code is compositional: code that stays inside its own end can be followed by anything |
| LogicalMask.ComputeMask | runtime/jit.c:95-109 | The mask is the architecture's DecodeBitMasks value, and an encoding is accepted if and only if the architecture defines it |
| LogicalMask.Length | runtime/jit.c:98-99 | The shifting loop finds the highest set bit |
| LogicalMask.BuildElement | runtime/jit.c:103-106 | Two shifts build the rotated run of s+1 ones |
| LogicalMask.Fill | runtime/jit.c:107 | OR-ing shifted copies fills the width with the element |
| LogicalMask.DecodedPattern | runtime/jit.c:95-108 | An encoding is defined if and only if its shape is valid, and then its mask is that shape's pattern |
| LogicalMask.MaskShape | runtime/jit.c:95-108 | An accepted mask has the period of its element, is a rotated run of s+1 ones and is neither all zeros nor all ones |
| LogicalMask.EveryPatternEncoded | runtime/jit.c:95-108 | Every valid shape has an encoding that decodes to it |
| LogicalMask.MasksDistinct | runtime/jit.c:95-108 | Distinct (size, s, r) give distinct masks |
| PairProofs.ChecksRun | runtime/jit.c:511-563 | The emitted LDP/STP sequence has the architectural effect: transfer and writeback, or the right fault with FAR of the first failing element |
| PairProofs.AlignedRuns | runtime/jit.c:516-563 | Alignment is checked before the range, and an unaligned base changes nothing |
| PairProofs.FirstRuns | runtime/jit.c:522-550 | From the base comparison on: the transfer happens if and only if both elements lie inside RAM; otherwise no register or byte changes |
| PairProofs.SecondRuns | runtime/jit.c:530-550 | The second element must not wrap and must lie inside |
| PairProofs.TransfersRun | runtime/jit.c:538-550 | Both transfers in order, then writeback |
| PairProofs.FaultExitRuns | runtime/jit.c:552-557 | An exit stores FAR, PC, retired count and status |
| PairProofs.PairRoundTrip | runtime/jit.c:539-545 | What STP stored, LDP of the same width at the same place loads |
| CodeBuffer.Code.TranslateBlock | runtime/jit.c:258-676 | The translation loop emits the block's code, patching jumps, and reports an overflow exactly when it does not fit |
| CodeBuffer.Code.EmitWord | runtime/jit.c:259-673 | The translator's tests in its order, each emitting its own code with patched jumps, append the code of the word, and the result says whether it ends the block |
| CodeBuffer.Code.EmitData | runtime/jit.c:283-495 | The data-processing tests in order, with the report of undefined encodings |
| CodeBuffer.Code.EmitLogicalImmediate | runtime/jit.c:366-375 | The computed mask is what the emitted code uses, and an encoding without a mask is reported |
| CodeBuffer.Code.EmitIdentity | runtime/jit.c:386-397 | The two jumps of an identification read are patched to the trap and past it |
| CodeBuffer.Code.EmitSystem | runtime/jit.c:376-412 | Identification reads, thread moves and the levels that are refused |
| CodeBuffer.Code.EmitMemory | runtime/jit.c:496-578 | A load or store is reported, trapped, or emitted with its checks |
| CodeBuffer.Code.EmitPair | runtime/jit.c:496-563 | All checks of a pair with blank jumps, the transfers, the exits, and every jump patched to its exit |
| CodeBuffer.Code.EmitScalar | runtime/jit.c:564-630 | The same for one register |
| CodeBuffer.Code.CloseChecks | runtime/jit.c:557-563 | Patching three checks aims each at the one exit and changes nothing else |
| CodeBuffer.Code.EmitSelect | runtime/jit.c:283-294 | The two patched jumps of a select end where the arms are |
| CodeBuffer.Code.EmitConditionalCompare | runtime/jit.c:314-327 | The same for a conditional comparison |
| CodeBuffer.Code.EmitConditionalBranch | runtime/jit.c:631-637 | The jump over the taken exit is patched to the other exit |
| CodeBuffer.Code.EmitTestBranch | runtime/jit.c:638-644 | The same for a bit test |
| CodeBuffer.Code.EmitCompareBranch | runtime/jit.c:645-649 | The same for a comparison with zero |
| CodeBuffer.Code.FixTo | runtime/jit.c:66-69 | Patching changes one jump's displacement and nothing else |
| CodeBuffer.Code.EmitJump | runtime/jit.c:65 | A blank jump is appended and its place returned |
| RunLoop.Run | runtime/jit.c:783-822 | The run retires at most the budget and terminates, and equals the functional loop, whose interrupts InterruptLaws describes |
| RunLoop.TurnRetires | runtime/jit.c:788-820 | A turn that goes on has retired at least one instruction and at most what is left |
| RunLoop.AdvanceAgain | runtime/arch.c:525-530 | Counter ticks delivered at once or one by one leave the same timers |
| RunLoop.QuietPoll | runtime/arch.c:551-575 | With no line up and no timer enabled a poll does nothing |
| RunLoop.BlockTail | runtime/jit.c:258-675 | The tail of an undisturbed block is the block translated at its second word |
| RunLoop.BlockFirst | runtime/jit.c:776-805 | A block is its first instruction followed by the block from the second |
| RunLoop.BlockOrSingle | runtime/jit.c:792-805 | Running several instructions natively, or one and then polling, leads to the same run |
| RunLoop.LoopIgnoresBlocks | runtime/jit.c:780 | The compiled-block count influences nothing else |
| RunLoop.BatchingInvisible | runtime/jit.c:783-822 | With blocks of any size or polls before every instruction the run ends in the same state and status, apart from compiled_blocks, when no store hits its own block and the buffer suffices |
| RunLoop.SafeRunIsClean | runtime/jit.c:783-822 | A condition on the program instead of the run: if no instruction of a safe state changes the words ahead of it and safe states lead to safe states, no store hits its own block on any run from a safe state |
| RunLoop.BatchSizeInvisible | runtime/jit.c:783-822 | Under that condition any two block sizes give the same run |
| RunLoop.BatchingShows | runtime/jit.c:792-805 | The witness: a block that overwrites its own next word ends otherwise in one block than one instruction at a time |
| NativeBlocks.BlocksAgree | runtime/jit.c:258-675 | A block of the run loop is the A64 steps of the translated subset in the regime that the core's own level and controls select |
| NativeBlocks.ProfileTame | runtime/jit.c:258-675 | No native instruction changes the exception level or the controls, and no fault is reported as success or as the exit, so one translation serves a whole block |
| NativeBlocks.EmittedBlockIsLoopBlock | runtime/jit.c:776-805 | End to end: the block emitted for the guest's own level and regime, run on the host, takes the guest where a block of the run loop takes it |
| NativeBlocks.SubsetBatching | runtime/jit.c:783-805 | With the guest code in a buffer of its own, block size never shows, on any run, whatever levels and regimes its slow steps lead through |
| NativeBlocks.SubsetExists | runtime/jit.c:783-822 | Such a processor exists, meets the loop's contract, and has a slow step that changes its regime |
| ProviderRun.RunProvider | runtime/jit.c:936-1025 | The run with the native cache ends exactly as the run without it, and terminates because every turn that goes on has moved the retired count by one |
| ProviderRun.TurnRetires | runtime/jit.c:953-1021 | A turn that goes on has retired exactly one instruction: in native code when that returned normally, in the step that followed it otherwise |
| ProviderRun.TranslationReturns | runtime/jit.c:253-677 | The code of one word always returns, and has advanced the retired count by one if its status says that the word was retired and by nothing otherwise |
| ProviderRun.ContractIsMet | runtime/jit.c:936-1025 | The assumed contract of the loop's surroundings is satisfiable |
| ProviderCache.TranslationKey | runtime/jit.c:253-282 | In provider mode the code of a word depends on (pc, instruction, EL) alone |
| ProviderKeys.LevelInKey | runtime/jit.c:178-205 | EL0 and a higher level share the code of a word if and only if it is none of: a thread register EL0 may not move so, an exception return, a higher call, a wait or mask write, CPACR, or a system register EL0 may not name |
| ProviderCache.Cache.Obtain | runtime/jit.c:962-1004 | Every hit, miss and full-buffer fallback yields the translation of the key; refused if and only if it exceeds the whole buffer; every valid slot keeps holding its key's translation |
| ProviderCache.Cache.TranslateSlot | runtime/jit.c:975-1002 | A miss invalidates the victim before writing it, publishes only code that fits, and leaves the other slots intact |
| ProviderCache.Cache.TranslateWhole | runtime/jit.c:987-993 | The fallback uses the whole buffer only when no slot is valid |
| ProviderCache.Cache.Emit | runtime/jit.c:983-995 | A translation stays inside its capacity, and fits if and only if it is short enough |
| ProviderCache.Cache.Find | runtime/jit.c:967-974 | The search hits a valid slot with the key, and misses only when there is none |
| ProviderCache.Cache.SlotsApart | runtime/jit.c:970-980 | Slots are disjoint ranges of the buffer |
| ProviderCache.Cache.InvalidateAll | runtime/jit.c:989 | The fallback invalidates every slot |
| ProviderStep.Guest.DataStep | runtime/jit.c:889-921 | Every integer load and store, stepped through the physical memory service, has the architecture's effect on registers, SP and memory (Arm DDI 0487, section C6.2), or fails for the architecture's reason with the architecture's fault address |
| ProviderProofs.AnswerMeets | runtime/jit.c:889-921 | For any guest state, memory and decoded word, what the service answers and the loop commits is the instruction's effect |
| ProviderProofs.MeetsArchitecture | runtime/jit.c:223-252 | In a supported regime, wherever the model of the architecture gives the word a meaning, it is met if and only if the word is not LDPSW, LDNP, STNP or a prefetch, which are reported undefined |
| ProviderProofs.ServiceJudged | runtime/memory-service/src/lib.rs:26-69 | No reply of the service is ever judged malformed by the loop, and the judgement tells refusal, misalignment with its syndrome, and the first element outside RAM apart |
| ProviderStep.OnlyAcceptedMoves | runtime/jit.c:833-872 | Whatever a provider replies, only an accepted reply moves the guest, and accepted values fit the access width |
| ProviderStep.ModesAgree | runtime/jit.c:496-630 | For every load and store the emitted native code and the provider step move the guest alike, or fail at the same address for the same reason |
| ProviderProofs.DecodeAgrees | runtime/jit.c:223-252 | The decoder gives a shape to exactly the words this profile defines |
| ProviderProofs.IndexAgrees | runtime/jit.c:880-888 | The widened and shifted index is the architecture's extended register |
| ProviderProofs.SignAgrees | runtime/jit.c:94 | Shifting left in 32 bits and right in 64 is sign extension, for 8, 16 and 32 bits |
| ProviderProofs.PairLoads | runtime/jit.c:911-918 | Committing the two replied values is LDP with its write-back |
| ProviderProofs.PairStores | runtime/jit.c:904-918 | Storing the two requested values is STP with its write-back |
| ProviderProofs.ScalarLoads | runtime/jit.c:911-918 | Committing the replied value is the load: zero- or sign-extended to its destination width, then write-back |
| ProviderProofs.ScalarStores | runtime/jit.c:904-918 | Storing the masked value is the store, then write-back |
| ProviderProofs.ReadMemValue | runtime/memory-service/src/lib.rs:65 | The service's little-endian number is the architecture's word in memory |
| ProviderProofs.WriteIsStore | runtime/memory-service/src/lib.rs:61-63 | The service's byte stores are the architecture's word store |
| ProviderStep.Guest.Conclude | runtime/jit.c:833-873 | The checks on a reply in their order, and the commit of an accepted one |
| ProviderStep.Guest.CommitReply | runtime/jit.c:911-918 | Both destinations in order, then the base |
| ProviderStep.Guest.Request | runtime/jit.c:902-907 | The request that a load or store makes |
| ProviderStep.Guest.Offset | runtime/jit.c:880-888 | Displacement, or index register widened and shifted |
| Aic.AtMostOncePerUnmask | devices/aic_v1.c:122-129 | Over any interleaving of lines, software sets, mask writes, resets and reads from all processors, between two deliveries of one interrupt there is a write that unmasks it |
| Aic.DrainInOrder | devices/aic_v1.c:59-70 | A drain by one processor returns its eligible interrupts in increasing order, one a read, and the next read returns none |
| Aic.DeliveryMasks | devices/aic_v1.c:122-129 | A delivered interrupt was unmasked and eligible, and is masked afterwards |
| Aic.MaskedStays | devices/aic_v1.c:83-96 | Only an accepted mask-clear write unmasks |
| Aic.MaskedUntil | devices/aic_v1.c:83-96 | A masked interrupt stays masked along every run without such a write |
| Aic.RunClean | devices/aic_v1.c:9-14 | Bits at and beyond irq_count stay level 0, software 0 and masked 1 on every run |
| Aic.ApplyClean | devices/aic_v1.c:83-96 | Each operation keeps them so |
| Aic.WriteBankAt | devices/aic_v1.c:83-96 | An accepted bank write changes exactly the bits its value names, in its own bank, and refuses bits of no interrupt |
| Aic.NextEligible | devices/aic_v1.c:59-70 | The next interrupt is eligible, and there is none only when nothing is |
| Aic.EventTakesFirst | devices/aic_v1.c:122-129 | An EVENT read takes exactly the first eligible interrupt off the processor's list |
| Aic.ClearsLowest | devices/aic_v1.c:66 | AND with the predecessor clears exactly the lowest set bit |
| Aic.FirstIsNext | devices/aic_v1.c:59-70 | An eligible interrupt with none below it is the next one |
| Aic.EligibleMembers | devices/aic_v1.c:59-70 | The list a drain follows holds exactly the eligible interrupts |
| Aic.Controller.Init | devices/aic_v1.c:43-49 | Refused if and only if a count is zero or above its limit; otherwise a clean reset state |
| Aic.Controller.Reset | devices/aic_v1.c:33-41 | The reset state |
| Aic.Controller.NextIrq | devices/aic_v1.c:59-70 | The word and bit loops find the least eligible interrupt |
| Aic.Controller.ScanWord | devices/aic_v1.c:62-67 | The inner loop finds the least eligible interrupt of its word |
| Aic.Controller.Pending | devices/aic_v1.c:72 | True if and only if the processor exists and some interrupt is eligible for it |
| Aic.Controller.TakeEvent | devices/aic_v1.c:122-129 | The EVENT read: value returned and bit masked |
| Aic.Controller.DriveLine | devices/aic_v1.c:51-57 | A line change touches one level bit, and is refused beyond irq_count |
| Aic.Controller.Read | devices/aic_v1.c:98-145 | Every register read, with its width, range and processor checks |
| Aic.Controller.Write | devices/aic_v1.c:147-175 | Every register write, with its checks; refused writes change nothing |
| Aic.Controller.BankWrite | devices/aic_v1.c:83-96 | A bank write is refused as a whole when a bit names no interrupt |
| Aic.Controller.ResolveAccess | devices/aic_v1.c:16-31 | The per-processor window names its processor; other offsets use the reader's |
| Recovery.RoundTrip | devices/recovery_v1.c:62-122 | Ingesting an encoded frame with the expected number restores payload, length and flags |
| Recovery.OneByteCorruption | devices/recovery_v1.c:86-122 | A frame with one byte changed is accepted if and only if the byte lies in the flags word; a changed payload byte is always a checksum error |
| Recovery.AcceptedCount | devices/recovery_v1.c:111-119 | Over any run the accepted numbers count up by one modulo 2^32 |
| Recovery.EventCounts | devices/recovery_v1.c:94-118 | An accepted frame carries the expected number; every other event leaves the expectation |
| Recovery.StepInvertible | devices/recovery_v1.c:49-50 | The CRC bit step is a bijection on 32-bit states, with the inverse given |
| Recovery.ByteStepInjective | devices/recovery_v1.c:46-52 | One byte step separates different registers and different bytes |
| Recovery.OneByteChangesCrc | devices/recovery_v1.c:41-54 | Changing any one byte changes the CRC |
| Recovery.ComputeCrc | devices/recovery_v1.c:41-54 | The two loops compute the CRC-32 of RFC 1952 section 8 as specified by bit steps |
| Recovery.FrameFields | devices/recovery_v1.c:73-81 | Every field of a printed frame reads back |
| Recovery.FieldsAfter | devices/recovery_v1.c:96-109 | Which header words one changed byte touches |
| Recovery.EncodeFrame | devices/recovery_v1.c:62-84 | Writes exactly the frame, leaves the rest of the buffer, and refuses large payloads and small buffers without writing |
| Recovery.Transport.Ingest | devices/recovery_v1.c:86-122 | State and code are those specified; rejected frames change nothing |
| Recovery.Transport.CopyPayload | devices/recovery_v1.c:113-114 | The payload replaces a prefix of the buffer |
| Recovery.Transport.Acknowledge | devices/recovery_v1.c:124-130 | Only the ready bit changes |
| NvramProofs.RoundTrip | devices/nvram_v1.c:762-785 | For every state the object can be in, printing it and parsing the bytes restores names, values, order, parsed numbers, generation and partitions if and only if no name contains = and either the first common partition has data or it is empty and the next printed one starts with a terminator |
| NvramProofs.ParsesAs | devices/nvram_v1.c:417-458 | What parsing the print of any such state yields, restored or not |
| NvramProofs.PrintedAgain | devices/nvram_v1.c:762-785 | Whenever the round trip restores the state: print, parse, print again, byte-identical |
| NvramProofs.OneByteRefused | devices/nvram_v1.c:429-435 | Changing any one byte at offset 0x10 or later of an accepted bank makes parsing refuse it |
| NvramProofs.OneByteChangesAdler | devices/nvram_v1.c:107-118 | Changing one byte of any buffer changes its Adler-32 |
| NvramProofs.EqualsInName | devices/nvram_v1.c:223-231 | Every variable whose name contains = comes back split at the first one, under the shorter name and replacing what had it; refused when the name would be empty, the value too long or the table full |
| NvramProofs.RereadRestores | devices/nvram_v1.c:204-260 | Printed variables come back as they were, but for the flags, if and only if no name contains = |
| NvramProofs.RereadLoads | devices/nvram_v1.c:204-260 | Reading printed variables with any names is setting their split forms in order |
| NvramProofs.SplitLoads | devices/nvram_v1.c:204-260 | Reading one printed variable with any name sets its split form |
| NvramProofs.CommonRereads | devices/nvram_v1.c:762-781 | The same out of the common partition they were printed into, old bytes after the terminator included |
| NvramProofs.EmptyCommonForgets | devices/nvram_v1.c:446-452 | An empty first common partition is not printed: without another one the bank reloads as a fresh one and the generation is lost, otherwise the variables are those the next common partition happens to hold |
| NvramProofs.ReadsNothing | devices/nvram_v1.c:204-222 | Data reads as no variables if and only if it starts with a terminator |
| NvramProofs.SetHoldable | devices/nvram_v1.c:391-415 | Setting any variable, = in its name or not, leads to a state the object can be in |
| NvramProofs.UnsetHoldable | devices/nvram_v1.c:369-389 | So does removing one |
| NvramProofs.LoadedIsPrintable | devices/nvram_v1.c:417-458 | Whatever a bank loads as, it is a state a bank can carry |
| NvramProofs.SetKeeps | devices/nvram_v1.c:391-415 | Setting a variable keeps names distinct and the table within its limits |
| NvramProofs.LoadedPlain | devices/nvram_v1.c:204-260 | The variables read from any data are ones a bank can carry |
| NvramProofs.ParsedCarried | devices/nvram_v1.c:262-312 | The partitions read from any bank are ones a bank can carry |
| NvramProofs.EnvLoads | devices/nvram_v1.c:680-700 | Printed variables read back in order |
| NvramProofs.EntryLoads | devices/nvram_v1.c:659-678 | One printed variable reads back with its parsed number |
| NvramProofs.CommonLoads | devices/nvram_v1.c:762-781 | The common partition's data, old bytes after the terminator included, reads back the variables |
| NvramProofs.BankGuarded | devices/nvram_v1.c:749-759 | A printed bank passes its header checksum and its Adler-32 and carries its generation |
| NvramProofs.BankParts | devices/nvram_v1.c:719-756 | A printed bank's partitions read back, but for the empty ones |
| NvramProofs.PartsRead | devices/nvram_v1.c:270-310 | The header walk reads each printed partition and goes on to the next |
| NvramProofs.LookAtHeader | devices/nvram_v1.c:276-286 | A printed header is recognised where it was printed |
| NvramProofs.HeaderChecks | devices/nvram_v1.c:738-742 | A printed header carries its own checksum, and its length reads back |
| NvramProofs.ChecksumSkips | devices/nvram_v1.c:95-105 | The header checksum does not depend on the checksum byte |
| NvramDevice.HeaderChecksum | devices/nvram_v1.c:95-105 | The loop computes the header checksum |
| NvramDevice.ComputeAdler | devices/nvram_v1.c:107-118 | The loop computes Adler-32 (RFC 1950 section 8.2) |
| NvramDevice.ParseNumber | devices/nvram_v1.c:171-202 | Decimal, or hexadecimal after 0x, wrapping at 32 bits and stopping at the first other character |
| NvramDevice.PrepareBank | devices/nvram_v1.c:702-760 | Prints exactly the specified bank or fails exactly when it does not fit, and leaves what lies beyond it |
| NvramDevice.PrintParts | devices/nvram_v1.c:719-747 | Prints the non-empty partitions one after the other, or fails exactly when they exceed the bank |
| NvramDevice.PrintSum | devices/nvram_v1.c:758 | The sum of everything after it goes into its four bytes |
| NvramDevice.Device.EnvSet | devices/nvram_v1.c:391-415 | Replaces and appends, with the refusals of empty or long names, long values and a full table |
| NvramDevice.Device.EnvUnset | devices/nvram_v1.c:369-389 | Removes the named variable and keeps the order of the others |
| NvramDevice.Device.Find | devices/nvram_v1.c:126-138 | The first variable with the name |
| NvramDevice.Device.LoadEnvironment | devices/nvram_v1.c:204-260 | Reads the variables up to the terminator; malformed text is refused |
| NvramDevice.Device.ParsePartitions | devices/nvram_v1.c:262-312 | Walks the headers, skipping the panic partition and stopping at free space |
| NvramDevice.Device.ParseBank | devices/nvram_v1.c:417-458 | Refused banks leave the state, malformed ones empty it, others load, and what loads can be printed |
| NvramDevice.Device.SerializeTo | devices/nvram_v1.c:762-785 | Prints the state through a scratch copy: the bytes are those specified and the state is untouched |
| NvramDevice.Device.constructor | devices/nvram_v1.c:314-327 | A fresh state has one common partition of zeros, no variables and generation 0 |
| AnsRouting.RoutingFollowsLevel | devices/ans_pci_v1.c:92-214 | Under any interleaving of raises, MSI and MSI-X toggles and bindings at most one latch is set, and the delivery level is the last one raised |
| AnsRouting.PciKeeps | devices/ans_pci_v1.c:92-214 | Each operation keeps the routing invariant |
| AnsRouting.SinkShowsLevel | devices/ans_pci_v1.c:39-51 | A sink that accepts shows the delivery level after every operation |
| AnsRouting.MessageBytes | devices/ans_pci_v1.c:56-75 | A message inside the window stores the data in its two bytes and nothing else |
| AnsRouting.MessageOnlyForMsi | devices/ans_pci_v1.c:92-214 | Guest memory changes only through a message, and a message is sent only as MSI takes an interrupt |
| AnsRouting.DeliveryIsIrqCheck | devices/ans_v1.c:113-118 | On every run a bound host's delivery level is the controller's interrupt check |
| AnsRouting.AnsKeeps | devices/ans_v1.c:712-748 | Each register write, mask change, enable and binding keeps them equal |
| AnsRouting.StatusExactIff | devices/ans_v1.c:124-157 | An operation keeps the status bit exact (set if and only if tail differs from head) if and only if the head does not pass the tail and the tail does not come round to the head |
| AnsRouting.StatusExactOnRuns | devices/ans_v1.c:124-157 | On every run of such operations the status bit is exact |
| AnsRouting.CountingHost | devices/ans_v1.c:148-157 | A host that takes no more than is outstanding, with fewer than 2^16 outstanding, keeps to that |
| AnsRouting.Host.RaiseLine | devices/ans_pci_v1.c:188-214 | The raised level goes to the one enabled latch |
| AnsRouting.Host.SwitchMsi | devices/ans_pci_v1.c:92-114 | A pending interrupt moves between INTx and MSI, unless MSI-X owns delivery |
| AnsRouting.Host.SwitchMsix | devices/ans_pci_v1.c:118-141 | A pending interrupt moves into MSI-X, or back to MSI or INTx |
| AnsRouting.Host.WriteMessage | devices/ans_pci_v1.c:56-75 | The message write and its bounds checks |
| AnsRouting.Host.Sync | devices/ans_pci_v1.c:39-51 | The sink is told the level; an unbound or refusing sink changes nothing |
| AnsRouting.Controller.SubmitDoorbell | devices/ans_v1.c:717-727 | A submission that completes advances the tail, flips the phase and raises the status |
| AnsRouting.Controller.HeadDoorbell | devices/ans_v1.c:728-729 | A head that reaches the tail clears the status |
| AnsRouting.Controller.SetMask | devices/ans_v1.c:733-739 | INTMS sets mask bits and routes the new level |
| AnsRouting.Controller.ClearMask | devices/ans_v1.c:740-745 | INTMC clears mask bits and routes the new level |
| AnsRouting.Controller.ApplyEnable | devices/ans_v1.c:312-330 | Clearing EN resets doorbells, mask, status, tail and phase |
| AnsRouting.Controller.BindHost | devices/ans_v1.c:368-377 | A host left behind is deasserted, a new one takes the current level |
| FpLaws.SumOnItsSide | runtime/fp_scalar.c:54-109 | For finite operands, against the exact sum and every finite number: rounding up delivers the least number not below it or plus infinity, never minus infinity; rounding down the greatest not above it or minus infinity; towards zero always a finite number, the farthest from zero not beyond it; to nearest one that no finite number is nearer than, and an infinity exactly from half a unit past the greatest finite number; overflow and exact zeros included |
| FpLaws.QuotientOnItsSide | runtime/fp_scalar.c:54-127 | The same of the exact quotient by a non-zero divisor, counted in units of 2^-149 |
| FpLaws.RoundsUp | runtime/fp_scalar.c:54-82 | Delivery towards plus infinity on its own: the least finite number not below the exact ratio, if there is one |
| FpLaws.RoundsDown | runtime/fp_scalar.c:54-82 | Delivery towards minus infinity: the greatest finite number not above it, if there is one |
| FpLaws.RoundsInward | runtime/fp_scalar.c:54-82 | Delivery towards zero: finite, of the sign of the ratio, and the farthest from zero not beyond it |
| FpLaws.RoundsNearest | runtime/fp_scalar.c:54-82 | Delivery to nearest: infinite exactly from half a unit past the greatest finite number, and otherwise none is nearer |
| TranslationLaws.AnsweredWasTranslated | runtime/memory-service/src/stage1.rs:117-175 | A request answered OK had every byte mapped for its own access as Normal non-cacheable memory, at an owned physical address, in RAM if it was stored |
| TranslationLaws.AccessGranted | runtime/memory-service/src/stage1.rs:117-157 | A fetch answered OK was executable at its address, a load readable at every byte, a store writable at every byte |
| TranslationLaws.LoadedBytes | runtime/memory-service/src/stage1.rs:178-185 | The bytes of the replied values are those at the physical addresses of the translations, least significant first |
| TranslationLaws.StoredAt | runtime/memory-service/src/stage1.rs:178-184 | Each byte of the stored values is left at the physical address of its own translation |
| TranslationLaws.FirstFaultReplies | runtime/memory-service/src/stage1.rs:117-165 | The first byte whose own access faults, after transferable ones, decides the reply, and nothing is written |
| TranslationLaws.FaultCodes | runtime/memory-service/src/stage1.rs:65-88 | Result, fault kind, status with level, and abort syndrome of every architectural fault, in numbers |
| TranslationLaws.FailureCodes | runtime/memory-service/src/stage1.rs:65-71 | Missing tables are unavailable, other failures unsupported, and neither carries a fault record |
| TranslationLaws.MisalignedCodes | runtime/memory-service/src/stage1.rs:105-111 | A misaligned fetch, or data where alignment is checked, is answered with its own fault record before any translation |
| TranslationLaws.AcceptedIsWellFormed | runtime/memory-service/src/stage1.rs:89-104 | Whatever is not answered as malformed was well formed, field by field |
| ControlLaws.ResolvesPresented | runtime/memory-service/src/dynamic.rs:75-87 | A COMMIT or CANCEL that is answered OK or changes anything presents the token in the reply of the PREPARE that installed the proposal, and repeats the rest of its request |
| ControlLaws.OtherTokenRefused | runtime/memory-service/src/dynamic.rs:75-79 | Any other token, or any change to the request, is refused and changes nothing |
| ControlLaws.PresentedResolves | runtime/memory-service/src/dynamic.rs:75-87 | The prepared request presented with its token is always answered: COMMIT leaves the state of the atomic operation, CANCEL the committed state |
| ControlLaws.PrepareIssues | runtime/memory-service/src/dynamic.rs:89-119 | An answered PREPARE finds nothing held, returns the next token and holds its own request; a refused one changes nothing |
| ControlLaws.CancelUndoes | runtime/memory-service/src/dynamic.rs:75-119 | Cancelling what was just prepared gives the owner back as it was |
| ControlLaws.AnsweredIsCurrent | runtime/memory-service/src/dynamic.rs:69-74 | Every answered call is well formed, field by field, and names the committed registers, revision and epoch |
| ControlLaws.PrepareShows | runtime/memory-service/src/dynamic.rs:92-119 | The reply to PREPARE repeats the call and shows the proposed state |
| ControlLaws.ResolveShows | runtime/memory-service/src/dynamic.rs:80-87 | The reply to COMMIT or CANCEL repeats the call and shows the state now in effect, without a token |
| ControlLaws.HeldWasPrepared | runtime/memory-service/src/dynamic.rs:118-119 | Whatever a service holds after a run that began with nothing held was prepared by an event of that run |
| ControlLaws.ResolvesAPrepare | runtime/memory-service/src/dynamic.rs:68-119 | On every run from a system that holds nothing, an answered COMMIT or CANCEL presents the token that an earlier PREPARE of the same service was answered with, for the same request |
| ControlLaws.WriteMeans | runtime/memory-service/src/dynamic.rs:93-106 | An accepted write changes the one register its selector names, counts a revision, and happens only with the M bit clear |
| ControlLaws.WriteKeepsGranule | runtime/memory-service/src/dynamic.rs:99-100 | No accepted write changes the granules or the output size in effect |
| ControlLaws.EnableIsGuarded | runtime/memory-service/src/dynamic.rs:45-104 | The MMU is enabled only by setting the M bit of settled controls, with the four bytes of an ISB next in owned RAM, mapped by the new controls to their own address, executable and Normal non-cacheable |
| ControlLaws.BarrierMeans | runtime/memory-service/src/dynamic.rs:107-117 | ISB puts the written controls into effect as a new epoch, DSB changes nothing, TLBI counts an invalidation |
| ControlLaws.AnsweredDataIsCurrent | runtime/memory-service/src/dynamic.rs:125-133 | An answered data request names the controls in effect with nothing prepared, has both interrupts masked while written controls wait, and in the window is the fetch of the ISB |
| ControlLaws.FlatBytesMeant | runtime/memory-service/src/dynamic.rs:137-162 | With the MMU off what is loaded is at its own address, and what is stored is put there, byte by byte |
| InstructionBits.CommonFields | runtime/jit.c:259-282 | The width and the register numbers of an instruction word, as arithmetic on the word |
| InstructionBits.FieldStep | runtime/jit.c:259-282 | Every field is the binary number of its bits, and each bit is that of its mask |
| ShiftLaws.VariableShifts | runtime/jit.c:295-304 | From the four encodings written out: LSLV multiplies by 2^k at the width, LSRV divides, ASRV divides the signed value towards minus infinity, RORV moves bit i + k to bit i; k is the count modulo the width |
| ShiftLaws.LeftShiftValue | runtime/jit.c:302 | A left shift multiplies by a power of two at the width |
| ShiftLaws.RightShiftValue | runtime/jit.c:302 | A logical right shift divides by a power of two |
| ShiftLaws.ArithmeticShiftValue | runtime/jit.c:302 | An arithmetic right shift divides the signed value, rounding down |
| InstructionLaws.OperandValue | runtime/jit.c:259-282 | A register operand is the value of its register at the width, and zero for number 31 |
| InstructionLaws.ResultWritten | runtime/jit.c:259-282 | A result reaches exactly its register, with the upper half of a narrow one cleared |
| InstructionLaws.AdditionMeans | runtime/jit.c:37-59 | The sum at its width and its flags: sign, zero, carry out and signed overflow of the exact sum |
| InstructionLaws.SubtractionMeans | runtime/jit.c:37-59 | The difference at its width and its flags, with carry meaning no borrow |
| InstructionLaws.AddImmediates | runtime/jit.c:455-462 | ADD and SUB immediate as arithmetic, with the shift by 12 |
| InstructionLaws.AddShiftedRegisters | runtime/jit.c:484-495 | ADD and SUB of a register shifted by bits 23:22, as arithmetic; rotations and long counts are undefined |
| InstructionLaws.LogicalShiftedRegisters | runtime/jit.c:436-454 | The logical operations on a register shifted by bits 23:22, inverted by bit 21, bit by bit; long counts are undefined |
| ConditionLaws.ConditionsCompare | runtime/jit.c:73-92 | After a comparison the conditions are the comparisons they are named for: equal, unsigned and signed |
| ConditionLaws.ConditionalSelects | runtime/jit.c:283-294 | CSEL, CSINC, CSINV and CSNEG as arithmetic, with the sixteen conditions in the order of their codes |
| ConditionLaws.ConditionalCompares | runtime/jit.c:314-327 | CCMP and CCMN: the flags of the difference or sum, or the four flags in bits 3:0 |
| ValueLaws.MultiplyAdds | runtime/jit.c:305-313 | MADD and MSUB: the exact value at the width |
| ValueLaws.WideMoves | runtime/jit.c:413-428 | MOVZ, MOVN and MOVK: a 16-bit immediate at a multiple of 16, alone, inverted, or among the bits that were there |
| ValueLaws.AddExtendedRegisters | runtime/jit.c:463-483 | ADD and SUB of an extended register: the low bits, unsigned or signed, times a power of two up to 16 |
| ValueLaws.PcRelatives | runtime/jit.c:429-435 | ADR adds 21 signed bits to the PC, ADRP adds them as pages to its page |
| MaskLaws.BitfieldMoves | runtime/jit.c:328-365 | BFM and UBFM bit by bit: bits r to s to the bottom, or 0 to s up to bit n - r; the others kept or cleared; which encodings are defined |
| MaskLaws.LogicalImmediates | runtime/jit.c:366-375 | The logical operations on a repeating rotated run of ones, bit by bit, with register 31 as the stack pointer except for ANDS; which encodings are defined |
| BranchLaws.ConditionalBranches | runtime/jit.c:631-637 | B.cond goes 19 signed instructions away exactly when its condition holds |
| BranchLaws.TestBranches | runtime/jit.c:638-644 | TBZ and TBNZ test the bit numbered by bit 31 and bits 23:19 |
| BranchLaws.CompareBranches | runtime/jit.c:645-649 | CBZ and CBNZ compare the value of a register at its width with zero |
| BranchLaws.ImmediateBranches | runtime/jit.c:650-652 | B and BL go 26 signed instructions away, BL leaving the next address in register 30 |
| BranchLaws.RegisterBranches | runtime/jit.c:653-660 | BR, BLR and RET go to the register as it was, BLR leaving the next address in register 30 |
| AccessLaws.UnsignedOffset | runtime/jit.c:564-584 | LDR and STR with an unsigned offset in units of the access, without write-back |
| AccessLaws.UnscaledOffset | runtime/jit.c:564-584 | The unscaled forms add nine signed bits |
| AccessLaws.WriteBackOffset | runtime/jit.c:612-616 | Pre-index forms use the updated base, post-index forms the base itself; both write the updated base back |
| AccessLaws.RegisterOffset | runtime/jit.c:585-590 | The register offset, extended by its option, in units of the access when bit 12 is set |
| AccessLaws.PairPlace | runtime/jit.c:511-520 | A pair starts seven signed elements from the base, or at the base when post-indexed, and which modes write back |
| SystemLaws.IdentificationReads | runtime/jit.c:376-397 | The ten identification registers by encoding, their values in numbers, and the trap anywhere but at EL1 without higher controls |
| SystemLaws.ThreadMoves | runtime/jit.c:398-412 | The thread registers by encoding and direction, and what EL0 may not do with them |
| SystemLaws.El1RegistersStop | runtime/jit.c:178-205 | The translation, exception and status registers of EL1 by encoding: a privilege fault at EL0, a stop for the slow steps above |
| SystemLaws.FloatingPointAbsent | runtime/jit.c:178-190 | The floating-point control and status registers are undefined at every level |
| InterruptLaws.MaskedTurn | runtime/arch.c:551-575 | With a pending exception, or both lines masked and nothing routed higher, no line and no timer ends a turn |
| InterruptLaws.RoutedTurn | runtime/arch.c:554-559 | An asserted source that a higher level takes traps, whatever the masks are |
| InterruptLaws.UnmaskedTurn | runtime/arch.c:560-573 | An unmasked asserted source is always taken: the fast line before a timer, a timer before the line |
| InterruptLaws.InterruptedTurn | runtime/arch.c:551-575 | A turn that ends before its block with an interrupt status had that source up and its mask clear, nothing pending or routed, and retired nothing |
| InterruptLaws.MaskedRun | runtime/jit.c:783-822 | A run whose states all mask both lines never ends with an interrupt, whatever lines and timers are up |
| InterruptLaws.UnmaskedRun | runtime/jit.c:788-791 | A run that starts with an unmasked source up is over at once with that source taken |
| InterruptLaws.PolledEveryInstruction | runtime/jit.c:792-796 | While a line is up or a timer enabled at most one instruction retires between two polls |
| InterruptLaws.QuietBlock | runtime/jit.c:792-796 | Otherwise a block has the whole batch, or what is left of the budget |
| InterruptLaws.BlockStatus | runtime/jit.c:805-820 | What the loop does with the status of a block: 0 goes on, 8 and 13 try the slow steps, everything else is final |
| InterruptLaws.TimerComesUp | runtime/arch.c:68-82 | A timer comes up exactly when it is enabled, not masked in its control, and its 64-bit count has reached the compare value |
| ProviderLaws.RepliesJudged | runtime/jit.c:833-872 | Every reply to a load or store is one of four kinds, field by field, or is reported as invalid at the address asked for |
| ProviderLaws.OnlyCleanReplyMoves | runtime/jit.c:833-921 | The guest moves on exactly on a current, successful reply with no fault record and no more data than asked for; any other leaves registers, PC and progress alone |
| ProviderLaws.ServedIsSound | runtime/memory-service/src/lib.rs:26-47 | A request answered OK was well formed, in the supported regime, aligned and inside RAM, field by field |
| ProviderLaws.ServedBytes | runtime/memory-service/src/lib.rs:57-68 | What a fetch or load brings is the bytes of RAM at its address, least significant first |
| ProviderLaws.StoredBytes | runtime/memory-service/src/lib.rs:57-64 | A store puts its bytes at its address and changes no other byte |
| AicLaws.EventDelivers | devices/aic_v1.c:122-130 | An EVENT read returns 0x10000 plus the lowest interrupt that is asserted, unmasked and targeted at the reader, and masks exactly that one; zero, with nothing changed, only when there is none |
| AicLaws.OnlyTargeted | devices/aic_v1.c:59-70 | Only a processor that an interrupt is targeted at receives it, and never while it is masked or idle |
| AicLaws.SoftwareSetDelivers | devices/aic_v1.c:83-96 | A software set makes an unmasked, targeted interrupt deliverable: the next EVENT read of its target returns it, if none is before it |
| AicLaws.UnmaskDelivers | devices/aic_v1.c:83-96 | Clearing the mask of an asserted, targeted interrupt delivers it again |
| AicLaws.LineDelivers | devices/aic_v1.c:51-57 | Raising a line makes its interrupt deliverable when unmasked and targeted, lowering it withdraws it unless software asserts it, and no other interrupt is affected |
| AicLaws.BankWrites | devices/aic_v1.c:83-96 | The four bank writes by offset: each changes the named bit of its bank and nothing else |
| AicLaws.TargetWrites | devices/aic_v1.c:164-169 | A target write by offset, refused exactly when it names a processor that does not exist |
| AicLaws.ResetSilences | devices/aic_v1.c:33-41 | A reset masks every interrupt and targets it at processor 0 alone |
| AicLaws.WindowReads | devices/aic_v1.c:16-31 | The private window of a processor shows its own EVENT register to whoever reads it |
| AicLaws.InfoReads | devices/aic_v1.c:106-121 | Revision, counts and identity in numbers |
| AicLaws.PendingReads | devices/aic_v1.c:138-143 | The pending words show what lines and software assert, masked or not |
| RecoveryLaws.RegisterIsRemainder | devices/recovery_v1.c:41-54 | The register after a message is the remainder of the message times x^32, with the start added to its first coefficients, on long division by the polynomial of section 8 of RFC 1952 |
| RecoveryLaws.CrcIsRemainder | devices/recovery_v1.c:41-54 | CRC-32 is the complement of that remainder with the first 32 bits of the message complemented |
| RecoveryLaws.PolynomialIsGenerator | devices/recovery_v1.c:50 | The constant of the program is that polynomial, by its exponents |
| RecoveryLaws.EncodedIsFrame | devices/recovery_v1.c:62-84 | An encoded frame byte by byte: the letters VFR1, number, flags, length, CRC and payload |
| RecoveryLaws.AcceptedIsFrame | devices/recovery_v1.c:86-109 | Bytes are accepted if and only if they are such a frame with the expected number and at most 1024 bytes of payload |
| NvramLaws.AdlerClosed | devices/nvram_v1.c:107-118 | Adler-32 in closed form: one plus the bytes, and the sum of those sums, each modulo 65521 |
| NvramLaws.ChecksumMeans | devices/nvram_v1.c:95-105 | The header checksum is the one's complement sum of the other fifteen bytes |
| NvramLaws.DecimalRead | devices/nvram_v1.c:171-202 | A value that starts with a decimal numeral is parsed as its number modulo 2^32, whatever follows that is not a digit |
| NvramLaws.HexadecimalRead | devices/nvram_v1.c:171-202 | After 0x or 0X, the number of the hexadecimal numeral in either case |
| NvramLaws.BankBytes | devices/nvram_v1.c:702-760 | The bytes of a printed bank: signature, sums, name, generation and padding |
| NvramLaws.PartitionBytes | devices/nvram_v1.c:719-747 | The bytes of a printed partition: signature, checksum, length in units, name, data and zeros |
| NvramLaws.VariableBytes | devices/nvram_v1.c:659-678 | The bytes of a printed variable: name, equals sign, value and terminator |
| AnsLaws.MaskSilences | devices/ans_v1.c:733-739 | Setting bit 0 of the mask silences the host whatever is pending, and the pending status stays |
| AnsLaws.UnmaskRestores | devices/ans_v1.c:740-745 | Clearing it delivers what is pending to the latch that the enables select |
| AnsLaws.OtherBitsIgnored | devices/ans_v1.c:113-118 | No other bit of the mask matters |
| AnsLaws.CompletionDelivers | devices/ans_v1.c:124-145 | An accepted completion is pending, and delivered at once unless masked |
| AnsLaws.DrainWithdraws | devices/ans_v1.c:148-157 | A head that reaches the tail withdraws the interrupt, any other leaves it |
| AnsLaws.MaskedRunSilent | devices/ans_v1.c:712-748 | Once bit 0 is set the host stays silent on every run that neither clears it nor disables the controller |
| AnsLaws.MaskedCompletionDelivered | devices/ans_v1.c:733-745 | A completion taken while masked is delivered by the write that clears the mask |
| FpLaws.NanDecides | runtime/fp_scalar.c:32-37 | In numbers: a not-a-number operand gives the first signalling one with bit 22 set, or the first as it is, and is invalid exactly when one signals |
| FpLaws.InvalidOperations | runtime/fp_scalar.c:86-113 | Opposite infinities added, infinities or zeros divided: 0x7fc00000 and the invalid flag |
| FpLaws.ZeroSumSign | runtime/fp_scalar.c:91-105 | The sign of an exact zero sum: that of its operands if they agree, otherwise negative only when rounding down |
| FpLaws.DivisionByZero | runtime/fp_scalar.c:117 | A finite non-zero number by zero: an infinity of the sign of the quotient, with its own flag |
| ControlLaws.MappedServes | runtime/memory-service/src/dynamic.rs:134-136 | With the MMU on an answered request is what the mapped service answers under the controls in effect |
| ControlLaws.StartShows | runtime/memory-service/src/dynamic.rs:27-34 | The state a service starts in, field by field |
| TranslationLaws.SpansApart | runtime/memory-service/src/stage1.rs:43-50 | The spans of RAM and tables are accepted exactly when no address is in both |
| ProviderLaws.ServedMisaligned | runtime/memory-service/src/lib.rs:40-47 | The codes of a misaligned request, for fetches and for data |
| ProviderLaws.RefusedChangesNothing | runtime/memory-service/src/lib.rs:26-56 | A request that is not answered leaves RAM alone and brings no data |
| NvramLaws.SettingLimits | devices/nvram_v1.c:391-415 | The limits of a name, a value and the table, in numbers, and where a set variable goes |
| NvramLaws.UnsettingKeeps | devices/nvram_v1.c:369-389 | Removing takes the first variable of the name and keeps the others in order |
| NvramLaws.CommonMade | devices/nvram_v1.c:770-774 | The common partition that is made when there is none, and when there is no room for it |
| NvramLaws.FreeSpace | devices/nvram_v1.c:749-756 | The free partition that fills the rest of a bank |
| AnsLaws.DisableForgets | devices/ans_v1.c:312-330 | Disabling forgets the queue, the mask and what is pending, and sets the next phase; enabling keeps them |
| AccessLaws.AccessWidth | runtime/jit.c:564-578 | The access width from bits 31:30 and the kind of access from bits 23:22 |
| NvramLaws.CommonName | devices/nvram_v1.c:762-781 | A partition is the common one when its name starts with "common" and a terminator |
| InterruptLaws.BudgetEnds | runtime/jit.c:821 | A run without budget left ends at once with the budget status |

## Left out

- The MMU walker's internals: translation is a deterministic function of registers, address, access and level that either fails or keeps the page offset, with one outcome and one set of attributes per page and a writable byte readable at the same place. `Stage1.ContractIsMet` shows that this contract can be met. The table read counter and the provenance of cached translations are not modelled.
- Host pointer alignment, aliasing and null checks of the C interfaces.
- FpScalar.Fp32State.Result: the status word is a set of flags, so the bit positions of the flags are not stated.
- Raw x86 encodings: code is a list of abstract operations, and buffer capacities count operations, not bytes. CPUID, page protection changes and their failures are not modelled.
- BlockProofs.BlockRuns: loads and stores of provider mode end the block and are handed to the caller, whose step is ProviderStep; words outside the subset have the meaning this program gives them. Guest code is fixed while a block runs.
- BlockProofs.TranslateMeets: outside the subset the profile is the program's own: identification values, traps, undefined instructions that section C6.2 defines, and addresses used with their tags.
- BlockProofs.TranslateMeetsArchitecture: the regimes of higher levels (EL2, EL3, HCR_EL2 or SCR_EL3 set) and address tagging have no meaning in the model of the architecture, and the MMU is off, as every native entry demands.
- ProviderStep.Guest.DataStep: only the physical service stands behind the callback; a callback that itself fails is left out, recording the exception always succeeds (the loop starts with none pending), and of that record only the fault address and the syndrome are kept.
- ProviderProofs.AnswerMeets: when the endianness control makes the regime unsupported, the provider path fails without moving the guest where native code traps; only that is stated.
- The floating-point execution build and the SIMD register bank wrappers.
- RunLoop.Run: exception entry, the slow steps for system registers and pointer authentication, and the state validity check are parameters; a full code buffer and protection failures are not modelled, and the retired count is unbounded there.
- ProviderRun.RunProvider: polling, fetching and dispatch are parameters under a contract on the retired count (a step in software that lets the run go on retires one instruction); protection failures are not modelled.
- ProviderProofs.MeetsArchitecture: stated for the supported regimes; where data are big-endian the provider refuses what the architecture would perform.
- `vf_cpu_raise_exception`, `vf_cpu_take_exception` and the system register banks of `runtime/arch.c`.
- NvramDevice.Device.ParsePartitions: the copy of a partition name takes 15 bytes where the header stores 12; the model keeps the 12 stored bytes, which is what printing writes back.
- NVRAM file and block backends and the boot-args handoff.
- The recovery device's register window.
- AnsRouting.Controller.SubmitDoorbell: whether an armed Identify completes (queue bindings, descriptor pointers, direct memory access) is a parameter, and the completion entry's bytes are not modelled; each posted entry flips the phase, as in the program.
- AnsRouting.Host.WriteMessage: the callback form of message delivery is left out, only the bound memory window is modelled. Whether the interrupt controller accepts a level is a parameter.
- Storage, DART, SART, UART, SMC, SEP, mailbox and the other single-branch device stubs, and the Rust front-end decoders: they would add easy members.
