/** The translated subset as the processor of the run loop: emitted blocks are the loop's blocks. */
module NativeBlocks {
  import opened Basics
  import opened PowersOfTwo
  import opened Words
  import opened A64
  import HostOps
  import ScalarEmission
  import SystemEmission
  import Translator
  import BlockProofs
  import RunLoop

  datatype Core = Core(state: State, pc: Word)

  /** Code of a block status; words handed over carry the private dispatcher signal. */
  function StatusCode(s: Status): (n: nat)
  {
    match s
    case Next => RunLoop.NEXT
    case Halt => RunLoop.HALT
    case UndefinedInstruction => RunLoop.UNDEFINED_INSTRUCTION
    case PrivilegeFault => RunLoop.PRIVILEGE_FAULT
    case SystemRegisterTrap => RunLoop.SYSTEM_REGISTER_TRAP
    case InstructionAbort => RunLoop.INSTRUCTION_ABORT
    case DataAbort => 17
    case AlignmentFault => 12
    case SpAlignmentFault => 19
    case Handover => 0x7fff_fffe
  }

  /** The exception level and the controls, which only slow steps change. */
  predicate SameControls(r: State, t: State)
  {
    var a, b := r.special, t.special;
    a.level == b.level && a.hcr == b.hcr && a.scr == b.scr && a.sctlr == b.sctlr && a.tcr == b.tcr
  }

  /** What every effect owes: the controls are kept, and a fault is reported neither as success nor as the exit. */
  predicate Tame(r: State, e: Effect)
  {
    SameControls(r, e.state) && (e.Fault? ==> !e.status.Next? && !e.status.Halt?)
  }

  lemma ImmediateFaults(r: State, pc: nat, w: bv32)
    ensures Tame(r, BitfieldMove(r, w, true)) && Tame(r, BitfieldMove(r, w, false))
    ensures Tame(r, LogicalImmediate(r, w)) && Tame(r, MoveWide(r, w))
    ensures Tame(r, PcRelative(r, pc, w)) && Tame(r, AddImmediate(r, w))
  {
    hide X, XSP, SetX, SetXSP, SetNzcv, FromInt, FromNat, Shift, Logic, Field, DecodeBitMasks, AddWithCarry;
  }

  lemma RegisterFaults(r: State, w: bv32)
    ensures Tame(r, LogicalShifted(r, w)) && Tame(r, AddShifted(r, w)) && Tame(r, AddExtended(r, w))
    ensures Tame(r, ConditionalCompare(r, w)) && Tame(r, ConditionalSelect(r, w))
    ensures Tame(r, VariableShift(r, w)) && Tame(r, MultiplyAdd(r, w))
  {
    hide X, XSP, SetX, SetXSP, SetNzcv, FromInt, FromNat, Shift, Logic, Field, AddWithCarry, ExtendReg, ConditionHolds, GetNzcv;
  }

  lemma PairFaults(r: State, cfg: Config, w: bv32)
    ensures Tame(r, LoadStore(r, cfg, w))
  {
    hide Field, Val, FromNat, MovePair, WriteBackPair, Pow2, PairAllocated;
  }

  lemma MemoryFaults(r: State, cfg: Config, w: bv32)
    ensures Tame(r, LoadStoreWord(r, cfg, w))
  {
    hide Field, Val, FromNat, MoveScalar, WriteBackScalar, ScalarAddress, Inside, Pow2, IsPair, ScalarAllocated, IsPrefetch, LoadStore;
    PairFaults(r, cfg, w);
  }

  lemma BranchFaults(r: State, pc: nat, w: bv32)
    ensures Tame(r, ConditionalBranch(r, pc, w)) && Tame(r, TestBranch(r, pc, w)) && Tame(r, CompareBranch(r, pc, w))
    ensures Tame(r, ImmediateBranch(r, pc, w)) && Tame(r, RegisterBranch(r, pc, w))
  {
    hide X, SetX, FromInt, Field, ConditionHolds, GetNzcv;
  }

  lemma ThreadFaults(r: State, el: nat, w: bv32, t: ThreadRegister)
    ensures Tame(r, MoveThread(r, el, w, t))
  {
    hide X, SetX, GetThread, Field;
  }

  lemma ImmediateReal(r: State, pc: nat, w: bv32)
    ensures var e := ExecuteImmediate(r, pc, w); e.Some? ==> Tame(r, e.value)
  {
    hide LoadStoreWord, MoveThread, ThreadMoved, Matches, IsMoveWide, IsRegisterBranch, IsMemory, Field, IsPcRelative, IsAddImmediate, IsLogicalImmediate, IsBitfieldMove,
      IsUnsignedBitfieldMove, IsConditionalBranch, IsImmediateBranch, IsCompareBranch, IsTestBranch,
      IsLogicalShifted, IsAddShifted, IsAddExtended, IsConditionalCompare, IsConditionalSelect, IsVariableShift, IsMultiplyAdd,
      PcRelative, AddImmediate, LogicalImmediate, MoveWide, BitfieldMove, ConditionalBranch, RegisterBranch,
      ImmediateBranch, CompareBranch, TestBranch, LogicalShifted, AddShifted, AddExtended, ConditionalCompare,
      ConditionalSelect, VariableShift, MultiplyAdd, Tame;
    ImmediateFaults(r, pc, w);
  }

  lemma RegisterReal(r: State, w: bv32)
    ensures var e := ExecuteRegister(r, w); e.Some? ==> Tame(r, e.value)
  {
    hide LoadStoreWord, MoveThread, ThreadMoved, Matches, IsMoveWide, IsRegisterBranch, IsMemory, Field, IsPcRelative, IsAddImmediate, IsLogicalImmediate, IsBitfieldMove,
      IsUnsignedBitfieldMove, IsConditionalBranch, IsImmediateBranch, IsCompareBranch, IsTestBranch,
      IsLogicalShifted, IsAddShifted, IsAddExtended, IsConditionalCompare, IsConditionalSelect, IsVariableShift, IsMultiplyAdd,
      PcRelative, AddImmediate, LogicalImmediate, MoveWide, BitfieldMove, ConditionalBranch, RegisterBranch,
      ImmediateBranch, CompareBranch, TestBranch, LogicalShifted, AddShifted, AddExtended, ConditionalCompare,
      ConditionalSelect, VariableShift, MultiplyAdd, Tame;
    RegisterFaults(r, w);
  }

  lemma BranchReal(r: State, pc: nat, w: bv32)
    ensures var e := ExecuteBranch(r, pc, w); e.Some? ==> Tame(r, e.value)
  {
    hide LoadStoreWord, MoveThread, ThreadMoved, Matches, IsMoveWide, IsRegisterBranch, IsMemory, Field, IsPcRelative, IsAddImmediate, IsLogicalImmediate, IsBitfieldMove,
      IsUnsignedBitfieldMove, IsConditionalBranch, IsImmediateBranch, IsCompareBranch, IsTestBranch,
      IsLogicalShifted, IsAddShifted, IsAddExtended, IsConditionalCompare, IsConditionalSelect, IsVariableShift, IsMultiplyAdd,
      PcRelative, AddImmediate, LogicalImmediate, MoveWide, BitfieldMove, ConditionalBranch, RegisterBranch,
      ImmediateBranch, CompareBranch, TestBranch, LogicalShifted, AddShifted, AddExtended, ConditionalCompare,
      ConditionalSelect, VariableShift, MultiplyAdd, Tame;
    BranchFaults(r, pc, w);
  }

  lemma ExecutesReal(r: State, pc: nat, cfg: Config, w: bv32)
    ensures var e := Execute(r, pc, cfg, w); e.Some? ==> Tame(r, e.value)
  {
    hide ExecuteImmediate, ExecuteRegister, ExecuteBranch, LoadStoreWord, MoveThread, ThreadMoved, IsMemory;
    ImmediateReal(r, pc, w);
    RegisterReal(r, w);
    BranchReal(r, pc, w);
    MemoryFaults(r, cfg, w);
    if ThreadMoved(w).Some? { ThreadFaults(r, cfg.el, w, ThreadMoved(w).value); }
  }

  /** Whatever a native instruction does in this profile, it keeps the controls. */
  lemma ProfileTame(r: State, pc: nat, cfg: Config, w: bv32)
    ensures Tame(r, BlockProofs.Profile(r, pc, cfg, w))
  {
    hide Execute, BlockProofs.BranchesThroughZero, LoadStoreWord, MoveThread, IsMemory, SystemEmission.ThreadOf, SystemEmission.IsIdentity,
      SystemEmission.ControlAbsent, SystemEmission.KnownPrivileged, IsSystem, SystemEmission.IsExceptionReturn, SystemEmission.IdentityValue, IsZero, Or,
      Field, Accesses, ScalarEmission.Undecoded;
    ExecutesReal(r, pc, cfg.(tagged := false), w);
    MemoryFaults(r, cfg, w);
    if SystemEmission.IsThread(w) { ThreadFaults(r, cfg.el, w, SystemEmission.ThreadOf(w).value); }
  }

  /** One word, in the regime that the core's own controls select. */
  function ExecWord(g: Translator.Guest, c: Core, w: bv32): (effect: RunLoop.Effect<Core>)
  {
    var pc, cfg := Val(c.pc), Regime(c.state, g.base);
    ProfileTame(c.state, pc, cfg, w);
    match BlockProofs.Profile(c.state, pc, cfg, w)
    case Through(r) => RunLoop.Through(c.(state := r, pc := FromInt(pc + 4, 64)))
    case Jump(r, target) => RunLoop.Jump(c.(state := r, pc := target))
    case Exit(r) => RunLoop.Exit(c.(state := r, pc := FromInt(pc + 4, 64)))
    case Fault(r, status) => RunLoop.Fault(c.(state := r), StatusCode(status))
  }

  function WordAt(g: Translator.Guest, c: Core, k: nat): (r: Option<bv32>)
  {
    Translator.Fetch(g, (Val(c.pc) + 4 * k) % Pow2(64))
  }

  /** A processor whose native instructions are the translated subset over fixed guest code, at any level and in any regime. */
  predicate RunsSubset(p: RunLoop.Processor<Core>, g: Translator.Guest, c: Core, k: nat, w: bv32)
  {
    p.fetchAt(c, k) == WordAt(g, c, k) && p.exec(c, w) == ExecWord(g, c, w) && p.abort(c) == c
  }

  lemma OnePast(pc: Word)
    ensures Val(FromInt(Val(pc) + 4, 64)) == (Val(pc) + 4) % Pow2(64)
  {
    hide Val, FromNat, Pow2;
    var v := (Val(pc) + 4) % Pow2(64);
    ValFromNat(v, 64);
    ModUnique(v, Pow2(64), 0, v);
  }

  lemma WrapTwice(a: nat, b: nat)
    ensures (a % Pow2(64) + b) % Pow2(64) == (a + b) % Pow2(64)
  {
    hide Pow2;
    var m := Pow2(64);
    var r := (a % m + b) % m;
    var q, t := a / m, (a % m + b) / m;
    assert a + b == m * q + (m * t + r);
    assert m * (q + t) == m * q + m * t;
    ModUnique(a + b, m, q + t, r);
  }

  /** The program counter k words on, modulo its width. */
  lemma NextWord(c0: Core, c: Core, k: nat)
    requires Val(c.pc) == (Val(c0.pc) + 4 * k) % Pow2(64)
    ensures Val(FromInt(Val(c.pc) + 4, 64)) == (Val(c0.pc) + 4 * (k + 1)) % Pow2(64)
    ensures Val(FromInt(Val(c.pc) + 4, 64)) == (Val(c.pc) + 4) % Pow2(64)
  {
    hide Val, FromNat, Pow2;
    OnePast(c.pc);
    WrapTwice(Val(c0.pc) + 4 * k, 4);
  }

  lemma PcWord(pc: Word)
    ensures FromInt(Val(pc), 64) == pc
  {
    hide Val, FromNat;
    ValBound(pc);
    ModUnique(Val(pc), Pow2(64), 0, Val(pc));
    FromNatVal(pc);
  }

  /** Where a block of the loop stops is where the instruction-by-instruction run stops. */
  predicate Agrees(b: RunLoop.BlockStop<Core>, s: BlockProofs.Stop, c: Core, k: nat)
  {
    && b.core == Core(s.state, s.pc)
    && b.retired == k + s.retired && b.status == StatusCode(s.status)
  }

  /** A native instruction keeps the regime. */
  lemma RegimeKept(r: State, t: State, base: u64)
    requires SameControls(r, t)
    ensures Regime(t, base) == Regime(r, base)
  {
    hide IsZero, BigEndianData, ChecksStack;
  }

  lemma {:induction false} BlocksAgree(p: RunLoop.Processor<Core>, g: Translator.Guest, c0: Core, c: Core, k: nat, limit: nat, cfg: Config)
    requires forall d: Core, j: nat, w: bv32 :: RunsSubset(p, g, d, j, w)
    requires k <= limit && Val(c.pc) == (Val(c0.pc) + 4 * k) % Pow2(64) && cfg == Regime(c.state, g.base)
    ensures Agrees(RunLoop.Block(p, c0, c, k, limit), BlockProofs.Steps(g, c.state, Val(c.pc), limit - k, cfg), c, k)
    decreases limit - k
  {
    hide Val, FromNat, Pow2, BlockProofs.Profile, Translator.Fetch, Regime;
    PcWord(c.pc);
    if k < limit {
      assert RunsSubset(p, g, c0, k, 0);
      assert RunsSubset(p, g, c, k, 0);
      var w := Translator.Fetch(g, Val(c.pc));
      assert p.fetchAt(c0, k) == w;
      if w.Some? {
        assert RunsSubset(p, g, c, k, w.value);
        var effect := BlockProofs.Profile(c.state, Val(c.pc), cfg, w.value);
        if effect.Through? {
          var c' := ExecWord(g, c, w.value).core;
          NextWord(c0, c, k);
          ProfileTame(c.state, Val(c.pc), cfg, w.value);
          RegimeKept(c.state, c'.state, g.base);
          BlocksAgree(p, g, c0, c', k + 1, limit, cfg);
        }
      }
    }
  }

  /**
   * End to end: the code of a block, emitted for the regime that the guest's controls select and run on the host, takes
   * the guest exactly where a block of the run loop takes it.
   */
  lemma EmittedBlockIsLoopBlock(p: RunLoop.Processor<Core>, g: Translator.Guest, limit: nat, h: HostOps.Host)
    requires forall d: Core, j: nat, w: bv32 :: RunsSubset(p, g, d, j, w)
    requires limit > 0 && h.rcx.Pointer?
    ensures var c := Core(h.cpu.state, h.cpu.pc);
      var b := RunLoop.Block(p, c, c, 0, limit);
      var o := HostOps.Run(Translator.Block(g, Val(h.cpu.pc), 0, limit, Regime(h.cpu.state, g.base)), h);
      && o.Done? && StatusCode(o.status) == b.status
      && o.h.cpu == HostOps.Cpu(b.core.state, b.core.pc, (h.cpu.retired + b.retired) % Pow2(64))
  {
    hide Val, FromNat, Pow2, BlockProofs.Steps, RunLoop.Block, Translator.Block, HostOps.Run, Regime;
    var c := Core(h.cpu.state, h.cpu.pc);
    var cfg := Regime(h.cpu.state, g.base);
    assert Val(c.pc) == (Val(c.pc) + 4 * 0) % Pow2(64) by {
      ValBound(c.pc);
      ModUnique(Val(c.pc), Pow2(64), 0, Val(c.pc));
    }
    BlocksAgree(p, g, c, c, 0, limit, cfg);
    BlockProofs.BlockRuns(g, Val(h.cpu.pc), 0, limit, cfg, h);
  }

  // ---------- Batching ----------

  /** The words ahead are where the program counter says, whatever else has changed. */
  lemma WordsAhead(p: RunLoop.Processor<Core>, g: Translator.Guest, c: Core, c': Core, k: nat)
    requires forall d: Core, j: nat, w: bv32 :: RunsSubset(p, g, d, j, w)
    requires Val(c'.pc) == (Val(c.pc) + 4) % Pow2(64)
    ensures p.fetchAt(c', k) == p.fetchAt(c, k + 1)
  {
    hide Val, FromNat, Pow2, ExecWord, Translator.Fetch;
    assert RunsSubset(p, g, c', k, 0) && RunsSubset(p, g, c, k + 1, 0);
    WrapTwice(Val(c.pc) + 4, 4 * k);
  }

  lemma ThroughMovesOn(g: Translator.Guest, c: Core, w: bv32)
    ensures ExecWord(g, c, w).Through? ==> Val(ExecWord(g, c, w).core.pc) == (Val(c.pc) + 4) % Pow2(64)
  {
    hide Val, FromInt, Pow2, BlockProofs.Profile, StatusCode, Regime;
    OnePast(c.pc);
  }

  /** Code in a buffer of its own stays put: falling through moves the program counter and leaves the words ahead. */
  lemma SubsetStays(p: RunLoop.Processor<Core>, g: Translator.Guest, c: Core)
    requires forall d: Core, j: nat, w: bv32 :: RunsSubset(p, g, d, j, w)
    ensures RunLoop.StaysSafe(p, (d: Core) => true, c)
  {
    hide Val, Pow2, ExecWord, WordAt;
    var w := p.fetchAt(c, 0);
    if w.Some? {
      assert RunsSubset(p, g, c, 0, w.value);
      hide RunsSubset;
      ThroughMovesOn(g, c, w.value);
      var effect := ExecWord(g, c, w.value);
      if effect.Through? {
        forall k: nat | true ensures p.fetchAt(effect.core, k) == p.fetchAt(c, k + 1) {
          WordsAhead(p, g, c, effect.core, k);
        }
      }
    }
  }

  /**
   * The translated subset over code in a buffer of its own: native blocks of any size, on any run, are invisible;
   * nothing is asked of the run itself.
   */
  lemma SubsetBatching(p: RunLoop.Processor<Core>, g: Translator.Guest, m: RunLoop.Machine<Core>, left: nat, batch: nat)
    requires forall d: Core, j: nat, w: bv32 :: RunsSubset(p, g, d, j, w)
    requires RunLoop.Contract(p) && batch > 0
    ensures RunLoop.Same(RunLoop.Loop(p, m, left, batch), RunLoop.Loop(p, m, left, 1))
  {
    hide RunsSubset, RunLoop.StaysSafe, RunLoop.Loop, RunLoop.Contract, RunLoop.CleanRun;
    var safe := (d: Core) => true;
    forall c: Core | safe(c) ensures RunLoop.StaysSafe(p, safe, c) {
      SubsetStays(p, g, c);
    }
    RunLoop.BatchSizeInvisible(p, safe, m, left, batch, 1);
  }

  // ---------- A processor of this kind ----------

  /** MSR SCTLR_EL1, XZR: the slow step that clears the controls of EL1, byte order and stack check among them. */
  const CLEAR_CONTROLS: bv32 := 0xd518_101f

  function ClearControls(c: Core): (core: Core)
  {
    c.(state := c.state.(special := c.state.special.(sctlr := 0)), pc := FromInt(Val(c.pc) + 4, 64))
  }

  predicate MmuOn(c: Core) { c.state.special.sctlr & 1 != 0 }

  /** The subset over this code, never interrupted, with one slow step that changes the regime. */
  function SubsetProcessor(g: Translator.Guest): (processor: RunLoop.Processor<Core>)
  {
    RunLoop.Processor(
      (c: Core, k: nat) => WordAt(g, c, k),
      (c: Core, w: bv32) => ExecWord(g, c, w),
      c => c,
      c => RunLoop.Masks(false, false, true, true),
      (c: Core) => MmuOn(c),
      (c: Core) => c.state.special.level <= 3,
      (c, status) => c,
      c => c,
      (c, status) => None,
      (c: Core, t: RunLoop.Timers) => if c.state.special.level == 1 && c.state.instruction == CLEAR_CONTROLS then Some((ClearControls(c), t)) else None,
      (c, status) => (c, status))
  }

  /** Such processors exist, and they admit native execution throughout a block. */
  lemma SubsetExists(g: Translator.Guest)
    ensures var p := SubsetProcessor(g);
      && RunLoop.Contract(p)
      && (forall d: Core, j: nat, w: bv32 :: RunsSubset(p, g, d, j, w))
      && exists c: Core, t: RunLoop.Timers :: p.slow(c, t).Some? && Regime(p.slow(c, t).value.0.state, g.base) != Regime(c.state, g.base)
  {
    hide BlockProofs.Profile, Regime, WordAt, Val, FromInt;
    var p := SubsetProcessor(g);
    forall c: Core, w: bv32 | true ensures RunLoop.KeepsControls(p, c, w) {
      ProfileTame(c.state, Val(c.pc), Regime(c.state, g.base), w);
    }
    SlowChanges(g);
  }

  /** A core at EL1 with big-endian data, about to clear its controls. */
  function ReversedCore(): (core: Core)
  {
    var z := Zeros(64);
    Core(State(seq(31, i => z), z, z, z, CLEAR_CONTROLS, [], Special(z, z, z, 1, z, z, 0x200_0000, 0)), z)
  }

  lemma OrderCleared()
    ensures BigEndianData(1, 0x200_0000) && !BigEndianData(1, 0)
  {
  }

  lemma ClearedRegime(base: u64)
    ensures Regime(ClearControls(ReversedCore()).state, base) != Regime(ReversedCore().state, base)
  {
    hide FromInt, Val, BigEndianData, ChecksStack, IsZero;
    OrderCleared();
  }

  lemma SlowChanges(g: Translator.Guest)
    ensures var p := SubsetProcessor(g);
      exists c: Core, t: RunLoop.Timers :: p.slow(c, t).Some? && Regime(p.slow(c, t).value.0.state, g.base) != Regime(c.state, g.base)
  {
    hide ExecWord, WordAt, Regime, ClearControls;
    var off := RunLoop.Control(false, false, false);
    var t := RunLoop.Timers(0, 0, off, 0, off, 0, 0);
    var p := SubsetProcessor(g);
    ClearedRegime(g.base);
    assert p.slow(ReversedCore(), t) == Some((ClearControls(ReversedCore()), t));
  }
}
