/**
 * The bounded run loop (runtime/jit.c, vf_run): interrupts are polled between native blocks of
 * up to 32 instructions. The instruction set, exception entry and the slow steps are parameters.
 */
module RunLoop {
  import opened Basics

  const NEXT := 0
  const HALT := 1
  const DATA_FAULT := 4
  const BUDGET := 5
  const UNDEFINED_INSTRUCTION := 8
  const PRIVILEGE_FAULT := 9
  const SYSTEM_REGISTER_TRAP := 13
  const TIMER_INTERRUPT := 14
  const EXTERNAL_INTERRUPT := 15
  const INSTRUCTION_ABORT := 16
  const FIQ_INTERRUPT := 18

  const BATCH := 32

  // ---------- Timers ----------

  datatype Control = Control(enable: bool, imask: bool, istatus: bool)

  datatype Timers = Timers(pct: nat, vct: nat, p: Control, pCval: nat, v: Control, vCval: nat, pTval: nat)

  function UpdateStatus(t: Timers): (timers: Timers)
  {
    t.(p := t.p.(istatus := t.p.enable && !t.p.imask && t.pct >= t.pCval),
       v := t.v.(istatus := t.v.enable && !t.v.imask && t.vct >= t.vCval),
       pTval := if t.pCval >= t.pct then t.pCval - t.pct else 0)
  }

  function Advance(t: Timers, ticks: nat): (timers: Timers)
  {
    UpdateStatus(t.(pct := (t.pct + ticks) % 0x1_0000_0000_0000_0000, vct := (t.vct + ticks) % 0x1_0000_0000_0000_0000))
  }

  predicate Pending(t: Timers)
  {
    t.p.istatus || t.v.istatus
  }

  predicate Enabled(t: Timers)
  {
    t.p.enable || t.v.enable
  }

  /** Ticks may be delivered in one step or in several. */
  lemma AdvanceAgain(t: Timers, a: nat, b: nat)
    ensures Advance(Advance(t, a), b) == Advance(t, a + b)
  {
    assert ((t.pct + a) % 0x1_0000_0000_0000_0000 + b) % 0x1_0000_0000_0000_0000 == (t.pct + a + b) % 0x1_0000_0000_0000_0000;
    assert ((t.vct + a) % 0x1_0000_0000_0000_0000 + b) % 0x1_0000_0000_0000_0000 == (t.vct + a + b) % 0x1_0000_0000_0000_0000;
  }

  // ---------- The processor the loop drives ----------

  /** What one native instruction does to the processor state. */
  datatype Effect<+C> = Through(core: C) | Jump(core: C) | Exit(core: C) | Fault(core: C, status: FaultStatus)

  /** A native fault never reports success. */
  type FaultStatus = s: nat | s != 0 witness 8

  /** The interrupt inputs that live in the processor state. */
  datatype Masks = Masks(pending: bool, routed: bool, fiq: bool, irq: bool)

  /**
   * fetchAt(c, k) is the word k words after the program counter of c; exec runs one word.
   * ready says that native execution is admitted (valid state, MMU off); slow runs the faulting
   * instruction in software, if it can; finish records a final status.
   */
  datatype Processor<!C> = Processor(
    fetchAt: (C, nat) -> Option<bv32>,
    exec: (C, bv32) -> Effect<C>,
    abort: C -> C,
    masks: C -> Masks,
    mmuOn: C -> bool,
    valid: C -> bool,
    refuse: (C, nat) -> C,
    raise: C -> C,
    take: (C, nat) -> Option<C>,
    slow: (C, Timers) -> Option<(C, Timers)>,
    finish: (C, nat) -> (C, nat))

  datatype Machine<C> = Machine(core: C, timers: Timers, irq: bool, fiq: bool, retired: nat, blocks: nat, status: nat)

  /** A native instruction that falls through does not change the controls that admit native execution. */
  predicate KeepsControls<C>(p: Processor<C>, c: C, w: bv32)
  {
    var effect := p.exec(c, w);
    effect.Through? ==> p.valid(effect.core) == p.valid(c) && p.mmuOn(effect.core) == p.mmuOn(c)
  }

  ghost predicate Contract<C(!new)>(p: Processor<C>)
  {
    forall c: C, w: bv32 :: KeepsControls(p, c, w)
  }

  // ---------- Blocks ----------

  datatype BlockStop<C> = BlockStop(core: C, retired: nat, status: nat)

  /** A block translated from the code at c0, run from its word k, with c the state before that word. */
  function Block<C>(p: Processor<C>, c0: C, c: C, k: nat, limit: nat): (b: BlockStop<C>)
    requires k <= limit
    ensures k <= b.retired <= limit
    ensures b.status == NEXT && k < limit ==> b.retired > k
    ensures b.status == UNDEFINED_INSTRUCTION || b.status == SYSTEM_REGISTER_TRAP ==> b.retired < limit
    decreases limit - k
  {
    if k == limit then BlockStop(c, k, NEXT) else
    var w := p.fetchAt(c0, k);
    if w.None? then BlockStop(p.abort(c), k, INSTRUCTION_ABORT) else
    match p.exec(c, w.value)
    case Through(c') => Block(p, c0, c', k + 1, limit)
    case Jump(c') => BlockStop(c', k + 1, NEXT)
    case Exit(c') => BlockStop(c', k + 1, HALT)
    case Fault(c', status) => BlockStop(c', k, status)
  }

  /** No instruction of the block changes the words the block still has to run. */
  predicate Undisturbed<C>(p: Processor<C>, c: C, limit: nat)
    decreases limit
  {
    limit > 0 && p.fetchAt(c, 0).Some? && p.exec(c, p.fetchAt(c, 0).value).Through? ==>
      var c' := p.exec(c, p.fetchAt(c, 0).value).core;
      && (forall k :: 0 <= k < limit - 1 ==> p.fetchAt(c', k) == p.fetchAt(c, k + 1))
      && Undisturbed(p, c', limit - 1)
  }

  // ---------- One turn of the loop ----------

  datatype Turn<C> = Continue(m: Machine<C>) | Return(m: Machine<C>)

  /** Polls the interrupt lines and timers; a taken or trapped interrupt ends the run. */
  function Poll<C>(p: Processor<C>, m: Machine<C>): (turn: Turn<C>)
  {
    var masks := p.masks(m.core);
    if masks.pending then Continue(m)
    else if (m.irq || m.fiq || Pending(m.timers)) && masks.routed then
      Return(m.(core := p.raise(m.core), status := SYSTEM_REGISTER_TRAP))
    else
      var status :=
        if m.fiq && !masks.fiq then FIQ_INTERRUPT
        else if !masks.irq && Pending(m.timers) then TIMER_INTERRUPT
        else if !masks.irq && m.irq then EXTERNAL_INTERRUPT
        else NEXT;
      if status == NEXT then Continue(m) else
      var taken := p.take(m.core, status);
      if taken.None? then Return(m.(status := DATA_FAULT)) else Return(m.(core := taken.value, status := status))
  }

  /** While a level or a timer may change eligibility, every instruction is polled. */
  predicate Quiet<C>(m: Machine<C>)
  {
    !m.irq && !m.fiq && !Enabled(m.timers)
  }

  /** Translates and runs one block of at most count instructions, then dispatches its status. */
  function RunBlock<C>(p: Processor<C>, m: Machine<C>, count: nat): (turn: Turn<C>)
    requires count > 0
  {
    if !p.valid(m.core) then Return(m.(core := p.refuse(m.core, PRIVILEGE_FAULT), status := PRIVILEGE_FAULT)) else
    var b := Block(p, m.core, m.core, 0, count);
    var after := m.(core := b.core, timers := Advance(m.timers, b.retired), retired := m.retired + b.retired,
                    blocks := m.blocks + 1);
    Dispatch(p, after, b.status)
  }

  function Dispatch<C>(p: Processor<C>, after: Machine<C>, status: nat): (turn: Turn<C>)
  {
    if status == NEXT then Continue(after) else
    var slow := if status == UNDEFINED_INSTRUCTION || status == SYSTEM_REGISTER_TRAP then p.slow(after.core, after.timers) else None;
    if slow.Some? then
      Continue(after.(core := slow.value.0, timers := Advance(slow.value.1, 1), retired := after.retired + 1))
    else
      var (core, final) := p.finish(after.core, status);
      Return(after.(core := core, status := final))
  }

  /** One turn: the MMU check, the poll, then a block. */
  function OneTurn<C>(p: Processor<C>, m: Machine<C>, left: nat, batch: nat): (turn: Turn<C>)
    requires left > 0 && batch > 0
  {
    if p.mmuOn(m.core) then Return(m.(core := p.refuse(m.core, SYSTEM_REGISTER_TRAP), status := SYSTEM_REGISTER_TRAP)) else
    var polled := Poll(p, m);
    if polled.Return? then polled else RunBlock(p, polled.m, Count(m, left, batch))
  }

  function Count<C>(m: Machine<C>, left: nat, batch: nat): (count: nat)
    requires left > 0 && batch > 0
    ensures 0 < count <= left && count <= batch
  {
    if !Quiet(m) then 1 else if left > batch then batch else left
  }

  /** A turn that goes on has retired at least one instruction and no more than the budget left. */
  lemma TurnRetires<C>(p: Processor<C>, m: Machine<C>, left: nat, batch: nat)
    requires left > 0 && batch > 0
    ensures var t := OneTurn(p, m, left, batch);
      && m.retired <= t.m.retired <= m.retired + left
      && (t.Continue? ==> m.retired < t.m.retired)
  {
    if !p.mmuOn(m.core) && Poll(p, m).Continue? && p.valid(m.core) {
      var b := Block(p, m.core, m.core, 0, Count(m, left, batch));
    }
  }

  /** The whole run: at most left instructions, with blocks of at most batch. */
  function Loop<C>(p: Processor<C>, m: Machine<C>, left: nat, batch: nat): (final: Machine<C>)
    requires batch > 0
    ensures m.retired <= final.retired <= m.retired + left
    decreases left
  {
    if left == 0 then m.(status := BUDGET) else
    var t := OneTurn(p, m, left, batch);
    TurnRetires(p, m, left, batch);
    if t.Return? then t.m else Loop(p, t.m, left - (t.m.retired - m.retired), batch)
  }

  /** The loop itself; it terminates because every turn that goes on uses up budget. */
  method Run<C>(p: Processor<C>, start: Machine<C>, budget: nat) returns (final: Machine<C>)
    ensures final == Loop(p, start, budget, 32)
    ensures final.retired - start.retired <= budget
  {
    hide OneTurn;
    var m := start;
    while m.retired - start.retired < budget
      invariant start.retired <= m.retired <= start.retired + budget
      invariant Loop(p, m, budget - (m.retired - start.retired), BATCH) == Loop(p, start, budget, BATCH)
      decreases start.retired + budget - m.retired
    {
      var left := budget - (m.retired - start.retired);
      TurnRetires(p, m, left, BATCH);
      var t := OneTurn(p, m, left, BATCH);
      if t.Return? {
        return t.m;
      }
      m := t.m;
    }
    final := m.(status := BUDGET);
  }

  // ---------- Batching is invisible ----------

  /** Every block of the run leaves its own words alone. */
  predicate CleanRun<C>(p: Processor<C>, m: Machine<C>, left: nat, batch: nat)
    requires batch > 0
    decreases left
  {
    left > 0 ==>
      && Undisturbed(p, m.core, Count(m, left, batch))
      && var t := OneTurn(p, m, left, batch);
         (t.Continue? && m.retired < t.m.retired <= m.retired + left ==> CleanRun(p, t.m, left - (t.m.retired - m.retired), batch))
  }

  /** Equal but for the number of compiled blocks. */
  predicate Same<C(==)>(a: Machine<C>, b: Machine<C>)
  {
    a.(blocks := 0) == b.(blocks := 0)
  }

  /** What is left of the run after a turn. */
  function After<C>(p: Processor<C>, m: Machine<C>, t: Turn<C>, left: nat, batch: nat): (after: Machine<C>)
    requires batch > 0
  {
    if t.Return? then t.m
    else if m.retired <= t.m.retired <= m.retired + left then Loop(p, t.m, left - (t.m.retired - m.retired), batch)
    else t.m
  }

  /** What is left of the run, unfolded once. */
  lemma LoopUnfolds<C>(p: Processor<C>, m: Machine<C>, left: nat, batch: nat)
    requires left > 0 && batch > 0
    ensures Loop(p, m, left, batch) == After(p, m, OneTurn(p, m, left, batch), left, batch)
  {
    hide OneTurn, Block, Advance, Quiet;
    TurnRetires(p, m, left, batch);
  }

  lemma AfterContinue<C>(p: Processor<C>, m: Machine<C>, m1: Machine<C>, left: nat, batch: nat)
    requires batch > 0 && m.retired <= m1.retired <= m.retired + left
    ensures After(p, m, Continue(m1), left, batch) == Loop(p, m1, left - (m1.retired - m.retired), batch)
  {
  }

  lemma AfterReturn<C>(p: Processor<C>, m: Machine<C>, t: Turn<C>, left: nat, batch: nat)
    requires batch > 0
    ensures t.Return? ==> After(p, m, t, left, batch) == t.m == After(p, m, t, left, 1)
  {
  }

  /** The compiled-block count influences nothing else. */
  lemma {:induction false} LoopIgnoresBlocks<C>(p: Processor<C>, a: Machine<C>, b: Machine<C>, left: nat, batch: nat)
    requires batch > 0 && Same(a, b)
    ensures Same(Loop(p, a, left, batch), Loop(p, b, left, batch))
    decreases left
  {
    hide OneTurn, Loop, After;
    if left == 0 {
      LoopEnds(p, a, batch);
      LoopEnds(p, b, batch);
    } else {
      LoopUnfolds(p, a, left, batch);
      LoopUnfolds(p, b, left, batch);
      TurnIgnoresBlocks(p, a, b, left, batch);
      TurnRetires(p, a, left, batch);
      var t, u := OneTurn(p, a, left, batch), OneTurn(p, b, left, batch);
      AfterReturn(p, a, t, left, batch);
      AfterReturn(p, b, u, left, batch);
      if t.Continue? {
        AfterContinue(p, a, t.m, left, batch);
        AfterContinue(p, b, u.m, left, batch);
        LoopIgnoresBlocks(p, t.m, u.m, left - (t.m.retired - a.retired), batch);
      }
    }
  }

  lemma LoopEnds<C>(p: Processor<C>, m: Machine<C>, batch: nat)
    requires batch > 0
    ensures Loop(p, m, 0, batch) == m.(status := BUDGET)
  {
  }

  lemma TurnIgnoresBlocks<C>(p: Processor<C>, a: Machine<C>, b: Machine<C>, left: nat, batch: nat)
    requires left > 0 && batch > 0 && Same(a, b)
    ensures var t, u := OneTurn(p, a, left, batch), OneTurn(p, b, left, batch);
      Same(t.m, u.m) && t.Return? == u.Return?
  {
    hide Block, Advance, RunBlock;
    if !p.mmuOn(a.core) && Poll(p, a).Continue? {
      RunIgnoresBlocks(p, a, b, Count(a, left, batch));
    }
  }

  lemma RunIgnoresBlocks<C>(p: Processor<C>, a: Machine<C>, b: Machine<C>, count: nat)
    requires count > 0 && Same(a, b)
    ensures var t, u := RunBlock(p, a, count), RunBlock(p, b, count);
      Same(t.m, u.m) && t.Return? == u.Return?
  {
    hide Advance;
    if p.valid(a.core) {
      var s := Block(p, a.core, a.core, 0, count);
      var x := a.(core := s.core, timers := Advance(a.timers, s.retired), retired := a.retired + s.retired, blocks := a.blocks + 1);
      var y := b.(core := s.core, timers := Advance(b.timers, s.retired), retired := b.retired + s.retired, blocks := b.blocks + 1);
      DispatchIgnoresBlocks(p, x, y, s.status);
    }
  }

  lemma DispatchIgnoresBlocks<C>(p: Processor<C>, a: Machine<C>, b: Machine<C>, status: nat)
    requires Same(a, b)
    ensures Same(Dispatch(p, a, status).m, Dispatch(p, b, status).m)
    ensures Dispatch(p, a, status).Return? == Dispatch(p, b, status).Return?
  {
    hide Advance;
  }

  /** The tail of an undisturbed block is the block translated at its second word. */
  lemma {:induction false} BlockTail<C>(p: Processor<C>, c0: C, c1: C, c: C, k: nat, limit: nat)
    requires k < limit
    requires forall j :: k <= j < limit - 1 ==> p.fetchAt(c1, j) == p.fetchAt(c0, j + 1)
    ensures var b := Block(p, c1, c, k, limit - 1);
      Block(p, c0, c, k + 1, limit) == b.(retired := b.retired + 1)
    decreases limit - k
  {
    if k + 1 < limit {
      var w := p.fetchAt(c1, k);
      assert w == p.fetchAt(c0, k + 1);
      if w.Some? && p.exec(c, w.value).Through? {
        BlockTail(p, c0, c1, p.exec(c, w.value).core, k + 1, limit);
      }
    }
  }

  /** A poll in a quiet state whose timers have been updated does nothing. */
  lemma QuietPoll<C>(p: Processor<C>, m: Machine<C>)
    requires Quiet(m) && !Pending(m.timers)
    ensures Poll(p, m) == Continue(m)
  {
  }

  /** The state after the first instruction of a block that falls through. */
  function FirstStep<C>(p: Processor<C>, m: Machine<C>): (after: Machine<C>)
    requires p.fetchAt(m.core, 0).Some?
  {
    m.(core := p.exec(m.core, p.fetchAt(m.core, 0).value).core, timers := Advance(m.timers, 1),
       retired := m.retired + 1, blocks := m.blocks + 1)
  }

  lemma RunOneWord<C>(p: Processor<C>, m: Machine<C>)
    requires p.valid(m.core) && p.fetchAt(m.core, 0).Some? && p.exec(m.core, p.fetchAt(m.core, 0).value).Through?
    ensures RunBlock(p, m, 1) == Continue(FirstStep(p, m))
  {
    hide Advance;
    var c1 := p.exec(m.core, p.fetchAt(m.core, 0).value).core;
    assert Block(p, m.core, c1, 1, 1) == BlockStop(c1, 1, NEXT);
  }

  /** A block is its first instruction followed by the block from the second, if that falls through. */
  lemma BlockFirst<C(!new)>(p: Processor<C>, m: Machine<C>, count: nat)
    requires Contract(p) && p.valid(m.core) && count > 1 && Undisturbed(p, m.core, count)
    ensures var w := p.fetchAt(m.core, 0);
      if w.Some? && p.exec(m.core, w.value).Through? then
        var m1 := FirstStep(p, m);
        && RunBlock(p, m, 1) == Continue(m1)
        && Same(RunBlock(p, m, count).m, RunBlock(p, m1, count - 1).m)
        && RunBlock(p, m, count).Return? == RunBlock(p, m1, count - 1).Return?
      else RunBlock(p, m, count) == RunBlock(p, m, 1)
  {
    hide Dispatch, Advance;
    var w := p.fetchAt(m.core, 0);
    if w.Some? && p.exec(m.core, w.value).Through? {
      var c1 := p.exec(m.core, w.value).core;
      assert KeepsControls(p, m.core, w.value);
      var m1 := FirstStep(p, m);
      BlockTail(p, m.core, c1, c1, 0, count);
      var b := Block(p, c1, c1, 0, count - 1);
      AdvanceAgain(m.timers, 1, b.retired);
      RunOneWord(p, m);
      var whole := m.(core := b.core, timers := Advance(m.timers, 1 + b.retired), retired := m.retired + (1 + b.retired), blocks := m.blocks + 1);
      var split := m1.(core := b.core, timers := Advance(m1.timers, b.retired), retired := m1.retired + b.retired, blocks := m1.blocks + 1);
      assert Block(p, m.core, m.core, 0, count) == b.(retired := b.retired + 1);
      assert RunBlock(p, m, count) == Dispatch(p, whole, b.status);
      assert RunBlock(p, m1, count - 1) == Dispatch(p, split, b.status);
      DispatchIgnoresBlocks(p, whole, split, b.status);
    }
  }

  /** Turns that differ only in the block count leave runs that differ only there. */
  lemma AfterIgnoresBlocks<C>(p: Processor<C>, a: Machine<C>, t: Turn<C>, b: Machine<C>, u: Turn<C>, la: nat, lb: nat, batch: nat)
    requires batch > 0 && Same(t.m, u.m) && t.Return? == u.Return? && a.retired + la == b.retired + lb
    requires t.Continue? ==> a.retired <= t.m.retired <= a.retired + la && b.retired <= t.m.retired
    ensures Same(After(p, a, t, la, batch), After(p, b, u, lb, batch))
  {
    hide Loop;
    if t.Continue? {
      LoopIgnoresBlocks(p, t.m, u.m, la - (t.m.retired - a.retired), batch);
    }
  }

  lemma BlockRetires<C>(p: Processor<C>, m: Machine<C>, count: nat)
    requires count > 0
    ensures var t := RunBlock(p, m, count); m.retired <= t.m.retired <= m.retired + count
    ensures RunBlock(p, m, count).Continue? ==> RunBlock(p, m, count).m.retired > m.retired
  {
    hide Advance;
  }

  /** The state after a quiet first instruction: its turn of the single-step loop is a block of one. */
  lemma QuietTurn<C(!new)>(p: Processor<C>, m: Machine<C>, left: nat)
    requires Contract(p) && p.valid(m.core) && !p.mmuOn(m.core) && Quiet(m) && left > 0
    requires p.fetchAt(m.core, 0).Some? && p.exec(m.core, p.fetchAt(m.core, 0).value).Through?
    ensures var m1 := FirstStep(p, m);
      && p.valid(m1.core) && !p.mmuOn(m1.core) && Quiet(m1) && m1.retired == m.retired + 1
      && OneTurn(p, m1, left, 1) == RunBlock(p, m1, 1)
  {
    hide RunBlock;
    assert KeepsControls(p, m.core, p.fetchAt(m.core, 0).value);
    QuietPoll(p, FirstStep(p, m));
  }

  /** Running count instructions natively, or one and then polling: the same run. */
  lemma {:induction false} BlockOrSingle<C(!new)>(p: Processor<C>, m: Machine<C>, count: nat, left: nat)
    requires Contract(p) && p.valid(m.core) && !p.mmuOn(m.core) && Quiet(m)
    requires 0 < count <= left && Undisturbed(p, m.core, count)
    ensures Same(After(p, m, RunBlock(p, m, count), left, 1), After(p, m, RunBlock(p, m, 1), left, 1))
    decreases count
  {
    hide RunBlock, OneTurn, Loop, After, Advance;
    if count > 1 {
      BlockFirst(p, m, count);
      var w := p.fetchAt(m.core, 0);
      if w.Some? && p.exec(m.core, w.value).Through? {
        ThroughThenSingle(p, m, count, left);
      }
    }
  }

  lemma {:induction false} ThroughThenSingle<C(!new)>(p: Processor<C>, m: Machine<C>, count: nat, left: nat)
    requires Contract(p) && p.valid(m.core) && !p.mmuOn(m.core) && Quiet(m)
    requires 1 < count <= left && Undisturbed(p, m.core, count)
    requires p.fetchAt(m.core, 0).Some? && p.exec(m.core, p.fetchAt(m.core, 0).value).Through?
    ensures Same(After(p, m, RunBlock(p, m, count), left, 1), After(p, m, RunBlock(p, m, 1), left, 1))
    decreases count, 0
  {
    hide RunBlock, OneTurn, Loop, After, Advance;
    var m1 := FirstStep(p, m);
    BlockFirst(p, m, count);
    QuietTurn(p, m, left - 1);
    BlockOrSingle(p, m1, count - 1, left - 1);
    LoopUnfolds(p, m1, left - 1, 1);
    AfterContinue(p, m, m1, left, 1);
    BlockRetires(p, m, count);
    BlockRetires(p, m1, count - 1);
    AfterIgnoresBlocks(p, m, RunBlock(p, m, count), m1, RunBlock(p, m1, count - 1), left, left - 1, 1);
  }

  /**
   * Polling between blocks of up to batch instructions, or before every instruction: the runs end
   * in the same state with the same status, apart from the number of blocks compiled.
   */
  lemma {:induction false} BatchingInvisible<C(!new)>(p: Processor<C>, m: Machine<C>, left: nat, batch: nat)
    requires Contract(p) && batch > 0 && CleanRun(p, m, left, batch)
    ensures Same(Loop(p, m, left, batch), Loop(p, m, left, 1))
    decreases left
  {
    hide RunBlock, Advance, Undisturbed, Poll, Loop, After, OneTurn, Count, CleanRun;
    if left == 0 {
      LoopEnds(p, m, batch);
      LoopEnds(p, m, 1);
    } else {
      CleanTurn(p, m, left, batch);
      LoopUnfolds(p, m, left, batch);
      LoopUnfolds(p, m, left, 1);
      TurnRetires(p, m, left, batch);
      var t := OneTurn(p, m, left, batch);
      AfterReturn(p, m, t, left, batch);
      if t.Continue? {
        BatchingInvisible(p, t.m, left - (t.m.retired - m.retired), batch);
        AfterContinue(p, m, t.m, left, batch);
        AfterContinue(p, m, t.m, left, 1);
      }
      SameTurn(p, m, left, batch);
    }
  }

  lemma CleanTurn<C>(p: Processor<C>, m: Machine<C>, left: nat, batch: nat)
    requires batch > 0 && left > 0 && CleanRun(p, m, left, batch)
    ensures Undisturbed(p, m.core, Count(m, left, batch))
    ensures var t := OneTurn(p, m, left, batch);
      t.Continue? && m.retired < t.m.retired <= m.retired + left ==> CleanRun(p, t.m, left - (t.m.retired - m.retired), batch)
  {
    hide OneTurn, Undisturbed, Count;
  }

  /** One batched turn and then single steps, against single steps throughout. */
  lemma SameTurn<C(!new)>(p: Processor<C>, m: Machine<C>, left: nat, batch: nat)
    requires Contract(p) && batch > 0 && left > 0 && Undisturbed(p, m.core, Count(m, left, batch))
    ensures Same(After(p, m, OneTurn(p, m, left, batch), left, 1), After(p, m, OneTurn(p, m, left, 1), left, 1))
  {
    hide RunBlock, Advance, Undisturbed, Loop, After;
    if !p.mmuOn(m.core) && Poll(p, m).Continue? && Quiet(m) {
      if p.valid(m.core) {
        BlockOrSingle(p, m, Count(m, left, batch), left);
      } else {
        RefusedAlike(p, m, Count(m, left, batch));
      }
    }
  }

  lemma RefusedAlike<C>(p: Processor<C>, m: Machine<C>, count: nat)
    requires count > 0 && !p.valid(m.core)
    ensures RunBlock(p, m, count) == RunBlock(p, m, 1)
  {
  }

  // ---------- Code that stays put ----------

  /**
   * One instruction of a safe state: if it falls through, the words after it are still there and the state stays
   * safe, and so it does where the run goes on after a branch or a slow step.
   */
  ghost predicate StaysSafe<C>(p: Processor<C>, safe: C -> bool, c: C)
  {
    p.fetchAt(c, 0).Some? ==>
      var effect := p.exec(c, p.fetchAt(c, 0).value);
      && (effect.Through? ==> safe(effect.core) && forall k: nat :: p.fetchAt(effect.core, k) == p.fetchAt(c, k + 1))
      && (effect.Jump? ==> safe(effect.core))
      && (effect.Fault? ==> SlowSafe(p, safe, effect.core))
  }

  ghost predicate SlowSafe<C>(p: Processor<C>, safe: C -> bool, c: C)
  {
    forall t: Timers :: p.slow(c, t).Some? ==> safe(p.slow(c, t).value.0)
  }

  /** Safe states never store into the words ahead of them. */
  ghost predicate KeepsCode<C(!new)>(p: Processor<C>, safe: C -> bool)
  {
    forall c: C :: safe(c) ==> StaysSafe(p, safe, c)
  }

  lemma {:induction false} SafeUndisturbed<C(!new)>(p: Processor<C>, safe: C -> bool, c: C, limit: nat)
    requires KeepsCode(p, safe) && safe(c)
    ensures Undisturbed(p, c, limit)
    decreases limit
  {
    assert StaysSafe(p, safe, c);
    if limit > 0 && p.fetchAt(c, 0).Some? && p.exec(c, p.fetchAt(c, 0).value).Through? {
      SafeUndisturbed(p, safe, p.exec(c, p.fetchAt(c, 0).value).core, limit - 1);
    }
  }

  /** Where a block goes on, it goes on in a safe state. */
  ghost predicate SafeStop<C>(p: Processor<C>, safe: C -> bool, b: BlockStop<C>)
  {
    && (b.status == NEXT ==> safe(b.core))
    && (b.status == UNDEFINED_INSTRUCTION || b.status == SYSTEM_REGISTER_TRAP ==> SlowSafe(p, safe, b.core))
  }

  /** The words ahead of c are those of c0 from its word k on. */
  ghost predicate Ahead<C>(p: Processor<C>, c0: C, c: C, k: nat)
  {
    forall j: nat :: p.fetchAt(c, j) == p.fetchAt(c0, k + j)
  }

  lemma AheadStart<C>(p: Processor<C>, c: C)
    ensures Ahead(p, c, c, 0)
  {
  }

  lemma {:induction false} SafeBlock<C(!new)>(p: Processor<C>, safe: C -> bool, c0: C, c: C, k: nat, limit: nat)
    requires KeepsCode(p, safe) && safe(c) && k <= limit
    requires Ahead(p, c0, c, k)
    ensures SafeStop(p, safe, Block(p, c0, c, k, limit))
    decreases limit - k
  {
    hide SlowSafe;
    assert StaysSafe(p, safe, c);
    if k < limit {
      var w := p.fetchAt(c0, k + 0);
      assert p.fetchAt(c, 0) == w;
      if w.Some? && p.exec(c, w.value).Through? {
        var c' := p.exec(c, w.value).core;
        forall j: nat | true ensures p.fetchAt(c', j) == p.fetchAt(c0, k + 1 + j) {
          assert p.fetchAt(c', j) == p.fetchAt(c, j + 1) == p.fetchAt(c0, k + (j + 1));
        }
        SafeBlock(p, safe, c0, c', k + 1, limit);
      }
    }
  }

  lemma SafeDispatch<C(!new)>(p: Processor<C>, safe: C -> bool, m: Machine<C>, status: nat)
    requires status == NEXT ==> safe(m.core)
    requires status == UNDEFINED_INSTRUCTION || status == SYSTEM_REGISTER_TRAP ==> SlowSafe(p, safe, m.core)
    ensures Dispatch(p, m, status).Continue? ==> safe(Dispatch(p, m, status).m.core)
  {
    hide Advance;
    if status != NEXT && Dispatch(p, m, status).Continue? {
      assert p.slow(m.core, m.timers).Some?;
    }
  }

  lemma SafeRunBlock<C(!new)>(p: Processor<C>, safe: C -> bool, m: Machine<C>, count: nat)
    requires KeepsCode(p, safe) && safe(m.core) && count > 0
    ensures RunBlock(p, m, count).Continue? ==> safe(RunBlock(p, m, count).m.core)
  {
    hide KeepsCode, Advance, Block, SlowSafe, Dispatch, Ahead;
    AheadStart(p, m.core);
    SafeBlock(p, safe, m.core, m.core, 0, count);
    var b := Block(p, m.core, m.core, 0, count);
    var after := m.(core := b.core, timers := Advance(m.timers, b.retired), retired := m.retired + b.retired, blocks := m.blocks + 1);
    SafeDispatch(p, safe, after, b.status);
  }

  lemma SafeTurn<C(!new)>(p: Processor<C>, safe: C -> bool, m: Machine<C>, left: nat, batch: nat)
    requires KeepsCode(p, safe) && safe(m.core) && left > 0 && batch > 0
    ensures OneTurn(p, m, left, batch).Continue? ==> safe(OneTurn(p, m, left, batch).m.core)
  {
    hide KeepsCode, RunBlock, Pending;
    SafeRunBlock(p, safe, m, Count(m, left, batch));
  }

  /** From a safe state every run is clean, whatever its length and its batches. */
  lemma {:induction false} SafeRunIsClean<C(!new)>(p: Processor<C>, safe: C -> bool, m: Machine<C>, left: nat, batch: nat)
    requires KeepsCode(p, safe) && safe(m.core) && batch > 0
    ensures CleanRun(p, m, left, batch)
    decreases left
  {
    hide KeepsCode, OneTurn, Undisturbed;
    if left > 0 {
      SafeUndisturbed(p, safe, m.core, Count(m, left, batch));
      SafeTurn(p, safe, m, left, batch);
      var t := OneTurn(p, m, left, batch);
      if t.Continue? && m.retired < t.m.retired <= m.retired + left {
        SafeRunIsClean(p, safe, t.m, left - (t.m.retired - m.retired), batch);
      }
    }
  }

  /** Code that stays put is run alike by every batch size: the condition is on the program, not on its batched run. */
  lemma BatchSizeInvisible<C(!new)>(p: Processor<C>, safe: C -> bool, m: Machine<C>, left: nat, batch: nat, other: nat)
    requires Contract(p) && KeepsCode(p, safe) && safe(m.core) && batch > 0 && other > 0
    ensures Same(Loop(p, m, left, batch), Loop(p, m, left, other))
  {
    hide KeepsCode, CleanRun, Loop;
    SafeRunIsClean(p, safe, m, left, batch);
    SafeRunIsClean(p, safe, m, left, other);
    BatchingInvisible(p, m, left, batch);
    BatchingInvisible(p, m, left, other);
  }

  // ---------- Where batching shows ----------

  /** A program counter, and whether the second word has been overwritten. */
  datatype Patcher = Patcher(at: nat, patched: bool)

  /** Word 0 overwrites word 1, a no-operation, with an exit. */
  function PatchedWord(c: Patcher, k: nat): (r: Option<bv32>)
  {
    if c.at + k == 0 then Some(0) else if c.at + k == 1 then Some(if c.patched then 2 else 1) else None
  }

  function PatcherStep(c: Patcher, w: bv32): (effect: Effect<Patcher>)
  {
    if w == 2 then Exit(c.(at := c.at + 1)) else Through(Patcher(c.at + 1, c.patched || w == 0))
  }

  function SelfPatching(): (processor: Processor<Patcher>)
  {
    Processor(
      (c, k) => PatchedWord(c, k),
      (c, w) => PatcherStep(c, w),
      c => c,
      c => Masks(false, false, true, true),
      c => false,
      c => true,
      (c, status) => c,
      c => c,
      (c, status) => None,
      (c, t) => None,
      (c, status) => (c, status))
  }

  function PatcherStart(): (after: Machine<Patcher>)
  {
    var off := Control(false, false, false);
    Machine(Patcher(0, false), Timers(0, 0, off, 0, off, 0, 0), false, false, 0, 0, NEXT)
  }

  /**
   * A block that overwrites its own next word: translated as one block it runs the old word and uses up its
   * budget, one instruction at a time it runs the new word and exits.
   */
  lemma BatchingShows()
    ensures var p, m := SelfPatching(), PatcherStart();
      && Contract(p) && !CleanRun(p, m, 2, BATCH)
      && Loop(p, m, 2, BATCH).status == BUDGET && Loop(p, m, 2, 1).status == HALT
  {
    var p, m := SelfPatching(), PatcherStart();
    forall c: Patcher, w: bv32 | true ensures KeepsControls(p, c, w) {
    }
    var c1, c2 := Patcher(1, true), Patcher(2, true);
    assert Block(p, m.core, c2, 2, 2) == BlockStop(c2, 2, NEXT);
    assert Block(p, m.core, c1, 1, 2) == BlockStop(c2, 2, NEXT);
    assert Block(p, m.core, m.core, 0, 2) == BlockStop(c2, 2, NEXT);
    LoopEnds(p, OneTurn(p, m, 2, BATCH).m, BATCH);
    assert Block(p, m.core, c1, 1, 1) == BlockStop(c1, 1, NEXT);
    var m1 := OneTurn(p, m, 2, 1).m;
    assert m1.core == c1 && m1.retired == 1;
    assert Block(p, c1, c1, 0, 1) == BlockStop(c2, 1, HALT);
    LoopUnfolds(p, m, 2, 1);
    LoopUnfolds(p, m1, 1, 1);
    assert p.fetchAt(c1, 0) == Some(2) && p.fetchAt(m.core, 1) == Some(1);
  }
}
