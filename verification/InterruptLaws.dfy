/**
 * Which interrupts end a turn of the run loop, and which never do, said of whole turns and runs: masks, routing,
 * priority and the bound on how long an asserted source waits. The poll itself is not mentioned.
 */
module InterruptLaws {
  import opened Basics
  import opened RunLoop

  /** A timer condition is up. */
  predicate TimerUp<C>(m: Machine<C>)
  {
    m.timers.p.istatus || m.timers.v.istatus
  }

  predicate AnythingUp<C>(m: Machine<C>)
  {
    m.irq || m.fiq || TimerUp(m)
  }

  /** The turn ends by taking the exception of this status, or with a data fault (4) when it cannot be taken. */
  predicate EndsBy<C(==)>(p: Processor<C>, m: Machine<C>, t: Turn<C>, status: nat)
  {
    var taken := p.take(m.core, status);
    t == Return(if taken.Some? then m.(core := taken.value, status := status) else m.(status := 4))
  }

  /** No source ends a turn when one is pending already, or when both masks are set and nothing is routed higher. */
  lemma MaskedTurn<C>(p: Processor<C>, m: Machine<C>, left: nat, batch: nat)
    requires left > 0 && batch > 0 && !p.mmuOn(m.core)
    requires var k := p.masks(m.core); k.pending || (k.irq && k.fiq && !k.routed)
    ensures OneTurn(p, m, left, batch) == RunBlock(p, m, Count(m, left, batch))
  {
  }

  /** An asserted source that a higher level takes traps, whatever the masks are. */
  lemma RoutedTurn<C>(p: Processor<C>, m: Machine<C>, left: nat, batch: nat)
    requires left > 0 && batch > 0 && !p.mmuOn(m.core)
    requires !p.masks(m.core).pending && p.masks(m.core).routed && AnythingUp(m)
    ensures OneTurn(p, m, left, batch) == Return(m.(core := p.raise(m.core), status := 13))
  {
  }

  /** An unmasked asserted source is always taken: the fast line before a timer, and a timer before the line. */
  lemma UnmaskedTurn<C>(p: Processor<C>, m: Machine<C>, left: nat, batch: nat)
    requires left > 0 && batch > 0 && !p.mmuOn(m.core)
    requires !p.masks(m.core).pending && !p.masks(m.core).routed
    ensures var k, t := p.masks(m.core), OneTurn(p, m, left, batch);
      && (m.fiq && !k.fiq ==> EndsBy(p, m, t, 18))
      && (TimerUp(m) && !k.irq && !(m.fiq && !k.fiq) ==> EndsBy(p, m, t, 14))
      && (m.irq && !k.irq && !TimerUp(m) && !(m.fiq && !k.fiq) ==> EndsBy(p, m, t, 15))
  {
  }

  /** A turn that ends before running a block with the status of an interrupt had that source up and its mask clear. */
  lemma InterruptedTurn<C>(p: Processor<C>, m: Machine<C>, left: nat, batch: nat)
    requires left > 0 && batch > 0
    ensures var k, t := p.masks(m.core), OneTurn(p, m, left, batch);
      t.Return? && t.m.blocks == m.blocks && t.m.status in {14, 15, 18} ==>
        && !k.pending && !k.routed && !p.mmuOn(m.core)
        && (t.m.status == 14 ==> TimerUp(m) && !k.irq)
        && (t.m.status == 15 ==> m.irq && !TimerUp(m) && !k.irq)
        && (t.m.status == 18 ==> m.fiq && !k.fiq)
        && t.m.retired == m.retired && t.m.timers == m.timers
  {
    hide Block, Advance;
    if !p.mmuOn(m.core) && Poll(p, m).Continue? {
      BlockCounted(p, m, Count(m, left, batch));
    }
  }

  lemma BlockCounted<C>(p: Processor<C>, m: Machine<C>, count: nat)
    requires count > 0
    ensures var t := RunBlock(p, m, count);
      if p.valid(m.core) then t.m.blocks == m.blocks + 1
      else t == Return(m.(core := p.refuse(m.core, 9), status := 9))
  {
    hide Block, Advance;
  }

  /** Recording a final status never makes an interrupt of it. */
  ghost predicate NeverInterrupts<C(!new)>(p: Processor<C>)
  {
    forall c: C, status: nat :: FinishesOtherwise(p, c, status)
  }

  predicate FinishesOtherwise<C>(p: Processor<C>, c: C, status: nat)
  {
    p.finish(c, status).1 !in {14, 15, 18}
  }

  predicate Deaf<C>(p: Processor<C>, c: C)
  {
    p.masks(c).irq && p.masks(c).fiq && !p.masks(c).routed
  }

  /** A run whose states all mask both lines never ends with an interrupt, whatever lines and timers are up. */
  lemma {:induction false} MaskedRun<C(!new)>(p: Processor<C>, m: Machine<C>, left: nat, batch: nat)
    requires batch > 0 && NeverInterrupts(p) && forall c: C :: Deaf(p, c)
    ensures Loop(p, m, left, batch).status !in {14, 15, 18}
    decreases left
  {
    hide OneTurn, Loop, NeverInterrupts;
    if left == 0 {
      LoopEnds(p, m, batch);
    } else {
      LoopUnfolds(p, m, left, batch);
      TurnRetires(p, m, left, batch);
      DeafTurn(p, m, left, batch);
      var t := OneTurn(p, m, left, batch);
      if t.Continue? {
        MaskedRun(p, t.m, left - (t.m.retired - m.retired), batch);
      }
    }
  }

  lemma DeafTurn<C(!new)>(p: Processor<C>, m: Machine<C>, left: nat, batch: nat)
    requires left > 0 && batch > 0 && NeverInterrupts(p) && Deaf(p, m.core)
    ensures OneTurn(p, m, left, batch).Return? ==> OneTurn(p, m, left, batch).m.status !in {14, 15, 18}
  {
    hide Block, Advance, RunBlock;
    if !p.mmuOn(m.core) {
      MaskedTurn(p, m, left, batch);
      BlockEnds(p, m, Count(m, left, batch));
    }
  }

  lemma BlockEnds<C(!new)>(p: Processor<C>, m: Machine<C>, count: nat)
    requires count > 0 && NeverInterrupts(p)
    ensures RunBlock(p, m, count).Return? ==> RunBlock(p, m, count).m.status !in {14, 15, 18}
  {
    hide Advance, Block;
    if p.valid(m.core) {
      var b := Block(p, m.core, m.core, 0, count);
      assert FinishesOtherwise(p, b.core, b.status);
    }
  }

  /** A run that starts with an unmasked source up is over at once, with that source taken. */
  lemma UnmaskedRun<C>(p: Processor<C>, m: Machine<C>, left: nat, batch: nat)
    requires left > 0 && batch > 0 && !p.mmuOn(m.core)
    requires !p.masks(m.core).pending && !p.masks(m.core).routed
    ensures var k, final := p.masks(m.core), Return(Loop(p, m, left, batch));
      && (m.fiq && !k.fiq ==> EndsBy(p, m, final, 18))
      && (TimerUp(m) && !k.irq && !(m.fiq && !k.fiq) ==> EndsBy(p, m, final, 14))
      && (m.irq && !k.irq && !TimerUp(m) && !(m.fiq && !k.fiq) ==> EndsBy(p, m, final, 15))
  {
    hide OneTurn, Loop;
    LoopUnfolds(p, m, left, batch);
    UnmaskedTurn(p, m, left, batch);
  }

  /** While a line is up or a timer is enabled, at most one instruction retires between two polls. */
  lemma PolledEveryInstruction<C>(p: Processor<C>, m: Machine<C>, left: nat, batch: nat)
    requires left > 0 && batch > 0
    requires m.irq || m.fiq || m.timers.p.enable || m.timers.v.enable
    ensures OneTurn(p, m, left, batch).m.retired <= m.retired + 1
  {
    hide Block, Advance, RunBlock, Poll;
    PollKeeps(p, m);
    if !p.mmuOn(m.core) && Poll(p, m).Continue? {
      BlockRetires(p, m, 1);
    }
  }

  lemma PollKeeps<C>(p: Processor<C>, m: Machine<C>)
    ensures Poll(p, m).m.retired == m.retired
    ensures Poll(p, m).Continue? ==> Poll(p, m).m == m
  {
  }

  /** With no line up and no timer enabled a block has the whole batch, or what is left of the budget. */
  lemma QuietBlock<C>(p: Processor<C>, m: Machine<C>, left: nat, batch: nat)
    requires left > 0 && batch > 0 && !p.mmuOn(m.core) && !TimerUp(m)
    requires !m.irq && !m.fiq && !m.timers.p.enable && !m.timers.v.enable
    ensures OneTurn(p, m, left, batch) == RunBlock(p, m, if left < batch then left else batch)
  {
    hide RunBlock;
  }

  /** A timer comes up exactly when it is enabled, not masked in its control, and its count has reached the compare value. */
  lemma TimerComesUp<C>(m: Machine<C>, ticks: nat)
    ensures var t := m.timers;
      TimerUp(m.(timers := Advance(t, ticks))) <==>
        || (t.p.enable && !t.p.imask && t.pCval <= (t.pct + ticks) % 0x1_0000_0000_0000_0000)
        || (t.v.enable && !t.v.imask && t.vCval <= (t.vct + ticks) % 0x1_0000_0000_0000_0000)
  {
  }

  /** What a turn does with the status of its block: 0 goes on, 8 and 13 try the slow steps, everything else is final. */
  lemma BlockStatus<C>(p: Processor<C>, m: Machine<C>, count: nat)
    requires count > 0 && p.valid(m.core)
    ensures var b, t := Block(p, m.core, m.core, 0, count), RunBlock(p, m, count);
      var slow := p.slow(b.core, Advance(m.timers, b.retired));
      && (b.status == 0 ==> t == Continue(m.(core := b.core, timers := Advance(m.timers, b.retired),
                                             retired := m.retired + b.retired, blocks := m.blocks + 1)))
      && (b.status in {8, 13} && slow.Some? ==>
            t == Continue(m.(core := slow.value.0, timers := Advance(slow.value.1, 1),
                             retired := m.retired + b.retired + 1, blocks := m.blocks + 1)))
      && (b.status != 0 && !(b.status in {8, 13} && slow.Some?) ==>
            t.Return? && t.m.core == p.finish(b.core, b.status).0 && t.m.status == p.finish(b.core, b.status).1
            && t.m.retired == m.retired + b.retired)
  {
    hide Block, Advance;
  }

  /** A run without budget left ends at once with status 5, whatever is up. */
  lemma BudgetEnds<C>(p: Processor<C>, m: Machine<C>, batch: nat)
    requires batch > 0
    ensures Loop(p, m, 0, batch) == m.(status := 5)
  {
  }
}
