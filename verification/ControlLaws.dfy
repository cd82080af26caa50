/**
 What a caller of the control protocol can rely on, said of requests and replies alone: which calls are answered,
 what an answered COMMIT or CANCEL must have presented, and which PREPARE of the run it goes back to.
 */
module ControlLaws {
  import opened Basics
  import opened MemoryAbi
  import opened Stage1
  import opened DynamicMemory
  import opened DynamicRuns
  import opened LittleEndian
  import opened TranslationLaws

  /* ---------- One call ---------- */

  /** Apart from its phase and operand, q is the request r. */
  predicate SameButOperand(q: ControlRequest, r: ControlRequest)
  {
    && q.abiVersion == r.abiVersion && q.structSize == r.structSize && q.operation == r.operation
    && q.selector == r.selector && q.currentEl == r.currentEl && q.flags == r.flags && q.reserved == r.reserved
    && q.pc == r.pc && q.revision == r.revision && q.epoch == r.epoch && q.before == r.before && q.candidate == r.candidate
  }

  /**
   A COMMIT or CANCEL that is answered OK, or that changes anything, presents the token in the reply of the PREPARE that
   installed the proposal, and repeats the rest of its request.
   */
  lemma ResolvesPresented(env: Env, ram: seq<u8>, o: Owner, next: u64, q: ControlRequest)
    requires q.phase != 1
    ensures var (after, later, reply) := ControlStep(env, ram, o, next, q);
      reply.result == 0 || after != o || later != next ==>
        && o.prepared.Some? && o.prepared.value.reply.token == q.operand
        && SameButOperand(q, o.prepared.value.request)
        && (q.phase == 2 || q.phase == 3) && after.prepared.None? && later == next
  {
    hide Atomic, StateReply;
  }

  /** Any other token, or any change to the prepared request, is refused and changes nothing. */
  lemma OtherTokenRefused(env: Env, ram: seq<u8>, o: Owner, next: u64, q: ControlRequest)
    requires q.phase != 1
    requires o.prepared.None? || o.prepared.value.reply.token != q.operand || !SameButOperand(q, o.prepared.value.request)
    ensures var (after, later, reply) := ControlStep(env, ram, o, next, q);
      reply.result == 2 && after == o && later == next
  {
    hide Atomic, StateReply;
  }

  /** A prepared request, presented with its token, is always answered: COMMIT installs it and CANCEL forgets it. */
  lemma PresentedResolves(env: Env, ram: seq<u8>, o: Owner, next: u64, q: ControlRequest)
    requires OwnerInv(env, ram, o) && o.prepared.Some?
    requires q.operand == o.prepared.value.reply.token && SameButOperand(q, o.prepared.value.request)
    requires q.phase == 2 || q.phase == 3
    ensures var (after, later, reply) := ControlStep(env, ram, o, next, q);
      && reply.result == 0 && after.prepared.None? && later == next
      && Propose(after.committed) ==
           (if q.phase == 2 then Atomic(env, ram, o.committed, o.prepared.value.request) else Propose(o.committed))
  {
    hide Atomic, CommittedInv;
  }

  /** An answered PREPARE finds nothing held, issues the next token, holds its own request and leaves the committed state. */
  lemma PrepareIssues(env: Env, ram: seq<u8>, o: Owner, next: u64, q: ControlRequest)
    requires q.phase == 1
    ensures var (after, later, reply) := ControlStep(env, ram, o, next, q);
      && after.committed == o.committed
      && (if reply.result == 0 then
            && o.prepared.None? && later == next + 1 && reply.token == next
            && after.prepared.Some? && after.prepared.value.request == q && after.prepared.value.reply == reply
          else after == o && later == next)
  {
    hide Malformed, StaleRequest;
    OutcomeRefuses(env, ram, o.committed, q);
  }

  /** A refusal of an operation always has an error result. */
  lemma OutcomeRefuses(env: Env, ram: seq<u8>, c: Committed, q: ControlRequest)
    ensures Atomic(env, ram, c, q).Refuse? ==> Atomic(env, ram, c, q).result != 0
  {
    hide ControlsValid, Configures, MmuBit, RegisterValue;
  }

  /** Cancelling what was just prepared gives the owner back as it was. */
  lemma CancelUndoes(env: Env, ram: seq<u8>, o: Owner, next: u64, q: ControlRequest)
    requires OwnerInv(env, ram, o) && q.phase == 1
    ensures var (held, later, reply) := ControlStep(env, ram, o, next, q);
      reply.result == 0 ==>
        ControlStep(env, ram, held, later, q.(phase := 3, operand := reply.token)).0 == o
  {
    hide OwnerInv, ControlStep, Atomic;
    PrepareIssues(env, ram, o, next, q);
    var (held, later, reply) := ControlStep(env, ram, o, next, q);
    if reply.result == 0 {
      ControlKeeps(env, ram, o, next, q);
      PresentedResolves(env, ram, held, later, q.(phase := 3, operand := reply.token));
    }
  }

  /** Every answered call is well formed and names the committed state as it is. */
  lemma AnsweredIsCurrent(env: Env, ram: seq<u8>, o: Owner, next: u64, q: ControlRequest)
    ensures var (after, later, reply) := ControlStep(env, ram, o, next, q);
      reply.result == 0 || after != o ==>
        && q.abiVersion == 1 && q.structSize == 192 && 1 <= q.phase <= 3 && 1 <= q.operation <= 4
        && q.currentEl == 1 && q.pc % 4 == 0 && q.flags == 0 && q.reserved == 0
        && q.before.reserved == 0 && q.candidate.reserved == 0
        && (if q.operation == 1 then 1 <= q.selector <= 5 else q.selector == 0)
        && q.before == o.committed.architectural && q.revision == o.committed.revision && q.epoch == o.committed.epoch
  {
    hide Atomic, StateReply, MatchesPrepared;
  }

  /** An answered PREPARE repeats the call and shows the proposed state. */
  lemma PrepareShows(env: Env, ram: seq<u8>, o: Owner, next: u64, q: ControlRequest)
    requires q.phase == 1
    ensures var (after, later, reply) := ControlStep(env, ram, o, next, q);
      reply.result == 0 ==>
        && reply.detail == 0 && reply.phase == 1 && reply.operation == q.operation && reply.selector == q.selector
        && reply.stateTag == 1 && Atomic(env, ram, o.committed, q).Propose? && Shows(reply, Atomic(env, ram, o.committed, q).next)
  {
    hide Atomic, StaleRequest, Malformed;
    OutcomeRefuses(env, ram, o.committed, q);
  }

  /** An answered COMMIT or CANCEL repeats the call and shows the state now in effect, without a token. */
  lemma ResolveShows(env: Env, ram: seq<u8>, o: Owner, next: u64, q: ControlRequest)
    requires OwnerInv(env, ram, o) && q.phase != 1
    ensures var (after, later, reply) := ControlStep(env, ram, o, next, q);
      reply.result == 0 ==>
        && reply.detail == 0 && reply.phase == q.phase && reply.operation == q.operation && reply.selector == q.selector
        && reply.stateTag == 2 && reply.token == 0 && Shows(reply, after.committed)
  {
    hide Atomic, CommittedInv, StaleRequest;
  }

  predicate Shows(reply: ControlReply, c: Committed)
  {
    && reply.architectural == c.architectural && reply.effective == c.effective
    && reply.revision == c.revision && reply.epoch == c.epoch && reply.invalidations == c.invalidations
  }

  /* ---------- Back to the PREPARE of the run ---------- */

  /** Event j of the run is the PREPARE whose answer is the held proposal p. */
  predicate PreparedBy(envs: seq<Env>, sys: System, es: seq<Event>, s: nat, p: Prepared, j: nat)
    requires Shaped(envs, sys)
  {
    && s < |envs| && j < |es| && es[j] == ControlEvent(s, p.request) && p.request.phase == 1
    && var at := Run(envs, sys, es[..j]);
       var reply := ControlStep(envs[s], at.rams[s], at.owners[s], at.next, p.request).2;
       reply == p.reply && reply.result == 0
  }

  lemma {:induction false} RunLast(envs: seq<Env>, sys: System, es: seq<Event>)
    requires Shaped(envs, sys) && es != []
    ensures Run(envs, sys, es) == Step(envs, Run(envs, sys, es[..|es| - 1]), es[|es| - 1])
    decreases |es|
  {
    hide Step, Shaped;
    if |es| > 1 {
      RunLast(envs, Step(envs, sys, es[0]), es[1..]);
      assert es[1..][..|es| - 2] == es[..|es| - 1][1..];
    } else {
      assert es[1..] == [] && es[..0] == [];
    }
  }

  /** A proposal is held after a call only if it was held before, or the call prepared it. */
  lemma HeldBefore(envs: seq<Env>, sys: System, e: Event, s: nat)
    requires Shaped(envs, sys) && s < |envs| && Step(envs, sys, e).owners[s].prepared.Some?
    ensures var p := Step(envs, sys, e).owners[s].prepared.value;
      || sys.owners[s].prepared == Some(p)
      || (e == ControlEvent(s, p.request) && p.request.phase == 1
          && ControlStep(envs[s], sys.rams[s], sys.owners[s], sys.next, p.request).2 == p.reply && p.reply.result == 0)
  {
    hide ControlStep, DataStep;
    if e.s == s && e.ControlEvent? {
      var env, ram, o, q := envs[s], sys.rams[s], sys.owners[s], e.control;
      if q.phase == 1 {
        PrepareIssues(env, ram, o, sys.next, q);
      } else {
        ResolvesPresented(env, ram, o, sys.next, q);
      }
    }
  }

  lemma PreparedEarlier(envs: seq<Env>, sys: System, es: seq<Event>, s: nat, p: Prepared, j: nat)
    requires Shaped(envs, sys) && es != [] && PreparedBy(envs, sys, es[..|es| - 1], s, p, j)
    ensures PreparedBy(envs, sys, es, s, p, j)
  {
    hide Run, ControlStep;
    assert es[..|es| - 1][..j] == es[..j];
  }

  /** Whatever is held after a run that started with nothing held was prepared by an event of the run. */
  lemma {:induction false} HeldWasPrepared(envs: seq<Env>, sys: System, es: seq<Event>, s: nat) returns (j: nat)
    requires Shaped(envs, sys) && s < |envs| && sys.owners[s].prepared.None?
    requires Run(envs, sys, es).owners[s].prepared.Some?
    ensures PreparedBy(envs, sys, es, s, Run(envs, sys, es).owners[s].prepared.value, j)
    decreases |es|
  {
    hide Run, Step, ControlStep;
    j := 0;
    if es == [] {
      RunNothing(envs, sys);
    } else {
      var n := |es| - 1;
      var at := Run(envs, sys, es[..n]);
      var p := Run(envs, sys, es).owners[s].prepared.value;
      RunLast(envs, sys, es);
      HeldBefore(envs, at, es[n], s);
      if at.owners[s].prepared == Some(p) {
        j := HeldWasPrepared(envs, sys, es[..n], s);
        PreparedEarlier(envs, sys, es, s, p, j);
      } else {
        j := n;
      }
    }
  }

  lemma RunNothing(envs: seq<Env>, sys: System)
    requires Shaped(envs, sys)
    ensures Run(envs, sys, []) == sys
  {
  }

  /**
   On every run from a system that holds nothing, a COMMIT or CANCEL that is answered OK, or that changes its owner,
   presents the token that an earlier PREPARE of the same service was answered with, for the same request.
   */
  lemma ResolvesAPrepare(envs: seq<Env>, sys: System, es: seq<Event>, k: nat) returns (j: nat)
    requires Shaped(envs, sys) && k < |es| && es[k].ControlEvent? && es[k].control.phase != 1
    requires es[k].s < |envs| && sys.owners[es[k].s].prepared.None?
    requires var s, at := es[k].s, Run(envs, sys, es[..k]);
      var (after, later, reply) := ControlStep(envs[s], at.rams[s], at.owners[s], at.next, es[k].control);
      reply.result == 0 || after != at.owners[s]
    ensures j < k && es[j].ControlEvent? && es[j].s == es[k].s && es[j].control.phase == 1
    ensures SameButOperand(es[k].control, es[j].control)
    ensures var s, at := es[k].s, Run(envs, sys, es[..j]);
      var reply := ControlStep(envs[s], at.rams[s], at.owners[s], at.next, es[j].control).2;
      reply.result == 0 && reply.token == es[k].control.operand
  {
    hide Run, ControlStep;
    var s, at := es[k].s, Run(envs, sys, es[..k]);
    ResolvesPresented(envs[s], at.rams[s], at.owners[s], at.next, es[k].control);
    j := HeldWasPrepared(envs, sys, es[..k], s);
    assert es[..k][..j] == es[..j];
  }

  /* ---------- What the operations do ---------- */

  /** The registers after operand has been written to the one that selector names. */
  predicate OneWritten(a: Snapshot, b: Snapshot, selector: u32, operand: bv64)
  {
    match selector
    case 1 => b == a.(sctlr := operand)
    case 2 => b == a.(ttbr0 := operand)
    case 3 => b == a.(ttbr1 := operand)
    case 4 => b == a.(tcr := operand)
    case _ => b == a.(mair := operand)
  }

  lemma WrittenMeans(a: Snapshot, selector: u32, operand: bv64)
    ensures OneWritten(a, Written(a, selector, operand), selector, operand)
  {
  }

  /** An accepted register write changes the one register that its selector names, and counts a revision; only SCTLR opens a window. */
  lemma WriteMeans(env: Env, ram: seq<u8>, c: Committed, q: ControlRequest, n: Committed)
    requires q.operation == 1 && Atomic(env, ram, c, q) == Propose(n)
    ensures OneWritten(c.architectural, n.architectural, q.selector, q.operand as bv64)
    ensures n == c.(architectural := q.candidate, revision := c.revision + 1, enablePc := n.enablePc)
    ensures c.architectural.sctlr & 1 == 0 && (q.selector != 1 ==> n.enablePc == c.enablePc)
  {
    hide ControlsValid, Configures, Guard, GranuleKept, EnablesMmu, MappedControls, Written, OneWritten;
    WrittenMeans(c.architectural, q.selector, RegisterValue(q.operand));
  }

  /** An accepted write never changes the granules or the output size of the regime that is in effect. */
  lemma WriteKeepsGranule(env: Env, ram: seq<u8>, c: Committed, q: ControlRequest, n: Committed)
    requires q.operation == 1 && Atomic(env, ram, c, q) == Propose(n)
    ensures (n.architectural.tcr ^ c.effective.tcr) & 0x7_c000_c000 == 0
  {
    hide ControlsValid, Configures, Guard, EnablesMmu, MappedControls, MmuBit, Written;
    GranuleBits(Written(c.architectural, q.selector, RegisterValue(q.operand)), c.effective);
  }

  lemma GranuleBits(a: Snapshot, b: Snapshot)
    ensures GranuleKept(a, b) <==> (a.tcr ^ b.tcr) & 0x7_c000_c000 == 0
  {
  }

  /**
   The MMU is enabled only by setting the M bit of settled controls, from an instruction whose successor is the word of an
   ISB (0xd5033fdf) in owned RAM, which the new controls map where it is, executable and Normal non-cacheable.
   */
  lemma EnableIsGuarded(env: Env, ram: seq<u8>, c: Committed, q: ControlRequest, n: Committed)
    requires q.operation == 1 && q.selector == 1 && Atomic(env, ram, c, q) == Propose(n)
    ensures q.operand as bv64 == c.architectural.sctlr | 1 && c.architectural == c.effective
    ensures n.enablePc == Some(q.pc + 4) && WindowHolds(env, ram, q.pc + 4, c.architectural)
  {
    hide ControlsValid, Configures, MappedControls, GranuleKept, MmuBit, Guard, WindowHolds;
    GuardMeans(env, ram, q.pc, Written(c.architectural, 1, RegisterValue(q.operand)));
    WindowOf(env, ram, q.pc + 4, Written(c.architectural, 1, RegisterValue(q.operand)), c.architectural);
  }

  /** The window at pc: the bytes of the ISB in RAM, which the regime of the controls leaves at their address. */
  predicate WindowHolds(env: Env, ram: seq<u8>, pc: nat, s: Snapshot)
  {
    var at := pc - env.backing.ramBase;
    && pc + 3 < 0x1_0000_0000_0000_0000 && env.backing.ramBase <= pc && pc + 4 <= env.backing.ramBase + |ram|
    && ram[at] == 0xdf && ram[at + 1] == 0x3f && ram[at + 2] == 0x03 && ram[at + 3] == 0xd5
    && env.walkOf(Mmu(s.ttbr0, s.ttbr1, s.tcr))(pc, Access.Execute, 1) == Mapped(pc, Some(Attributes(0, 0, 0x44)))
  }

  lemma WindowOf(env: Env, ram: seq<u8>, pc: nat, s: Snapshot, t: Snapshot)
    requires WindowHolds(env, ram, pc, s) && s == t.(sctlr := s.sctlr)
    ensures WindowHolds(env, ram, pc, t)
  {
  }

  lemma GuardMeans(env: Env, ram: seq<u8>, pc: u64, s: Snapshot)
    requires Guard(env, ram, pc, s).Clear?
    ensures Guard(env, ram, pc, s).next == pc + 4 && WindowHolds(env, ram, pc + 4, s)
  {
    hide Configures, Word;
    IsbBytes(ram, pc + 4 - env.backing.ramBase);
  }

  lemma IsbBytes(ram: seq<u8>, at: nat)
    requires at + 4 <= |ram| && Word(ram, at) == ISB_WORD
    ensures ram[at] == 0xdf && ram[at + 1] == 0x3f && ram[at + 2] == 0x03 && ram[at + 3] == 0xd5
  {
    hide Word;
    FourBytes(ram, at);
  }

  lemma FourBytes(ram: seq<u8>, at: nat)
    requires at + 4 <= |ram|
    ensures Word(ram, at) == (ram[at] as int) + 0x100 * (ram[at + 1] as int) + 0x1_0000 * (ram[at + 2] as int)
                             + 0x100_0000 * (ram[at + 3] as int)
  {
    var s := ram[at..at + 4];
    var t := s[1..];
    var u := t[1..];
    assert u[1..] == [s[3]] && [s[3]][1..] == [];
    assert Assemble([s[3]]) == s[3] as int;
    assert Assemble(u) == (s[2] as int) + 0x100 * (s[3] as int);
    assert Assemble(t) == (s[1] as int) + 0x100 * Assemble(u);
  }

  /** An accepted ISB puts the written controls into effect as a new epoch; DSB changes nothing; TLBI counts an invalidation. */
  lemma BarrierMeans(env: Env, ram: seq<u8>, c: Committed, q: ControlRequest, n: Committed)
    requires 2 <= q.operation <= 4 && Atomic(env, ram, c, q) == Propose(n)
    ensures var s := c.architectural;
      && q.candidate == s && q.operand == 0
      && (q.operation == 2 && s != c.effective ==>
            n == c.(effective := s, epoch := c.epoch + 1, mmu := Mmu(s.ttbr0, s.ttbr1, s.tcr), enablePc := None))
      && (q.operation == 2 && s == c.effective ==> n == c)
      && (q.operation == 3 ==> n == c)
      && (q.operation == 4 ==> n == c.(invalidations := c.invalidations + 1))
  {
    hide ControlsValid, Configures, Guard;
  }

  /* ---------- Data requests between control operations ---------- */

  /**
   A data request that is answered names the controls in effect, runs at EL1 with nothing prepared, has interrupts masked
   while written controls wait for their ISB, and in the window of an enable is the fetch of that ISB.
   */
  lemma AnsweredDataIsCurrent(env: Env, ram: seq<u8>, o: Owner, q: Request)
    requires DataStep(env, ram, o, q).0.result == 0
    ensures o.prepared.None? && q.abiVersion == 3 && q.currentEl == 1
    ensures var s := o.committed.effective;
      q.controls == Controls(3, 80, 2, 0, s.sctlr, s.ttbr0, s.ttbr1, s.tcr, s.mair, s.hcr, s.scr, o.committed.epoch)
    ensures o.committed.architectural != o.committed.effective ==> q.pstate & 0x80 != 0 && q.pstate & 0x40 != 0
    ensures o.committed.enablePc.Some? ==> q.operation == 1 && o.committed.enablePc == Some(q.pc)
  {
    hide Serve, FlatData, RequestValid, Normalized, MmuBit;
    MaskBits(q.pstate);
  }

  lemma MaskBits(pstate: bv64)
    ensures pstate & 0xc0 == 0xc0 ==> pstate & 0x80 != 0 && pstate & 0x40 != 0
  {
  }

  /** With the MMU off every byte of an answered request is at its own address: what is loaded is there, what is stored is put there. */
  lemma FlatBytesMeant(env: Env, ram: seq<u8>, o: Owner, q: Request, i: nat)
    requires DataStep(env, ram, o, q).0.result == 0 && o.committed.effective.sctlr & 1 == 0 && i < q.width * q.count
    ensures q.width > 0 && q.address % q.width == 0
    ensures |DataStep(env, ram, o, q).1| == |ram|
    ensures var (reply, after) := DataStep(env, ram, o, q);
      if q.operation == 3 then
        && InRam(env.backing, |ram|, q.address + i)
        && after[q.address + i - env.backing.ramBase] == ValueByte(q.width, q.value0, q.value1, i)
      else Owned(env.backing, ram, q.address + i) == Some(ValueByte(q.width, reply.value0, reply.value1, i))
  {
    hide RequestValid, FlatBytes, FlatByte, LoadBytes, StoreBytes, Element, ValueByte, Owned, Normalized, StoreByte;
    var c, n := o.committed, Span(q);
    DataShape(env, ram, o, q);
    FlatStopIsNotOk(env, |ram|, c, q, n);
    var places := FlatBytes(env, |ram|, c, q, n).places;
    FlatPlace(env, ram, c, q, n, i);
    if q.operation == 3 {
      FlatDistinct(env, ram, c, q, n);
      StoredBytes(ram, places, q, n);
      StoredDigit(q, i);
    } else {
      LoadedAt(ram, env.backing.tables, places, i);
      ElementBytes(LoadBytes(ram, env.backing.tables, places), q.width, q.count, i);
    }
  }

  lemma DataShape(env: Env, ram: seq<u8>, o: Owner, q: Request)
    requires DataStep(env, ram, o, q).0.result == 0 && o.committed.effective.sctlr & 1 == 0
    ensures (q.width == 1 || q.width == 2 || q.width == 4 || q.width == 8) && (q.count == 1 || q.count == 2)
    ensures 1 <= q.operation <= 3 && DataStep(env, ram, o, q) == FlatData(env, ram, o.committed, q)
  {
    hide FlatData, Serve, MappedControls;
  }

  lemma {:induction false} FlatPlace(env: Env, ram: seq<u8>, c: Committed, q: Request, n: nat, i: nat)
    requires q.address + n <= PA_LIMIT && i < n && FlatBytes(env, |ram|, c, q, n).Ready?
    ensures var p := FlatBytes(env, |ram|, c, q, n).places[i];
      && p.index < (if p.table then |env.backing.tables| else |ram|)
      && Owned(env.backing, ram, q.address + i) == Some(if p.table then env.backing.tables[p.index] else ram[p.index])
      && (q.operation == 3 ==> !p.table && InRam(env.backing, |ram|, q.address + i) && p.index == q.address + i - env.backing.ramBase)
  {
    if i < n - 1 {
      FlatPlace(env, ram, c, q, n - 1, i);
    }
  }

  lemma FlatDistinct(env: Env, ram: seq<u8>, c: Committed, q: Request, n: nat)
    requires q.address + n <= PA_LIMIT && FlatBytes(env, |ram|, c, q, n).Ready? && q.operation == 3
    ensures DistinctPlaces(FlatBytes(env, |ram|, c, q, n).places)
  {
    hide FlatBytes, FlatByte;
    var places := FlatBytes(env, |ram|, c, q, n).places;
    forall i, j | 0 <= i < j < |places| ensures places[i].index != places[j].index {
      FlatPlace(env, ram, c, q, n, i);
      FlatPlace(env, ram, c, q, n, j);
    }
  }

  /** With the MMU on an answered request is what the mapped service answers for it under the controls in effect. */
  lemma MappedServes(env: Env, ram: seq<u8>, o: Owner, q: Request)
    requires DataStep(env, ram, o, q).0.result == 0 && o.committed.effective.sctlr & 1 == 1
    ensures var s := o.committed.effective;
      var controls := Controls(2, 80, 1, 0, s.sctlr | 1, s.ttbr0, s.ttbr1, s.tcr, s.mair, s.hcr, s.scr, 1);
      var (reply, after) := Serve(env.walkOf(o.committed.mmu), env.backing, ram, controls, q.(abiVersion := 2, controls := controls));
      DataStep(env, ram, o, q) == (reply.(abiVersion := 3, epoch := o.committed.epoch), after)
  {
    hide Serve, FlatData, RequestValid;
  }

  /** An owner starts with its controls both written and in effect, at revision 1 and epoch 1, with nothing held or pending. */
  lemma StartShows(controls: Controls)
    ensures var o := InitialOwner(FromControls(controls));
      var s := Snapshot(controls.sctlr, controls.ttbr0, controls.ttbr1, controls.tcr, controls.mair, controls.hcr, controls.scr, 0);
      && o.prepared.None? && o.committed.architectural == s && o.committed.effective == s
      && o.committed.revision == 1 && o.committed.epoch == 1 && o.committed.invalidations == 0 && o.committed.enablePc.None?
      && o.committed.mmu == Mmu(controls.ttbr0, controls.ttbr1, controls.tcr)
  {
  }
}
