/**
 Whole runs of several control owners that share one token source. The protocol refines atomic control
 instructions, tokens are one-shot, and the MMU is enabled once, behind a frozen transition window.
 */
module DynamicRuns {
  import opened Basics
  import opened LittleEndian
  import opened MemoryAbi
  import opened Stage1
  import opened DynamicMemory

  /* ---------- The invariant of one owner ---------- */

  /** The word that the transition window will fetch, seen in RAM. */
  predicate HoldsIsb(env: Env, ram: seq<u8>, pc: u64)
  {
    var index := Offset(pc, 4, env.backing.ramBase, |ram|);
    index.Some? && Word(ram, index.value) == ISB_WORD
  }

  predicate CommittedInv(env: Env, ram: seq<u8>, c: Committed)
  {
    && (MmuBit(c.effective) ==> MmuBit(c.architectural) && c.architectural == c.effective)
    && (c.enablePc.Some? <==> MmuBit(c.architectural) && !MmuBit(c.effective))
    && (c.enablePc.Some? ==> c.enablePc.value % 4 == 0 && HoldsIsb(env, ram, c.enablePc.value))
    && ControlsValid(MappedControls(c.architectural)) && ControlsValid(MappedControls(c.effective))
    && c.mmu == MmuOf(c.effective)
  }

  /** A held proposal is still what its request would do now, and only its token resolves it. */
  predicate PreparedInv(env: Env, ram: seq<u8>, o: Owner)
  {
    o.prepared.Some? ==>
      var p := o.prepared.value;
      && Atomic(env, ram, o.committed, p.request) == Propose(Installed(p))
      && !StaleRequest(o.committed, p.request) && !Malformed(p.request) && p.request.phase == PREPARE
      && p.reply == StateReply(Installed(p), PREPARE, p.request, PROPOSED, p.reply.token)
  }

  predicate OwnerInv(env: Env, ram: seq<u8>, o: Owner)
  {
    CommittedInv(env, ram, o.committed) && PreparedInv(env, ram, o)
  }

  /** An atomic control instruction keeps the invariant of the committed state. */
  lemma AtomicKeeps(env: Env, ram: seq<u8>, c: Committed, q: ControlRequest, next: Committed)
    requires CommittedInv(env, ram, c) && !Malformed(q) && Atomic(env, ram, c, q) == Propose(next)
    ensures CommittedInv(env, ram, next)
  {
    hide ControlsValid, Configures, RegisterValue, Guard, HoldsIsb;
    if q.operation == WRITE {
      GuardHolds(env, ram, q.pc, Written(c.architectural, q.selector, RegisterValue(q.operand)));
      WriteBits(c.architectural, q.selector, RegisterValue(q.operand));
    }
  }

  lemma GuardHolds(env: Env, ram: seq<u8>, pc: u64, candidate: Snapshot)
    ensures var r := Guard(env, ram, pc, candidate);
            r.Clear? ==> r.next == pc + 4 && HoldsIsb(env, ram, r.next)
  {
    hide ControlsValid, Configures;
  }

  lemma WriteBits(s: Snapshot, selector: u32, operand: bv64)
    requires !MmuBit(s)
    ensures selector != SCTLR ==> !MmuBit(Written(s, selector, operand))
    ensures EnablesMmu(s, operand) ==> MmuBit(Written(s, SCTLR, operand))
  {
    hide MmuBit, EnablesMmu;
    if selector != SCTLR {
      SctlrKept(s, Written(s, selector, operand));
    }
    if EnablesMmu(s, operand) {
      EnableSets(s, operand);
    }
  }

  lemma SctlrKept(s: Snapshot, t: Snapshot)
    requires s.sctlr == t.sctlr
    ensures MmuBit(s) == MmuBit(t)
  {
  }

  lemma EnableSets(s: Snapshot, operand: bv64)
    requires EnablesMmu(s, operand)
    ensures MmuBit(s.(sctlr := operand))
  {
  }

  lemma InitialInv(env: Env, ram: seq<u8>, controls: Controls)
    requires ControlsValidDynamic(controls) && controls.sctlr & 1 == 0
    ensures OwnerInv(env, ram, InitialOwner(FromControls(controls)))
  {
    hide ControlsValid;
  }

  lemma ControlKeeps(env: Env, ram: seq<u8>, o: Owner, next: u64, q: ControlRequest)
    requires OwnerInv(env, ram, o)
    ensures OwnerInv(env, ram, ControlStep(env, ram, o, next, q).0)
  {
    hide ControlsValid, Configures, Malformed, Atomic, HoldsIsb;
    if !Malformed(q) && !StaleRequest(o.committed, q) && q.phase != PREPARE && MatchesPrepared(o, q) {
      AtomicKeeps(env, ram, o.committed, o.prepared.value.request, Installed(o.prepared.value));
    }
  }

  /** While an enable is pending or anything is prepared, no data request can touch RAM. */
  lemma WindowFreezesRam(env: Env, ram: seq<u8>, o: Owner, q: Request)
    requires o.prepared.Some? || o.committed.enablePc.Some?
    ensures DataStep(env, ram, o, q).1 == ram
  {
    hide ControlsValid, RequestValid, StoreBytes, LoadBytes, FlatBytes, Element, MappedControls;
    if o.prepared.None? {
      FetchKeepsRam(env, ram, o.committed, q);
    }
  }

  lemma FetchKeepsRam(env: Env, ram: seq<u8>, c: Committed, q: Request)
    requires c.enablePc.Some?
    ensures DataWhenIdle(env, ram, c, q).1 == ram
  {
    hide ControlsValid, MappedControls, PlaceBytes, LoadBytes, StoreBytes, FlatBytes, Element;
  }

  lemma DataKeeps(env: Env, ram: seq<u8>, o: Owner, q: Request)
    requires OwnerInv(env, ram, o)
    ensures OwnerInv(env, DataStep(env, ram, o, q).1, o)
  {
    hide ControlsValid, Malformed, Atomic, DataStep, HoldsIsb;
    if o.prepared.Some? || o.committed.enablePc.Some? {
      WindowFreezesRam(env, ram, o, q);
    }
  }

  lemma WindowBytes(env: Env, ram: seq<u8>, c: Committed, q: Request, n: nat)
    requires EnvValid(env, |ram|) && q.operation == FETCH && n <= 4
    requires Offset(q.address, 4, env.backing.ramBase, |ram|).Some?
    ensures q.address + 4 <= PA_LIMIT
    ensures FlatBytes(env, |ram|, c, q, n)
            == Ready(Consecutive(Place(false, Offset(q.address, 4, env.backing.ramBase, |ram|).value), n))
  {
    if n > 0 {
      var first := Place(false, Offset(q.address, 4, env.backing.ramBase, |ram|).value);
      WindowBytes(env, ram, c, q, n - 1);
      assert Consecutive(first, n) == Consecutive(first, n - 1) + [Place(false, first.index + (n - 1))];
    }
  }

  /** In the transition window the well-formed fetch still yields the ISB word. */
  lemma WindowFetch(env: Env, ram: seq<u8>, o: Owner, q: Request)
    requires OwnerInv(env, ram, o) && EnvValid(env, |ram|)
    requires o.prepared.None? && o.committed.enablePc == Some(q.pc) && q.operation == FETCH
    requires q.abiVersion == 3 && q.controls == ToControls(o.committed.effective, o.committed.epoch) && q.currentEl == 1
    requires RequestValid(Normalized(o.committed, q), MappedControls(o.committed.effective)) && q.pstate & 0xc0 == 0xc0
    ensures DataStep(env, ram, o, q) == (DataReply(o.committed, OK, 0).(value0 := ISB_WORD), ram)
  {
    hide ControlsValid, EnvValid, MappedControls, HoldsIsb, Assemble;
    var c := o.committed;
    WindowIndex(env, ram, c);
    var first := Place(false, Offset(q.address, 4, env.backing.ramBase, |ram|).value);
    WindowBytes(env, ram, c, q, 4);
    LoadConsecutive(ram, env.backing.tables, first, 4);
    var s := ram[first.index..first.index + 4];
    assert s[0 * 4..1 * 4] == s;
  }

  lemma WindowIndex(env: Env, ram: seq<u8>, c: Committed)
    requires CommittedInv(env, ram, c) && c.enablePc.Some?
    ensures c.enablePc.value % 4 == 0
    ensures var index := Offset(c.enablePc.value, 4, env.backing.ramBase, |ram|);
            index.Some? && Assemble(ram[index.value..index.value + 4]) == ISB_WORD
  {
  }

  /** Nothing but that fetch is ever answered in the window, and never with another word. */
  lemma WindowAdmits(env: Env, ram: seq<u8>, o: Owner, q: Request)
    requires OwnerInv(env, ram, o) && o.committed.enablePc.Some?
    requires DataStep(env, ram, o, q).0.result == OK
    ensures q.operation == FETCH && o.committed.enablePc == Some(q.pc)
    ensures DataStep(env, ram, o, q).0.value0 == ISB_WORD
  {
    hide ControlsValid, MappedControls, Serve, LoadBytes, StoreBytes, FlatBytes, HoldsIsb, Element;
    FlatStopIsNotOk(env, |ram|, o.committed, q, Span(q));
  }

  lemma {:induction false} FlatStopIsNotOk(env: Env, ramLength: nat, c: Committed, q: Request, n: nat)
    ensures q.address + n <= PA_LIMIT && FlatBytes(env, ramLength, c, q, n).Stop? ==>
              FlatBytes(env, ramLength, c, q, n).reply.result != OK
  {
    if n > 0 && q.address + n <= PA_LIMIT {
      FlatStopIsNotOk(env, ramLength, c, q, n - 1);
    }
  }

  /** The window can always be closed: the matching ISB is never refused. */
  lemma WindowCloses(env: Env, ram: seq<u8>, c: Committed, q: ControlRequest)
    requires CommittedInv(env, ram, c) && c.enablePc == Some(q.pc) && c.epoch < LAST_U64
    requires q.operation == ISB && q.operand == 0 && q.candidate == c.architectural
    ensures Atomic(env, ram, c, q).Propose?
    ensures MmuBit(Atomic(env, ram, c, q).next.effective) && Atomic(env, ram, c, q).next.enablePc.None?
  {
    hide ControlsValid, Configures, HoldsIsb;
    ValidControlsConfigure(c.architectural);
  }

  /* ---------- Runs of a whole system ---------- */

  datatype System = System(next: u64, owners: seq<Owner>, rams: seq<seq<u8>>)

  datatype Event = ControlEvent(s: nat, control: ControlRequest) | DataEvent(s: nat, data: Request)

  predicate Shaped(envs: seq<Env>, sys: System)
  {
    |sys.owners| == |envs| && |sys.rams| == |envs|
  }

  function Step(envs: seq<Env>, sys: System, e: Event): (after: System)
    requires Shaped(envs, sys)
    ensures Shaped(envs, after)
  {
    if e.s >= |envs| then sys
    else match e
         case ControlEvent(s, q) =>
           var (owner, next, _) := ControlStep(envs[s], sys.rams[s], sys.owners[s], sys.next, q);
           sys.(next := next, owners := sys.owners[s := owner])
         case DataEvent(s, q) =>
           sys.(rams := sys.rams[s := DataStep(envs[s], sys.rams[s], sys.owners[s], q).1])
  }

  function Run(envs: seq<Env>, sys: System, es: seq<Event>): (after: System)
    requires Shaped(envs, sys)
    ensures Shaped(envs, after)
    decreases |es|
  {
    if es == [] then sys else Run(envs, Step(envs, sys, es[0]), es[1..])
  }

  predicate SystemInv(envs: seq<Env>, sys: System)
  {
    && Shaped(envs, sys)
    && (forall s :: 0 <= s < |envs| ==> OwnerInv(envs[s], sys.rams[s], sys.owners[s]))
  }

  lemma StepKeeps(envs: seq<Env>, sys: System, e: Event)
    requires SystemInv(envs, sys)
    ensures SystemInv(envs, Step(envs, sys, e))
  {
    hide OwnerInv, ControlStep, DataStep;
    if e.s < |envs| {
      match e {
        case ControlEvent(s, q) => ControlKeeps(envs[s], sys.rams[s], sys.owners[s], sys.next, q);
        case DataEvent(s, q) => DataKeeps(envs[s], sys.rams[s], sys.owners[s], q);
      }
    }
  }

  /* ---------- Refinement of atomic operations ---------- */

  datatype Act = Stutter | Operate(s: nat, request: ControlRequest) | AccessData(s: nat, data: Request)

  datatype Atoms = Atoms(states: seq<Committed>, rams: seq<seq<u8>>)

  function Abs(sys: System): (atoms: Atoms)
  {
    Atoms(seq(|sys.owners|, i requires 0 <= i < |sys.owners| => sys.owners[i].committed), sys.rams)
  }

  /** Whether this control call commits, given the owner that receives it. */
  predicate Commits(o: Owner, q: ControlRequest)
  {
    !Malformed(q) && !StaleRequest(o.committed, q) && q.phase == COMMIT && MatchesPrepared(o, q)
  }

  /** The atomic act that an event amounts to. */
  function ActOf(envs: seq<Env>, sys: System, e: Event): (act: Act)
    requires Shaped(envs, sys)
  {
    if e.s >= |envs| then Stutter
    else if e.ControlEvent? then
      if sys.owners[e.s].prepared.Some? && Commits(sys.owners[e.s], e.control) then
        Operate(e.s, sys.owners[e.s].prepared.value.request)
      else Stutter
    else if sys.owners[e.s].prepared.Some? then Stutter
    else AccessData(e.s, e.data)
  }

  /** The machine without a protocol: a control instruction or a data access happens, or nothing does. */
  function AtomStep(envs: seq<Env>, a: Atoms, act: Act): (after: Atoms)
    requires |a.states| == |envs| && |a.rams| == |envs|
    ensures |after.states| == |envs| && |after.rams| == |envs|
  {
    match act
    case Stutter => a
    case Operate(s, q) =>
      if s >= |envs| then a
      else var outcome := Atomic(envs[s], a.rams[s], a.states[s], q);
           if outcome.Refuse? then a else a.(states := a.states[s := outcome.next])
    case AccessData(s, q) =>
      if s >= |envs| then a else a.(rams := a.rams[s := DataWhenIdle(envs[s], a.rams[s], a.states[s], q).1])
  }

  /** Every call of the protocol is one atomic act, and an act that operates is never refused. */
  lemma StepRefines(envs: seq<Env>, sys: System, e: Event)
    requires SystemInv(envs, sys)
    ensures Abs(Step(envs, sys, e)) == AtomStep(envs, Abs(sys), ActOf(envs, sys, e))
    ensures var act := ActOf(envs, sys, e);
            act.Operate? ==> Atomic(envs[act.s], sys.rams[act.s], sys.owners[act.s].committed, act.request).Propose?
  {
    hide OwnerInv, ControlStep, DataStep, Commits, Atomic;
    if e.s < |envs| {
      assert OwnerInv(envs[e.s], sys.rams[e.s], sys.owners[e.s]);
      var env, ram, o := envs[e.s], sys.rams[e.s], sys.owners[e.s];
      var after, goal := Abs(Step(envs, sys, e)), AtomStep(envs, Abs(sys), ActOf(envs, sys, e));
      if e.ControlEvent? {
        ControlRefines(env, ram, o, sys.next, e.control);
        assert after.states == goal.states;
      } else {
        DataRefines(env, ram, o, e.data);
        assert after.states == goal.states;
      }
    }
  }

  lemma ControlRefines(env: Env, ram: seq<u8>, o: Owner, next: u64, q: ControlRequest)
    requires OwnerInv(env, ram, o)
    ensures var after := ControlStep(env, ram, o, next, q).0;
            if Commits(o, q) then o.prepared.Some? && Atomic(env, ram, o.committed, o.prepared.value.request) == Propose(after.committed)
            else after.committed == o.committed
  {
    hide CommittedInv, Atomic, StateReply, ErrorReply, Original;
  }

  lemma DataRefines(env: Env, ram: seq<u8>, o: Owner, q: Request)
    ensures DataStep(env, ram, o, q).1 == if o.prepared.Some? then ram else DataWhenIdle(env, ram, o.committed, q).1
  {
    hide DataWhenIdle;
  }

  function Acts(envs: seq<Env>, sys: System, es: seq<Event>): (s: seq<Act>)
    requires Shaped(envs, sys)
    decreases |es|
  {
    if es == [] then [] else [ActOf(envs, sys, es[0])] + Acts(envs, Step(envs, sys, es[0]), es[1..])
  }

  function AtomRun(envs: seq<Env>, a: Atoms, acts: seq<Act>): (atoms: Atoms)
    requires |a.states| == |envs| && |a.rams| == |envs|
    decreases |acts|
  {
    if acts == [] then a else AtomRun(envs, AtomStep(envs, a, acts[0]), acts[1..])
  }

  /** Over any interleaving of phases and data requests, the protocol is a run of atomic operations. */
  lemma {:induction false} RunRefines(envs: seq<Env>, sys: System, es: seq<Event>)
    requires SystemInv(envs, sys)
    ensures SystemInv(envs, Run(envs, sys, es))
    ensures Abs(Run(envs, sys, es)) == AtomRun(envs, Abs(sys), Acts(envs, sys, es))
    decreases |es|
  {
    hide SystemInv, Step, ActOf, AtomStep, Abs;
    if es != [] {
      StepKeeps(envs, sys, es[0]);
      StepRefines(envs, sys, es[0]);
      RunShape(envs, sys);
      RunRefines(envs, Step(envs, sys, es[0]), es[1..]);
      var acts := Acts(envs, sys, es);
      assert acts[1..] == Acts(envs, Step(envs, sys, es[0]), es[1..]);
    }
  }

  lemma RunShape(envs: seq<Env>, sys: System)
    requires SystemInv(envs, sys)
    ensures Shaped(envs, sys)
  {
  }

  /* ---------- Tokens ---------- */

  predicate TokenInv(sys: System)
  {
    && (forall s :: 0 <= s < |sys.owners| && sys.owners[s].prepared.Some? ==>
          sys.owners[s].prepared.value.reply.token < sys.next)
    && (forall s, t :: 0 <= s < t < |sys.owners| && sys.owners[s].prepared.Some? && sys.owners[t].prepared.Some? ==>
          sys.owners[s].prepared.value.reply.token != sys.owners[t].prepared.value.reply.token)
  }

  /** The tokens that the committing calls of a run present, with the services they are presented to. */
  function CommitLog(envs: seq<Env>, sys: System, es: seq<Event>): (s: seq<(nat, u64)>)
    requires Shaped(envs, sys)
    decreases |es|
  {
    if es == [] then []
    else
      var rest := CommitLog(envs, Step(envs, sys, es[0]), es[1..]);
      if ActOf(envs, sys, es[0]).Operate? then [(es[0].s, es[0].control.operand)] + rest
      else rest
  }

  /** Where a token may still be consumed: at the one service that holds it, or not issued yet. */
  predicate Consumable(sys: System, s: nat, token: u64)
  {
    token >= sys.next
    || (s < |sys.owners| && sys.owners[s].prepared.Some? && sys.owners[s].prepared.value.reply.token == token)
  }

  lemma ControlTokens(env: Env, ram: seq<u8>, o: Owner, next: u64, q: ControlRequest)
    ensures var (after, later, reply) := ControlStep(env, ram, o, next, q);
            && later >= next
            && (after.prepared == o.prepared || after.prepared.None?
                || (later > next && after.prepared.Some? && after.prepared.value.reply.token == next))
            && (o.prepared.Some? && Commits(o, q) ==> after.prepared.None?)
            && (later > next ==> o.prepared.None? && after.prepared.Some? && after.prepared.value.reply.token == next && next < later)
  {
    hide Atomic, Malformed, ErrorReply, Original;
  }

  lemma StepTokens(envs: seq<Env>, sys: System, e: Event)
    requires Shaped(envs, sys) && TokenInv(sys)
    ensures TokenInv(Step(envs, sys, e)) && Step(envs, sys, e).next >= sys.next
    ensures forall s, token :: Consumable(Step(envs, sys, e), s, token) ==> Consumable(sys, s, token)
    ensures ActOf(envs, sys, e).Operate? ==>
              var token := sys.owners[e.s].prepared.value.reply.token;
              Consumable(sys, e.s, token) && forall s: nat :: !Consumable(Step(envs, sys, e), s, token)
  {
    hide ControlStep, DataStep, Commits;
    if e.s < |envs| && e.ControlEvent? {
      ControlTokens(envs[e.s], sys.rams[e.s], sys.owners[e.s], sys.next, e.control);
    }
  }

  /** The token that a committing call presents is the one held where it commits. */
  lemma PresentedIsHeld(envs: seq<Env>, sys: System, e: Event)
    requires Shaped(envs, sys) && ActOf(envs, sys, e).Operate?
    ensures e.ControlEvent? && e.control.operand == sys.owners[e.s].prepared.value.reply.token
  {
    hide Malformed, StaleRequest, Original;
  }

  predicate AllConsumable(sys: System, log: seq<(nat, u64)>)
  {
    forall i :: 0 <= i < |log| ==> Consumable(sys, log[i].0, log[i].1)
  }

  predicate OnceEach(log: seq<(nat, u64)>)
  {
    forall i, j :: 0 <= i < j < |log| ==> log[i].1 != log[j].1
  }

  lemma ConsumableBefore(envs: seq<Env>, sys: System, e: Event, log: seq<(nat, u64)>)
    requires Shaped(envs, sys) && TokenInv(sys) && AllConsumable(Step(envs, sys, e), log)
    ensures AllConsumable(sys, log)
    ensures ActOf(envs, sys, e).Operate? ==>
              forall i :: 0 <= i < |log| ==> log[i].1 != sys.owners[e.s].prepared.value.reply.token
  {
    hide Step, TokenInv, Consumable;
    StepTokens(envs, sys, e);
    forall i | 0 <= i < |log| && ActOf(envs, sys, e).Operate?
      ensures log[i].1 != sys.owners[e.s].prepared.value.reply.token
    {
      assert Consumable(Step(envs, sys, e), log[i].0, log[i].1);
    }
  }

  /** No two committing calls present one token, and none presents it where it was not issued, over any run of any services. */
  lemma {:induction false} TokensCommitOnce(envs: seq<Env>, sys: System, es: seq<Event>)
    requires Shaped(envs, sys) && TokenInv(sys)
    ensures AllConsumable(sys, CommitLog(envs, sys, es)) && OnceEach(CommitLog(envs, sys, es))
    decreases |es|
  {
    hide TokenInv, Step, ActOf, Consumable;
    if es != [] {
      var next := Step(envs, sys, es[0]);
      StepTokens(envs, sys, es[0]);
      TokensCommitOnce(envs, next, es[1..]);
      ConsumableBefore(envs, sys, es[0], CommitLog(envs, next, es[1..]));
      if ActOf(envs, sys, es[0]).Operate? {
        PresentedIsHeld(envs, sys, es[0]);
      }
    }
  }

  /** A call that presents a token held at one service can only ever commit at that service. */
  lemma CommitsWhereIssued(envs: seq<Env>, sys: System, es: seq<Event>, home: nat, i: nat)
    requires Shaped(envs, sys) && TokenInv(sys) && home < |envs| && sys.owners[home].prepared.Some?
    requires i < |CommitLog(envs, sys, es)|
    requires CommitLog(envs, sys, es)[i].1 == sys.owners[home].prepared.value.reply.token
    ensures CommitLog(envs, sys, es)[i].0 == home
  {
    TokensCommitOnce(envs, sys, es);
    var entry := CommitLog(envs, sys, es)[i];
    assert Consumable(sys, entry.0, entry.1);
  }

  /* ---------- The MMU is enabled once ---------- */

  lemma StepOneWay(envs: seq<Env>, sys: System, e: Event, s: nat)
    requires SystemInv(envs, sys) && s < |envs|
    ensures MmuBit(sys.owners[s].committed.architectural) ==> MmuBit(Step(envs, sys, e).owners[s].committed.architectural)
    ensures MmuBit(sys.owners[s].committed.effective) ==> MmuBit(Step(envs, sys, e).owners[s].committed.effective)
    ensures !MmuBit(sys.owners[s].committed.effective) && MmuBit(Step(envs, sys, e).owners[s].committed.effective) ==>
              SetsEffective(envs, sys, e, s)
  {
    hide OwnerInv, ControlStep, DataStep, Commits, Atomic, CommittedInv;
    if e.s == s && e.ControlEvent? {
      assert OwnerInv(envs[s], sys.rams[s], sys.owners[s]);
      var env, ram, o := envs[s], sys.rams[s], sys.owners[s];
      ControlRefines(env, ram, o, sys.next, e.control);
      if Commits(o, e.control) {
        InvParts(env, ram, o);
        AtomicOneWay(env, ram, o.committed, o.prepared.value.request, ControlStep(env, ram, o, sys.next, e.control).0.committed);
      }
    }
  }

  lemma InvParts(env: Env, ram: seq<u8>, o: Owner)
    requires OwnerInv(env, ram, o)
    ensures CommittedInv(env, ram, o.committed) && PreparedInv(env, ram, o)
  {
  }

  /** The event commits the ISB that the pending enable was waiting for. */
  predicate SetsEffective(envs: seq<Env>, sys: System, e: Event, s: nat)
    requires Shaped(envs, sys) && s < |envs|
  {
    var act := ActOf(envs, sys, e);
    && act.Operate? && act.s == s && act.request.operation == ISB
    && sys.owners[s].committed.enablePc == Some(act.request.pc)
  }

  lemma AtomicOneWay(env: Env, ram: seq<u8>, c: Committed, q: ControlRequest, next: Committed)
    requires CommittedInv(env, ram, c) && Atomic(env, ram, c, q) == Propose(next)
    ensures MmuBit(c.architectural) ==> MmuBit(next.architectural)
    ensures MmuBit(c.effective) ==> MmuBit(next.effective)
    ensures !MmuBit(c.effective) && MmuBit(next.effective) ==> q.operation == ISB && c.enablePc == Some(q.pc)
  {
    hide ControlsValid, Configures, Guard, MmuBit, HoldsIsb;
  }

  /** Once set, neither M bit clears on any run. */
  lemma {:induction false} RunOneWay(envs: seq<Env>, sys: System, es: seq<Event>, s: nat)
    requires SystemInv(envs, sys) && s < |envs|
    ensures MmuBit(sys.owners[s].committed.architectural) ==> MmuBit(Run(envs, sys, es).owners[s].committed.architectural)
    ensures MmuBit(sys.owners[s].committed.effective) ==> MmuBit(Run(envs, sys, es).owners[s].committed.effective)
    decreases |es|
  {
    hide SystemInv, Step, MmuBit;
    RunShape(envs, sys);
    if es != [] {
      StepOneWay(envs, sys, es[0], s);
      StepKeeps(envs, sys, es[0]);
      RunOneWay(envs, Step(envs, sys, es[0]), es[1..], s);
    }
  }

  /** Whenever a run turns the effective MMU on, some event of it commits the awaited ISB. */
  lemma {:induction false} EnabledOnlyByIsb(envs: seq<Env>, sys: System, es: seq<Event>, s: nat)
    requires SystemInv(envs, sys) && s < |envs|
    requires !MmuBit(sys.owners[s].committed.effective) && MmuBit(Run(envs, sys, es).owners[s].committed.effective)
    ensures exists k :: 0 <= k < |es| && SetsEffective(envs, Run(envs, sys, es[..k]), es[k], s)
    decreases |es|
  {
    hide SystemInv, Step, MmuBit, SetsEffective;
    RunShape(envs, sys);
    var next := Step(envs, sys, es[0]);
    StepOneWay(envs, sys, es[0], s);
    StepKeeps(envs, sys, es[0]);
    if MmuBit(next.owners[s].committed.effective) {
      assert es[..0] == [];
      assert SetsEffective(envs, Run(envs, sys, es[..0]), es[0], s);
    } else {
      EnabledOnlyByIsb(envs, next, es[1..], s);
      var k :| 0 <= k < |es[1..]| && SetsEffective(envs, Run(envs, next, es[1..][..k]), es[1..][k], s);
      assert es[..k + 1][1..] == es[1..][..k];
      assert SetsEffective(envs, Run(envs, sys, es[..k + 1]), es[k + 1], s);
    }
  }

  /* ---------- Counters ---------- */

  /** Committed register writes of one service along a run. */
  function Writes(envs: seq<Env>, sys: System, es: seq<Event>, s: nat): (n: nat)
    requires Shaped(envs, sys)
    decreases |es|
  {
    if es == [] then 0
    else
      var act := ActOf(envs, sys, es[0]);
      (if act.Operate? && act.s == s && act.request.operation == WRITE then 1 else 0)
      + Writes(envs, Step(envs, sys, es[0]), es[1..], s)
  }

  /** Events of a run after which the effective controls of one service differ. */
  function Changes(envs: seq<Env>, sys: System, es: seq<Event>, s: nat): (n: nat)
    requires Shaped(envs, sys) && s < |envs|
    decreases |es|
  {
    if es == [] then 0
    else
      var next := Step(envs, sys, es[0]);
      (if next.owners[s].committed.effective != sys.owners[s].committed.effective then 1 else 0)
      + Changes(envs, next, es[1..], s)
  }

  lemma StepCounts(envs: seq<Env>, sys: System, e: Event, s: nat)
    requires SystemInv(envs, sys) && s < |envs|
    ensures var before, after := sys.owners[s].committed, Step(envs, sys, e).owners[s].committed;
            var act := ActOf(envs, sys, e);
            && after.revision == before.revision
                 + (if act.Operate? && act.s == s && act.request.operation == WRITE then 1 else 0)
            && after.epoch == before.epoch + (if after.effective != before.effective then 1 else 0)
  {
    hide OwnerInv, ControlStep, DataStep, Commits, Atomic, CommittedInv;
    if e.s == s && e.ControlEvent? {
      assert OwnerInv(envs[s], sys.rams[s], sys.owners[s]);
      var env, ram, o := envs[s], sys.rams[s], sys.owners[s];
      ControlRefines(env, ram, o, sys.next, e.control);
      if Commits(o, e.control) {
        AtomicCounts(env, ram, o.committed, o.prepared.value.request, ControlStep(env, ram, o, sys.next, e.control).0.committed);
      }
    }
  }

  lemma AtomicCounts(env: Env, ram: seq<u8>, c: Committed, q: ControlRequest, next: Committed)
    requires Atomic(env, ram, c, q) == Propose(next)
    ensures next.revision == c.revision + (if q.operation == WRITE then 1 else 0)
    ensures next.epoch == c.epoch + (if next.effective != c.effective then 1 else 0)
  {
    hide ControlsValid, Configures, Guard, MmuBit, Written;
  }

  /** Revision counts committed writes and epoch counts effective changes, on every run. */
  lemma {:induction false} RunCounts(envs: seq<Env>, sys: System, es: seq<Event>, s: nat)
    requires SystemInv(envs, sys) && s < |envs|
    ensures var before, after := sys.owners[s].committed, Run(envs, sys, es).owners[s].committed;
            && after.revision == before.revision + Writes(envs, sys, es, s)
            && after.epoch == before.epoch + Changes(envs, sys, es, s)
    decreases |es|
  {
    hide SystemInv, Step, ActOf;
    RunShape(envs, sys);
    if es != [] {
      StepCounts(envs, sys, es[0], s);
      StepKeeps(envs, sys, es[0]);
      RunCounts(envs, Step(envs, sys, es[0]), es[1..], s);
    }
  }
}
