/**
 The owner of dynamic translation controls: a PREPARE / COMMIT / CANCEL protocol over architectural and
 effective register snapshots, with a guarded, one-way MMU enable.
 */
module DynamicMemory {
  import opened Basics
  import opened LittleEndian
  import opened MemoryAbi
  import opened Stage1

  const ISB_WORD := 0xd503_3fdf
  const PA_LIMIT := 0x1_0000_0000_0000

  const PREPARE := 1
  const COMMIT := 2
  const CANCEL := 3

  const WRITE := 1
  const ISB := 2
  const DSB := 3
  const TLBI := 4

  const SCTLR := 1
  const TTBR0 := 2
  const TTBR1 := 3
  const TCR := 4
  const MAIR := 5

  const CONTROL_OK := 0
  const CONTROL_UNSUPPORTED := 1
  const CONTROL_INVALID := 2
  const CONTROL_UNAVAILABLE := 3

  const EMPTY := 0
  const PROPOSED := 1
  const KNOWN := 2

  const CONTROL := 1
  const PENDING := 2
  const WRAP := 3
  const MAPPING := 4
  const BYTES := 5
  const STALE := 6
  const TOKEN := 7
  const MALFORMED := 8
  const OVERFLOW := 9
  const BACKING := 10

  const LAST_U64: u64 := 0xffff_ffff_ffff_ffff

  datatype Snapshot = Snapshot(sctlr: bv64, ttbr0: bv64, ttbr1: bv64, tcr: bv64, mair: bv64, hcr: bv64, scr: bv64,
                               reserved: u64)

  datatype ControlRequest = ControlRequest(
    abiVersion: u32, structSize: u32, phase: u32, operation: u32, selector: u32, currentEl: u32, flags: u32, reserved: u32,
    pc: u64, operand: u64, revision: u64, epoch: u64, before: Snapshot, candidate: Snapshot)

  datatype ControlReply = ControlReply(
    result: u32, detail: u32, phase: u32, operation: u32, selector: u32, stateTag: u32,
    token: u64, revision: u64, epoch: u64, invalidations: u64, architectural: Snapshot, effective: Snapshot)

  /** The walker's configuration; its cached translations never change an answer. */
  datatype Mmu = Mmu(ttbr0: bv64, ttbr1: bv64, tcr: bv64)

  /** What an owner is built over and never changes. */
  datatype Env = Env(walkOf: Mmu -> Walker, backing: Backing)

  /** Everything that committed operations act on. */
  datatype Committed = Committed(architectural: Snapshot, effective: Snapshot,
                                 revision: u64, epoch: u64, invalidations: u64, mmu: Mmu, enablePc: Option<u64>)

  datatype Prepared = Prepared(request: ControlRequest, reply: ControlReply, mmu: Mmu, enablePc: Option<u64>)

  datatype Owner = Owner(committed: Committed, prepared: Option<Prepared>)

  /* ---------- Controls ---------- */

  function ToControls(s: Snapshot, epoch: u64): (controls: Controls)
  {
    Controls(3, 80, 2, 0, s.sctlr, s.ttbr0, s.ttbr1, s.tcr, s.mair, s.hcr, s.scr, epoch)
  }

  /** The same controls as the mapped profile sees them: version 2, profile 1, MMU on. */
  function MappedControls(s: Snapshot): (controls: Controls)
  {
    ToControls(s, 1).(abiVersion := 2, profile := 1, sctlr := s.sctlr | 1)
  }

  function FromControls(c: Controls): (snapshot: Snapshot)
  {
    Snapshot(c.sctlr, c.ttbr0, c.ttbr1, c.tcr, c.mair, c.hcr, c.scr, 0)
  }

  predicate ControlsValidDynamic(c: Controls)
  {
    && c.abiVersion == 3 && c.structSize == 80 && c.profile == 2 && c.reserved == 0 && c.epoch != 0
    && (c.ttbr0 | c.ttbr1) >> 48 == 0 && c.tcr & ((1 << 22) | (1 << 36)) == 0
    && ControlsValid(MappedControls(FromControls(c)))
  }

  predicate MmuBit(s: Snapshot) { s.sctlr & 1 == 1 }

  /** Whether the walker accepts a configuration in its strict Normal-NC profile. */
  predicate Configures(m: Mmu)
  {
    var t0, t1 := m.tcr & 0x3f, (m.tcr >> 16) & 0x3f;
    var tg0, tg1 := (m.tcr >> 14) & 3, (m.tcr >> 30) & 3;
    var least, greatest: bv64 := if tg0 == 0 then 16 else 17, if tg0 == 0 then 39 else 47;
    var offset: bv64 := if tg0 == 0 then 0xfff else 0x3fff;
    && m.tcr & (1 << 36) == 0 && (m.ttbr0 | m.ttbr1) >> 56 == 0
    && m.tcr & (0xf << 39) == 0 && (m.tcr >> 32) & 7 <= 5 && m.tcr & (1 << 59) == 0
    && (tg0 == 0 || tg0 == 2)
    && m.tcr & ((1 << 37) | (1 << 38)) == 0
    && (t1 != 0 ==> tg1 == if tg0 == 0 then 2 else 1)
    && least <= t0 <= greatest && m.ttbr0 & offset == 0
    && (t1 != 0 ==> least <= t1 <= greatest && m.ttbr1 & offset == 0)
  }

  function MmuOf(s: Snapshot): (mmu: Mmu) { Mmu(s.ttbr0, s.ttbr1, s.tcr) }

  /** Valid controls are always accepted by the walker. */
  lemma ValidControlsConfigure(s: Snapshot)
    requires ControlsValid(MappedControls(s))
    ensures Configures(MmuOf(s))
  {
  }

  /* ---------- One control instruction as a single atomic step ---------- */

  datatype Outcome = Refuse(result: u32, detail: u32) | Propose(next: Committed)

  function Word(ram: seq<u8>, index: nat): (n: nat)
    requires index + 4 <= |ram|
  {
    Assemble(ram[index..index + 4])
  }

  datatype Guarded = Clear(next: u64) | Blocked(result: u32, detail: u32)

  /** The transition window is safe: an owned ISB word that the candidate mapping leaves where it is. */
  function Guard(env: Env, ram: seq<u8>, pc: u64, candidate: Snapshot): (guarded: Guarded)
  {
    if pc + 7 > LAST_U64 then Blocked(CONTROL_UNSUPPORTED, WRAP)
    else
      var next: u64 := pc + 4;
      var index := Offset(next, 4, env.backing.ramBase, |ram|);
      if index.None? then Blocked(CONTROL_UNAVAILABLE, BACKING)
      else if Word(ram, index.value) != ISB_WORD then Blocked(CONTROL_UNSUPPORTED, BYTES)
      else if !Configures(MmuOf(candidate)) then Blocked(CONTROL_UNSUPPORTED, CONTROL)
      else
        match env.walkOf(MmuOf(candidate))(next, Access.Execute, 1)
        case Faulted(e) =>
          if e.kind.TableUnavailable? || e.kind.TableExternalAbort? then Blocked(CONTROL_UNAVAILABLE, BACKING)
          else Blocked(CONTROL_UNSUPPORTED, MAPPING)
        case Mapped(pa, attributes) =>
          if pa != next || attributes != Some(NORMAL_NC) then Blocked(CONTROL_UNSUPPORTED, MAPPING)
          else Clear(next)
  }

  /** The operand field of a request, read as a register value rather than a token. */
  function RegisterValue(operand: u64): (v: bv64) { operand as bv64 }

  /** The architectural registers with one of them replaced. */
  function Written(s: Snapshot, selector: u32, operand: bv64): (snapshot: Snapshot)
  {
    if selector == SCTLR then s.(sctlr := operand)
    else if selector == TTBR0 then s.(ttbr0 := operand)
    else if selector == TTBR1 then s.(ttbr1 := operand)
    else if selector == TCR then s.(tcr := operand)
    else s.(mair := operand)
  }

  const GRANULE_IPS: bv64 := (3 << 14) | (3 << 30) | (7 << 32)

  predicate GranuleKept(a: Snapshot, b: Snapshot) { (a.tcr ^ b.tcr) & GRANULE_IPS == 0 }

  /** The one accepted change of SCTLR: its M bit, from clear to set. */
  predicate EnablesMmu(s: Snapshot, operand: bv64) { operand == s.sctlr | 1 }

  function AtomicWrite(env: Env, ram: seq<u8>, c: Committed, q: ControlRequest): (o: Outcome)
  {
    var expected := Written(c.architectural, q.selector, RegisterValue(q.operand));
    if MmuBit(c.architectural) then Refuse(CONTROL_UNSUPPORTED, CONTROL)
    else if q.candidate != expected then Refuse(CONTROL_INVALID, MALFORMED)
    else if !ControlsValid(MappedControls(expected)) || !GranuleKept(expected, c.effective) then
      Refuse(CONTROL_UNSUPPORTED, CONTROL)
    else if q.selector == SCTLR && (!EnablesMmu(c.architectural, RegisterValue(q.operand)) || c.architectural != c.effective) then
      Refuse(CONTROL_UNSUPPORTED, PENDING)
    else if q.selector == SCTLR && Guard(env, ram, q.pc, expected).Blocked? then
      Refuse(Guard(env, ram, q.pc, expected).result, Guard(env, ram, q.pc, expected).detail)
    else if c.revision == LAST_U64 then Refuse(CONTROL_UNSUPPORTED, OVERFLOW)
    else
      var enablePc := if q.selector == SCTLR then Some(Guard(env, ram, q.pc, expected).next) else c.enablePc;
      Propose(c.(architectural := expected, revision := c.revision + 1, enablePc := enablePc))
  }

  function AtomicBarrier(c: Committed, q: ControlRequest): (o: Outcome)
  {
    if q.candidate != c.architectural || q.operand != 0 then Refuse(CONTROL_INVALID, MALFORMED)
    else if q.operation == ISB && c.architectural != c.effective then
      if c.epoch == LAST_U64 then Refuse(CONTROL_UNSUPPORTED, OVERFLOW)
      else if !Configures(MmuOf(c.architectural)) then Refuse(CONTROL_UNSUPPORTED, CONTROL)
      else Propose(c.(effective := c.architectural, epoch := c.epoch + 1, mmu := MmuOf(c.architectural), enablePc := None))
    else if q.operation == TLBI then
      if c.invalidations == LAST_U64 then Refuse(CONTROL_UNSUPPORTED, OVERFLOW)
      else Propose(c.(invalidations := c.invalidations + 1))
    else Propose(c)
  }

  /** What one guest control instruction does, had it no protocol around it. */
  function Atomic(env: Env, ram: seq<u8>, c: Committed, q: ControlRequest): (o: Outcome)
  {
    if c.enablePc.Some? && (q.operation != ISB || c.enablePc.value != q.pc) then Refuse(CONTROL_UNSUPPORTED, PENDING)
    else if q.operation == WRITE then AtomicWrite(env, ram, c, q)
    else AtomicBarrier(c, q)
  }

  /* ---------- The protocol ---------- */

  predicate IsOperation(operation: u32)
  {
    operation == WRITE || operation == ISB || operation == DSB || operation == TLBI
  }

  predicate Malformed(q: ControlRequest)
  {
    || q.abiVersion != 1 || q.structSize != 192 || !(PREPARE <= q.phase <= CANCEL) || !IsOperation(q.operation)
    || q.currentEl != 1 || q.pc % 4 != 0 || q.flags != 0 || q.reserved != 0
    || q.before.reserved != 0 || q.candidate.reserved != 0
    || (q.operation == WRITE && !(SCTLR <= q.selector <= MAIR)) || (q.operation != WRITE && q.selector != 0)
  }

  predicate StaleRequest(c: Committed, q: ControlRequest)
  {
    q.before != c.architectural || q.revision != c.revision || q.epoch != c.epoch
  }

  const BLANK := Snapshot(0, 0, 0, 0, 0, 0, 0, 0)

  function ErrorReply(q: ControlRequest, result: u32, detail: u32): (controlReply: ControlReply)
  {
    ControlReply(result, detail, if q.phase <= 3 then q.phase else 0, if q.operation <= 4 then q.operation else 0,
                 if q.selector <= 5 then q.selector else 0, EMPTY, 0, 0, 0, 0, BLANK, BLANK)
  }

  function StateReply(c: Committed, phase: u32, q: ControlRequest, tag: u32, token: u64): (controlReply: ControlReply)
  {
    ControlReply(CONTROL_OK, 0, phase, q.operation, q.selector, tag, token,
                 c.revision, c.epoch, c.invalidations, c.architectural, c.effective)
  }

  /** What a prepared proposal installs. */
  function Installed(p: Prepared): (committed: Committed)
  {
    Committed(p.reply.architectural, p.reply.effective, p.reply.revision, p.reply.epoch, p.reply.invalidations,
              p.mmu, p.enablePc)
  }

  /** The request of a later phase, turned back into the one that was prepared. */
  function Original(q: ControlRequest, p: Prepared): (controlRequest: ControlRequest)
  {
    q.(phase := PREPARE, operand := p.request.operand)
  }

  /** PREPARE: hold the outcome of the operation under a fresh token. */
  function PrepareStep(o: Owner, next: u64, q: ControlRequest, outcome: Outcome): (r: (Owner, u64, ControlReply))
  {
    if outcome.Refuse? then (o, next, ErrorReply(q, outcome.result, outcome.detail))
    else if next == LAST_U64 then (o, next, ErrorReply(q, CONTROL_UNSUPPORTED, OVERFLOW))
    else
      var reply := StateReply(outcome.next, PREPARE, q, PROPOSED, next);
      (o.(prepared := Some(Prepared(q, reply, outcome.next.mmu, outcome.next.enablePc))), next + 1, reply)
  }

  predicate MatchesPrepared(o: Owner, q: ControlRequest)
  {
    && o.prepared.Some? && q.operand == o.prepared.value.reply.token
    && Original(q, o.prepared.value) == o.prepared.value.request
  }

  /** COMMIT or CANCEL. */
  function ResolveStep(o: Owner, q: ControlRequest): (r: (Owner, ControlReply))
  {
    if !MatchesPrepared(o, q) then (o, ErrorReply(q, CONTROL_INVALID, TOKEN))
    else if q.phase == CANCEL then (o.(prepared := None), StateReply(o.committed, CANCEL, q, KNOWN, 0))
    else
      var p := o.prepared.value;
      (Owner(Installed(p), None), p.reply.(phase := COMMIT, stateTag := KNOWN, token := 0))
  }

  /** One control call: the owner and the global token source after it, and the reply. */
  function ControlStep(env: Env, ram: seq<u8>, o: Owner, next: u64, q: ControlRequest): (r: (Owner, u64, ControlReply))
  {
    if Malformed(q) then (o, next, ErrorReply(q, CONTROL_INVALID, MALFORMED))
    else if StaleRequest(o.committed, q) then (o, next, ErrorReply(q, CONTROL_INVALID, STALE))
    else if q.phase != PREPARE then var (after, reply) := ResolveStep(o, q); (after, next, reply)
    else if o.prepared.Some? then (o, next, ErrorReply(q, CONTROL_INVALID, TOKEN))
    else PrepareStep(o, next, q, Atomic(env, ram, o.committed, q))
  }

  /* ---------- Data requests ---------- */

  function DataReply(c: Committed, result: u32, address: u64): (reply: Reply)
  {
    BlankReply(3, result, c.epoch).(address := address)
  }

  function Normalized(c: Committed, q: Request): (request: Request)
  {
    q.(abiVersion := 2, controls := MappedControls(c.effective))
  }

  /** Where a physical byte lives with the MMU off, or the reply that ends the request there. */
  function FlatByte(env: Env, ramLength: nat, c: Committed, q: Request, i: nat): (preflight: Preflight)
    requires q.address + i < PA_LIMIT
  {
    var pa: u64 := q.address + i;
    var inRam := Offset(pa, 1, env.backing.ramBase, ramLength);
    var inTables := Offset(pa, 1, env.backing.tableBase, |env.backing.tables|);
    if inRam.Some? then Ready([Place(false, inRam.value)])
    else if inTables.None? then
      Stop(DataReply(c, UNAVAILABLE, pa).(outputPa := pa, metadataFlags := HAS_OUTPUT))
    else if q.operation == STORE then Stop(DataReply(c, UNSUPPORTED, pa))
    else Ready([Place(true, inTables.value)])
  }

  function FlatBytes(env: Env, ramLength: nat, c: Committed, q: Request, n: nat): (p: Preflight)
    requires q.address + n <= PA_LIMIT
    ensures p.Ready? ==> |p.places| == n && PlacesOwned(p.places, ramLength, |env.backing.tables|, q.operation == STORE)
  {
    if n == 0 then Ready([])
    else
      var before := FlatBytes(env, ramLength, c, q, n - 1);
      if before.Stop? then before
      else match FlatByte(env, ramLength, c, q, n - 1)
           case Stop(reply) => Stop(reply)
           case Ready(last) => Ready(before.places + [last[0]])
  }

  function FlatAlignmentReply(c: Committed, q: Request): (reply: Reply)
  {
    var base := DataReply(c, GUEST_FAULT, q.address).(context := INPUT);
    if q.operation == FETCH then base.(fault := PC_ALIGNMENT, esr := 0x8a00_0000)
    else base.(fault := DATA_ALIGNMENT, fsc := 0x21, esr := 0x9600_0021 + (if q.operation == STORE then 64 else 0))
  }

  /** Physical access with the MMU off. */
  function FlatData(env: Env, ram: seq<u8>, c: Committed, q: Request): (r: (Reply, seq<u8>))
    requires q.width == 1 || q.width == 2 || q.width == 4 || q.width == 8
  {
    var n := Span(q);
    if q.address % q.width != 0 then (FlatAlignmentReply(c, q), ram)
    else if q.address + n > PA_LIMIT then (DataReply(c, UNSUPPORTED, q.address), ram)
    else
      var p := FlatBytes(env, |ram|, c, q, n);
      if p.Stop? then (p.reply, ram)
      else if q.operation == STORE then (DataReply(c, OK, 0), StoreBytes(ram, p.places, q, n))
      else
        var s := LoadBytes(ram, env.backing.tables, p.places);
        ElementBound(s, q.width, 0);
        ElementBound(s, q.width, 1);
        if c.enablePc.Some? && Element(s, q.width, 0) != ISB_WORD then (DataReply(c, UNSUPPORTED, q.address), ram)
        else (DataReply(c, OK, 0).(value0 := Element(s, q.width, 0), value1 := Element(s, q.width, 1)), ram)
  }

  /** A data request of a service that holds no prepared operation. */
  function DataWhenIdle(env: Env, ram: seq<u8>, c: Committed, q: Request): (r: (Reply, seq<u8>))
  {
    if q.abiVersion != 3 || q.controls != ToControls(c.effective, c.epoch) || q.currentEl != 1 then
      (DataReply(c, INVALID_REQUEST, 0), ram)
    else if !RequestValid(Normalized(c, q), MappedControls(c.effective)) then (DataReply(c, INVALID_REQUEST, 0), ram)
    else if c.architectural != c.effective && q.pstate & 0xc0 != 0xc0 then (DataReply(c, UNSUPPORTED, q.address), ram)
    else if c.enablePc.Some? && (q.operation != FETCH || q.pc != c.enablePc.value) then
      (DataReply(c, UNSUPPORTED, q.address), ram)
    else if MmuBit(c.effective) then
      var (reply, after) := Serve(env.walkOf(c.mmu), env.backing, ram, MappedControls(c.effective), Normalized(c, q));
      (reply.(abiVersion := 3, epoch := c.epoch), after)
    else FlatData(env, ram, c, q)
  }

  function DataStep(env: Env, ram: seq<u8>, o: Owner, q: Request): (r: (Reply, seq<u8>))
  {
    if o.prepared.Some? then (DataReply(o.committed, INVALID_REQUEST, 0), ram)
    else DataWhenIdle(env, ram, o.committed, q)
  }

  /* ---------- The owner ---------- */

  /** The process-wide source of one-shot tokens. */
  class TokenSource {
    var next: u64

    constructor ()
      ensures next == 1
    {
      next := 1;
    }
  }

  ghost predicate EnvValid(env: Env, ramLength: nat)
  {
    && BackingValid(env.backing, ramLength)
    && env.backing.ramBase + ramLength <= PA_LIMIT
    && env.backing.tableBase + |env.backing.tables| <= PA_LIMIT
    && forall m :: Configures(m) ==> PageContract(env.walkOf(m), 0x1000)
  }

  /** The controls an owner may start from: the first epoch, with the MMU off. */
  predicate Starts(controls: Controls)
  {
    ControlsValidDynamic(controls) && controls.epoch == 1 && controls.sctlr & 1 == 0
  }

  /** Both spans lie below the largest physical address. */
  predicate Reachable(bk: Backing, ramLength: nat)
  {
    && bk.ramBase < PA_LIMIT && ramLength <= PA_LIMIT - bk.ramBase
    && bk.tableBase < PA_LIMIT && |bk.tables| <= PA_LIMIT - bk.tableBase
  }

  class MemoryServiceDynamic {
    const inner: MemoryServiceV2
    const env: Env
    const tokens: TokenSource
    var architectural: Snapshot
    var effective: Snapshot
    var revision: u64
    var epoch: u64
    var invalidations: u64
    var mmu: Mmu
    var enablePc: Option<u64>
    var prepared: Option<Prepared>

    function State(): (owner: Owner)
      reads this
    {
      Owner(Committed(architectural, effective, revision, epoch, invalidations, mmu, enablePc), prepared)
    }

    /** The inner service serves the effective controls through the configured walker. */
    ghost predicate Valid()
      reads this, inner
    {
      && EnvValid(env, inner.ram.Length) && inner.backing == env.backing && inner.page == 0x1000
      && inner.controls == MappedControls(effective) && inner.walk == env.walkOf(mmu)
      && Configures(mmu) && (prepared.Some? ==> Configures(prepared.value.mmu))
    }

    constructor (inner: MemoryServiceV2, env: Env, tokens: TokenSource, controls: Controls)
      requires ControlsValidDynamic(controls) && controls.epoch == 1 && controls.sctlr & 1 == 0
      requires EnvValid(env, inner.ram.Length) && inner.backing == env.backing && inner.page == 0x1000
      requires inner.controls == MappedControls(FromControls(controls)) && inner.walk == env.walkOf(MmuOf(FromControls(controls)))
      ensures Valid() && this.inner == inner && this.env == env && this.tokens == tokens
      ensures State() == InitialOwner(FromControls(controls))
    {
      var snapshot := FromControls(controls);
      ValidControlsConfigure(snapshot);
      this.inner, this.env, this.tokens := inner, env, tokens;
      architectural, effective := snapshot, snapshot;
      revision, epoch, invalidations := 1, 1, 0;
      mmu, enablePc, prepared := MmuOf(snapshot), None, None;
    }

    /** Builds the owner with the MMU off, over a service for its first controls; says why it cannot otherwise. */
    static method New(ram: array<u8>, env: Env, tokens: TokenSource, controls: Controls) returns (r: Built<MemoryServiceDynamic>)
      requires forall m :: Configures(m) ==> PageContract(env.walkOf(m), 0x1000)
      ensures r.Built? <==> Starts(controls) && Reachable(env.backing, ram.Length) && RangesValid(env.backing, ram.Length)
      ensures r.NotBuilt? ==> (r.error == InvalidControls <==> !Starts(controls))
      ensures r.Built? ==> fresh(r.service) && fresh(r.service.inner) && r.service.Valid() && r.service.inner.ram == ram
      ensures r.Built? ==> r.service.State() == InitialOwner(FromControls(controls)) && r.service.tokens == tokens
    {
      if !Starts(controls) { return NotBuilt(InvalidControls); }
      if !Reachable(env.backing, ram.Length) { return NotBuilt(InvalidRange); }
      var snapshot := FromControls(controls);
      ValidControlsConfigure(snapshot);
      var inner := MemoryServiceV2.New(ram, env.backing, MappedControls(snapshot), env.walkOf(MmuOf(snapshot)), 0x1000);
      if inner.NotBuilt? { return NotBuilt(inner.error); }
      var service := new MemoryServiceDynamic(inner.service, env, tokens, controls);
      r := Built(service);
    }

    /** Check the transition window byte by byte before an enable is proposed. */
    method CheckGuard(pc: u64, candidate: Snapshot) returns (r: Guarded)
      requires Valid()
      ensures r == Guard(env, inner.ram[..], pc, candidate)
    {
      hide EnvValid, ControlsValid, Configures, MappedControls, Word;
      if pc + 4 > LAST_U64 || pc + 7 > LAST_U64 { return Blocked(CONTROL_UNSUPPORTED, WRAP); }
      var next: u64 := pc + 4;
      var index := Offset(next, 4, env.backing.ramBase, inner.ram.Length);
      if index.None? { return Blocked(CONTROL_UNAVAILABLE, BACKING); }
      if Word(inner.ram[..], index.value) != ISB_WORD { return Blocked(CONTROL_UNSUPPORTED, BYTES); }
      if !Configures(MmuOf(candidate)) { return Blocked(CONTROL_UNSUPPORTED, CONTROL); }
      for byte := 0 to 4
        invariant byte > 0 ==> env.walkOf(MmuOf(candidate))(next, Access.Execute, 1) == Mapped(next, Some(NORMAL_NC))
      {
        var translated := env.walkOf(MmuOf(candidate))(next, Access.Execute, 1);
        if translated.Faulted? {
          var kind := translated.failure.kind;
          return if kind.TableUnavailable? || kind.TableExternalAbort? then Blocked(CONTROL_UNAVAILABLE, BACKING)
                 else Blocked(CONTROL_UNSUPPORTED, MAPPING);
        }
        if translated.pa + byte != next + byte || translated.attributes != Some(NORMAL_NC) {
          return Blocked(CONTROL_UNSUPPORTED, MAPPING);
        }
        // The per-byte backing check cannot fail once the whole span is owned.
        assert Offset(translated.pa + byte, 1, env.backing.ramBase, inner.ram.Length) == Some(index.value + byte);
      }
      return Clear(next);
    }

    /** One phase of a control instruction. */
    method Control(q: ControlRequest) returns (out: ControlReply)
      requires Valid()
      modifies this, inner, tokens
      ensures Valid() && inner.ram[..] == old(inner.ram[..])
      ensures (State(), tokens.next, out)
              == ControlStep(env, inner.ram[..], old(State()), old(tokens.next), q)
    {
      hide EnvValid, Configures, Atomic, Malformed, MappedControls, ErrorReply, PrepareStep, ResolveStep;
      if Malformed(q) {
        out := ErrorReply(q, CONTROL_INVALID, MALFORMED);
      } else if q.before != architectural || q.revision != revision || q.epoch != epoch {
        out := ErrorReply(q, CONTROL_INVALID, STALE);
      } else if q.phase != PREPARE {
        out := Resolve(q);
      } else if prepared.Some? {
        out := ErrorReply(q, CONTROL_INVALID, TOKEN);
      } else {
        out := Prepare(q);
      }
    }

    /** COMMIT or CANCEL: consume the prepared operation that the token names. */
    method Resolve(q: ControlRequest) returns (out: ControlReply)
      requires Valid() && !Malformed(q) && q.phase != PREPARE && !StaleRequest(State().committed, q)
      modifies this, inner
      ensures Valid() && (State(), out) == ResolveStep(old(State()), q)
    {
      hide EnvValid, Configures, Atomic, Malformed, MappedControls, ErrorReply;
      if prepared.None? { return ErrorReply(q, CONTROL_INVALID, TOKEN); }
      var p := prepared.value;
      var original := q.(phase := PREPARE, operand := p.request.operand);
      if q.operand != p.reply.token || original != p.request { return ErrorReply(q, CONTROL_INVALID, TOKEN); }
      prepared := None;
      if q.phase == CANCEL {
        return ControlReply(CONTROL_OK, 0, CANCEL, q.operation, q.selector, KNOWN, 0,
                            revision, epoch, invalidations, architectural, effective);
      }
      Install(p);
      return p.reply.(phase := COMMIT, stateTag := KNOWN, token := 0);
    }

    /** Commits a proposal: both register files, the counters, the memory regime and the enable window. */
    method Install(p: Prepared)
      requires Valid() && Configures(p.mmu)
      modifies this, inner
      ensures Valid() && State() == Owner(Installed(p), old(State()).prepared)
      ensures inner.ram[..] == old(inner.ram[..])
    {
      hide EnvValid, Configures, MappedControls;
      architectural, effective := p.reply.architectural, p.reply.effective;
      revision, epoch, invalidations := p.reply.revision, p.reply.epoch, p.reply.invalidations;
      inner.controls, inner.walk := MappedControls(effective), env.walkOf(p.mmu);
      mmu, enablePc := p.mmu, p.enablePc;
    }

    /** The checks and the effect of a register write, computed without touching the owner. */
    method ProposeWrite(q: ControlRequest) returns (r: Outcome)
      requires Valid()
      ensures r == AtomicWrite(env, inner.ram[..], State().committed, q)
    {
      hide EnvValid, ControlsValid, Configures, Guard, MappedControls, GranuleKept, EnablesMmu, Written, MmuBit, RegisterValue;
      if MmuBit(architectural) { return Refuse(CONTROL_UNSUPPORTED, CONTROL); }
      var expected := Written(architectural, q.selector, RegisterValue(q.operand));
      if q.candidate != expected { return Refuse(CONTROL_INVALID, MALFORMED); }
      if !ControlsValid(MappedControls(expected)) || !GranuleKept(expected, effective) {
        return Refuse(CONTROL_UNSUPPORTED, CONTROL);
      }
      var next := enablePc;
      if q.selector == SCTLR {
        if !EnablesMmu(architectural, RegisterValue(q.operand)) || architectural != effective {
          return Refuse(CONTROL_UNSUPPORTED, PENDING);
        }
        var guarded := CheckGuard(q.pc, expected);
        if guarded.Blocked? { return Refuse(guarded.result, guarded.detail); }
        next := Some(guarded.next);
      }
      if revision == LAST_U64 { return Refuse(CONTROL_UNSUPPORTED, OVERFLOW); }
      return Propose(Committed(expected, effective, revision + 1, epoch, invalidations, mmu, next));
    }

    method ProposeBarrier(q: ControlRequest) returns (r: Outcome)
      ensures r == AtomicBarrier(State().committed, q)
    {
      if q.candidate != architectural || q.operand != 0 { return Refuse(CONTROL_INVALID, MALFORMED); }
      if q.operation == ISB && architectural != effective {
        if epoch == LAST_U64 { return Refuse(CONTROL_UNSUPPORTED, OVERFLOW); }
        if !Configures(MmuOf(architectural)) { return Refuse(CONTROL_UNSUPPORTED, CONTROL); }
        return Propose(Committed(architectural, architectural, revision, epoch + 1, invalidations, MmuOf(architectural), None));
      }
      if q.operation == TLBI {
        if invalidations == LAST_U64 { return Refuse(CONTROL_UNSUPPORTED, OVERFLOW); }
        return Propose(Committed(architectural, effective, revision, epoch, invalidations + 1, mmu, enablePc));
      }
      return Propose(State().committed);
    }

    method Evaluate(q: ControlRequest) returns (r: Outcome)
      requires Valid()
      ensures r == Atomic(env, inner.ram[..], State().committed, q)
    {
      hide EnvValid, Configures, AtomicWrite, AtomicBarrier, MappedControls;
      if enablePc.Some? && (q.operation != ISB || enablePc.value != q.pc) {
        return Refuse(CONTROL_UNSUPPORTED, PENDING);
      }
      if q.operation == WRITE { r := ProposeWrite(q); } else { r := ProposeBarrier(q); }
    }

    /** Compute a proposal, take a token for it and hold it. */
    method Prepare(q: ControlRequest) returns (out: ControlReply)
      requires Valid() && !Malformed(q) && q.phase == PREPARE && prepared.None? && !StaleRequest(State().committed, q)
      modifies this, tokens
      ensures Valid()
      ensures (State(), tokens.next, out)
              == PrepareStep(old(State()), old(tokens.next), q, Atomic(env, inner.ram[..], old(State()).committed, q))
    {
      hide EnvValid, Configures, Atomic, Malformed, MappedControls, ErrorReply, StateReply, StaleRequest;
      var outcome := Evaluate(q);
      if outcome.Refuse? { return ErrorReply(q, outcome.result, outcome.detail); }
      if tokens.next == LAST_U64 { return ErrorReply(q, CONTROL_UNSUPPORTED, OVERFLOW); }
      var token := tokens.next;
      tokens.next := token + 1;
      out := StateReply(outcome.next, PREPARE, q, PROPOSED, token);
      ProposalConfigures(env, inner.ram[..], State().committed, q, outcome.next);
      prepared := Some(Prepared(q, out, outcome.next.mmu, outcome.next.enablePc));
    }

    /** One data request, against the effective controls. */
    method Execute(q: Request) returns (out: Reply)
      requires Valid()
      modifies inner.ram
      ensures Valid() && State() == old(State())
      ensures (out, inner.ram[..]) == DataStep(env, old(inner.ram[..]), State(), q)
    {
      hide EnvValid, Configures, MappedControls, RequestValid, Serve, FlatData, DataReply, Normalized;
      if prepared.Some? { return DataReply(State().committed, INVALID_REQUEST, 0); }
      out := ExecuteIdle(q);
    }

    method ExecuteIdle(q: Request) returns (out: Reply)
      requires Valid()
      modifies inner.ram
      ensures Valid() && State() == old(State())
      ensures (out, inner.ram[..]) == DataWhenIdle(env, old(inner.ram[..]), State().committed, q)
    {
      hide EnvValid, Configures, MappedControls, Serve, FlatData, DataReply;
      if q.abiVersion != 3 || q.controls != ToControls(effective, epoch) || q.currentEl != 1 {
        return DataReply(State().committed, INVALID_REQUEST, 0);
      }
      var normalized := q.(abiVersion := 2, controls := inner.controls);
      if !RequestValid(normalized, inner.controls) { return DataReply(State().committed, INVALID_REQUEST, 0); }
      if architectural != effective && q.pstate & 0xc0 != 0xc0 {
        return DataReply(State().committed, UNSUPPORTED, q.address);
      }
      if enablePc.Some? && (q.operation != FETCH || q.pc != enablePc.value) {
        return DataReply(State().committed, UNSUPPORTED, q.address);
      }
      if MmuBit(effective) {
        InnerValid();
        out := inner.Execute(normalized);
        out := out.(abiVersion := 3, epoch := epoch);
      } else {
        out := Flat(q);
      }
    }

    lemma InnerValid()
      requires Valid()
      ensures inner.Valid()
    {
    }

    /** MMU off: place every byte, then transfer every byte. */
    method Flat(q: Request) returns (out: Reply)
      requires Valid() && Walkable(q.(address := 0))
      modifies inner.ram
      ensures (out, inner.ram[..]) == FlatData(env, old(inner.ram[..]), State().committed, q)
    {
      hide EnvValid, Configures, MappedControls, FlatBytes, FlatByte, StoreBytes, LoadBytes, Element;
      var c := State().committed;
      if q.address % q.width != 0 { return FlatAlignmentReply(c, q); }
      var bytes := q.width * q.count;
      if q.address + bytes - 1 > LAST_U64 || q.address >= PA_LIMIT || bytes > PA_LIMIT - q.address {
        return DataReply(c, UNSUPPORTED, q.address);
      }
      ghost var before := inner.ram[..];
      var stopped, places := FlatPlaces(q, bytes);
      if stopped.Some? { return stopped.value; }
      ghost var found := FlatBytes(env, |before|, c, q, bytes).places;
      assert places[..Span(q)] == found;
      if q.operation == STORE {
        inner.StoreAll(q, places);
        out := DataReply(c, OK, 0);
      } else {
        var value0, value1 := inner.Gather(q, places);
        if enablePc.Some? && value0 != ISB_WORD { return DataReply(c, UNSUPPORTED, q.address); }
        out := DataReply(c, OK, 0).(value0 := value0, value1 := value1);
      }
    }

    method FlatPlaces(q: Request, bytes: nat) returns (stopped: Option<Reply>, places: array<Place>)
      requires Valid() && q.address + bytes <= PA_LIMIT && bytes <= 16
      ensures fresh(places) && places.Length == 16
      ensures var p := FlatBytes(env, inner.ram.Length, State().committed, q, bytes);
              && (p.Stop? ==> stopped == Some(p.reply))
              && (p.Ready? ==> stopped == None && places[..bytes] == p.places)
    {
      hide EnvValid, Configures, MappedControls, FlatByte;
      places := new Place[16](_ => Place(false, 0));
      stopped := None;
      for i := 0 to bytes
        invariant FlatBytes(env, inner.ram.Length, State().committed, q, i) == Ready(places[..i])
      {
        var placed := FlatByte(env, inner.ram.Length, State().committed, q, i);
        if placed.Stop? {
          stopped := Some(placed.reply);
          FlatStopIsFinal(env, inner.ram.Length, State().committed, q, i + 1, bytes);
          return;
        }
        FlatNext(env, inner.ram.Length, State().committed, q, i);
        places[i] := placed.places[0];
        assert places[..i + 1] == places[..i] + [placed.places[0]];
      }
    }
  }

  lemma FlatNext(env: Env, ramLength: nat, c: Committed, q: Request, n: nat)
    requires q.address + n + 1 <= PA_LIMIT
    requires FlatBytes(env, ramLength, c, q, n).Ready? && FlatByte(env, ramLength, c, q, n).Ready?
    ensures |FlatByte(env, ramLength, c, q, n).places| == 1
    ensures FlatBytes(env, ramLength, c, q, n + 1)
            == Ready(FlatBytes(env, ramLength, c, q, n).places + FlatByte(env, ramLength, c, q, n).places)
  {
  }

  lemma {:induction false} FlatStopIsFinal(env: Env, ramLength: nat, c: Committed, q: Request, m: nat, n: nat)
    requires m <= n && q.address + n <= PA_LIMIT && FlatBytes(env, ramLength, c, q, m).Stop?
    ensures FlatBytes(env, ramLength, c, q, n) == FlatBytes(env, ramLength, c, q, m)
  {
    if m < n {
      FlatStopIsFinal(env, ramLength, c, q, m, n - 1);
    }
  }

  /** The walker that a proposal installs was accepted in that configuration. */
  lemma ProposalConfigures(env: Env, ram: seq<u8>, c: Committed, q: ControlRequest, next: Committed)
    requires Configures(c.mmu) && Atomic(env, ram, c, q) == Propose(next)
    ensures Configures(next.mmu)
  {
    hide Configures, Guard, ControlsValid;
  }

  function InitialOwner(s: Snapshot): (owner: Owner)
  {
    Owner(Committed(s, s, 1, 1, 0, MmuOf(s), None), None)
  }
}
