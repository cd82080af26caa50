/** The provider loop's load and store step (runtime/jit.c, memory_data_step) over the physical memory service. */
module ProviderStep {
  import opened Basics
  import opened PowersOfTwo
  import opened Words
  import opened LittleEndian
  import opened A64
  import opened PhysicalMemory
  import opened ProviderMemory
  import opened ProviderProofs
  import opened PairEmission
  import opened ScalarEmission
  import ScalarProofs
  import BlockProofs
  import HostOps
  import Translator
  import Abi = MemoryAbi

  /** Whatever a provider replies, only an accepted reply moves the guest; a refused one leaves all but the fault address. */
  lemma OnlyAcceptedMoves(v: View, d: Shape, q: PhysicalRequest, reply: WireReply, ram: Ram)
    requires ShapeOk(d) && q.width > 0
    ensures var (after, verdict) := Answered(v, d, q, reply, ram);
      && (verdict.Stepped? <==> Judge(q, reply).Accept?)
      && (!verdict.Stepped? ==>
            && SameButFar(after.state, v.state.(ram := ram)) && after.pc == v.pc && after.retired == v.retired
            && after.completed == v.completed)
      && (verdict.Stepped? ==>
            && reply.body.value0 < Pow256(q.width) && reply.body.value1 < Pow256(q.width)
            && after.retired == v.retired + 1 && after.state.ram == ram && after.state.pstate == v.state.pstate)
  {
    hide Val, FromNat, Updated, SignExtended, Low, Pow256;
  }

  /**
   * The two ways to run a load or store agree: the emitted code, checked and run natively, and the step
   * through the provider move the guest alike, or fail on the same address for the same reason.
   */
  lemma ModesAgree(h: HostOps.Host, before: View, after: View, out: Verdict, w: bv32, pc: nat, n: nat, cfg: Config, syndrome: nat)
    requires h.rcx.Pointer? && IsMemory(w) && Supported(cfg) && before.state == h.cpu.state && before.state.instruction == w
    requires Meets(TransferProfile(before.state, cfg, w), before, after, out, syndrome)
    ensures var o := HostOps.Run(Translator.TranslateMemory(w, pc, n, cfg).ops, h);
      && (o.Running? || o.Done?) && (o.Running? <==> out.Stepped?)
      && (o.Running? ==> o.h.cpu.state == after.state)
      && (o.Done? ==> SameButFar(o.h.cpu.state, after.state) && o.h.cpu.pc == FromInt(pc, 64))
      && (o.Done? && o.status == DataAbort ==> out == Failed(PROVIDER_UNSUPPORTED) && after.lastAddress == Val(o.h.cpu.state.far))
      && (o.Done? && o.status != DataAbort ==> out == Raised(o.status) && o.h.cpu.state == after.state)
  {
    hide *;
    NativeEffect(h, w, pc, n, cfg);
    EffectEnds(before.state, cfg, w);
    EffectsAgree(Translator.TranslateMemory(w, pc, n, cfg), TransferProfile(before.state, cfg, w), h, before, after, out, w, pc, n, syndrome);
  }

  /** The emitted code has the effect that this profile defines. */
  lemma NativeEffect(h: HostOps.Host, w: bv32, pc: nat, n: nat, cfg: Config)
    requires h.rcx.Pointer? && IsMemory(w)
    ensures BlockProofs.Meets(Translator.TranslateMemory(w, pc, n, cfg), TransferProfile(h.cpu.state, cfg, w), h, w, pc, n)
  {
    hide BlockProofs.Meets, Translator.TranslatePair, Translator.TranslateScalar, LoadStorePair, LoadStoreScalar, LoadStoreWord, Undecoded, Accesses,
      DecodeMemory, PairValid, ScalarValid, ScalarAllocated, IsPrefetch, IsPair, IsMemory;
    DecodeAgrees(h.cpu.state, cfg, w);
    Decoded(w);
    if IsPair(w) {
      BlockProofs.PairMeets(w, pc, n, cfg, h);
    } else {
      BlockProofs.ScalarMeets(w, pc, n, cfg, h);
      ScalarProofs.ScalarValidity(w);
    }
  }

  lemma Decoded(w: bv32)
    ensures DecodeMemory(w).Some? <==> if IsPair(w) then PairValid(w) else ScalarValid(w)
  {
    hide Field, Reg, Signed, Matches;
  }

  /** The ways a supported load or store can end; a fault changes nothing but the fault address. */
  predicate Ends(effect: Effect, r: State)
  {
    effect.Through?
    || (effect.Fault? && SameButFar(effect.state, r) && (effect.status == UndefinedInstruction ==> effect.state == r)
        && (effect.status == UndefinedInstruction || effect.status == SpAlignmentFault
            || effect.status == AlignmentFault || effect.status == DataAbort))
  }

  lemma EffectEnds(r: State, cfg: Config, w: bv32)
    requires Supported(cfg) && r.instruction == w
    ensures Ends(TransferProfile(r, cfg, w), r)
  {
    hide Val, MovePair, WriteBackPair, MoveScalar, WriteBackScalar, Reg, Inside, PairAddress, PairBase, PairBytes, PairUpdated,
      ScalarAddress, ScalarUpdated, FromInt, Pow2, IsPair, Undecoded, PairAllocated, ScalarAllocated, IsPrefetch;
  }

  lemma EffectsAgree(piece: Translator.Piece, effect: Effect, h: HostOps.Host, before: View, after: View, out: Verdict,
                     w: bv32, pc: nat, n: nat, syndrome: nat)
    requires Ends(effect, before.state) && before.state == h.cpu.state
    requires BlockProofs.Meets(piece, effect, h, w, pc, n) && Meets(effect, before, after, out, syndrome)
    ensures var o := HostOps.Run(piece.ops, h);
      && (o.Running? || o.Done?) && (o.Running? <==> out.Stepped?)
      && (o.Running? ==> o.h.cpu.state == after.state)
      && (o.Done? ==> SameButFar(o.h.cpu.state, after.state) && o.h.cpu.pc == FromInt(pc, 64))
      && (o.Done? && o.status == DataAbort ==> out == Failed(PROVIDER_UNSUPPORTED) && after.lastAddress == Val(o.h.cpu.state.far))
      && (o.Done? && o.status != DataAbort ==> out == Raised(o.status) && o.h.cpu.state == after.state)
  {
    hide HostOps.Run, Val, FromInt, FromNat, Pow2;
  }

  /** The base that the stack check looks at, and when it looks. */
  lemma StackRule(r: State, w: bv32, el: nat, sctlr: bv64, base: u64)
    ensures XSP(r, 31, true) == r.sp
    ensures DecodeMemory(w).Some? ==> DecodeMemory(w).value.rn == Reg(w, 5)
    ensures RegimeOf(el, sctlr, base).checkSp == ChecksStack(el, sctlr)
  {
    hide Field, Reg, Signed, Matches, PairValid, ChecksStack;
    ExtendFull(r.sp);
  }

  class Guest {
    var x: Registers
    var sp: Word
    var pstate: Word
    var far: Word
    var instruction: bv32
    var pc: Word
    var retired: nat
    var lastAddress: u64
    var requests: nat
    var completed: nat
    var syndrome: nat
    const special: Special
    const currentEl: u32
    const sctlr: bv64

    constructor (x: Registers, sp: Word, pstate: Word, pc: Word, special: Special)
      ensures this.x == x && this.sp == sp && this.pstate == pstate && this.pc == pc
      ensures this.special == special && currentEl == special.level && sctlr == special.sctlr && retired == requests == completed == 0
    {
      this.x, this.sp, this.pstate, this.pc := x, sp, pstate, pc;
      this.special, currentEl, sctlr := special, special.level, special.sctlr;
      far, instruction, retired := Zeros(64), 0, 0;
      lastAddress, requests, completed, syndrome := 0, 0, 0, 0;
    }

    /** The guest over a memory. */
    ghost function Over(ram: Ram): (view: View)
      reads this
    {
      View(State(x, sp, pstate, far, instruction, ram, special), pc, retired, lastAddress, requests, completed, syndrome)
    }

    method Register(n: nat, stack: bool, ghost ram: Ram) returns (v: Word)
      requires n < 32
      ensures v == if stack then XSP(Over(ram).state, n, true) else X(Over(ram).state, n, true)
    {
      ExtendFull(sp);
      if n < 31 { ExtendFull(x[n]); }
      v := if n == 31 then (if stack then sp else Zeros(64)) else x[n];
    }

    method Save(n: nat, value: Word, wide: bool, ghost ram: Ram)
      requires n < 32
      modifies this`x
      ensures Over(ram).state == Saved(old(Over(ram)).state, n, value, wide)
    {
      if n != 31 { x := x[n := Extend(Low(value, Width(wide)), 64)]; }
    }

    method WriteBase(n: nat, value: Word, ghost ram: Ram)
      requires n < 32
      modifies this`x, this`sp
      ensures Over(ram).state == SetXSP(old(Over(ram)).state, n, value)
    {
      ExtendFull(value);
      if n == 31 { sp := value; } else { x := x[n := value]; }
    }

    /** The offset of the access. */
    method Offset(d: Shape, ghost ram: Ram) returns (v: Word)
      requires ShapeOk(d)
      ensures v == MemoryOffset(Over(ram).state, d)
    {
      if !d.indexed { return FromInt(d.displacement, 64); }
      var index := Register(d.rm, false, ram);
      var value := index;
      if d.option % 2 == 0 {
        value := Extend(Low(index, 32), 64);
        if d.option == 6 && value[31] { value := Or(value, HighHalf()); }
      }
      v := Shift(LSL, value, d.shift);
    }

    method Request(d: Shape, address: Word, ghost ram: Ram) returns (q: PhysicalRequest)
      requires ShapeOk(d) && address == ElementAddress(Over(ram).state, d)
      ensures q == Ask(Over(ram), currentEl, sctlr, d)
    {
      var value0: u64, value1: u64 := 0, 0;
      if !d.read {
        var first := Register(d.rt, false, ram);
        value0 := Masked(first, d.width);
        if d.count == 2 {
          var second := Register(d.rt2, false, ram);
          value1 := Masked(second, d.width);
        }
      }
      q := PhysicalRequest(1, 80, if d.read then Abi.LOAD else Abi.STORE, 0, Val64(pc), Val64(address), value0, value1,
                           sctlr, 0, d.width, d.count, currentEl, 0);
    }

    /** The exchange's judgement, and the commit of an accepted reply: transfers first, then write-back. */
    method Conclude(d: Shape, updated: Word, q: PhysicalRequest, reply: WireReply, ghost was: Ram, ghost ram: Ram)
      returns (out: Verdict)
      requires ShapeOk(d) && q.width > 0 && updated == Updated(Over(was).state, d)
      modifies this
      ensures (Over(ram), out) == Answered(old(Over(was)), d, q, reply, ram)
    {
      hide Judge, AfterReply, Updated, Val, FromNat, FromInt;
      requests, lastAddress := requests + 1, q.address;
      var judgement := Judge(q, reply);
      if judgement.Failure? {
        lastAddress := judgement.lastAddress;
        return Failed(judgement.reason);
      }
      if judgement.GuestFault? {
        lastAddress, syndrome, far := judgement.address, judgement.syndrome, FromNat(judgement.address, 64);
        return Raised(AlignmentFault);
      }
      CommitReply(d, updated, reply.body.value0, reply.body.value1, ram);
      pc, retired, completed := FromInt(Val(pc) + 4, 64), retired + 1, completed + 1;
      out := Stepped;
    }

    method CommitReply(d: Shape, updated: Word, value0: u64, value1: u64, ghost ram: Ram)
      requires ShapeOk(d)
      modifies this`x, this`sp
      ensures Over(ram).state == AfterReply(old(Over(ram)).state, d, updated, value0, value1)
    {
      if d.read {
        var first := FromNat(value0, 64);
        Save(d.rt, if d.signed then SignExtended(first, d.width) else first, d.result64, ram);
        if d.count == 2 { Save(d.rt2, FromNat(value1, 64), d.result64, ram); }
      }
      if d.mode != 2 { WriteBase(d.rn, updated, ram); }
    }

    /** One load or store: decode, check the stack pointer, ask, and commit what an accepted reply brings. */
    method DataStep(service: MemoryService) returns (out: Verdict)
      requires service.Valid() && IsMemory(instruction)
      modifies this, service.ram
      ensures Meets(TransferProfile(old(Over(service.ram[..])).state, RegimeOf(currentEl, sctlr, service.base), old(instruction)),
                    old(Over(service.ram[..])), Over(service.ram[..]), out, DataSyndrome(currentEl, Stores(old(instruction))))
    {
      hide Meets, TransferProfile, RegimeOf, DataSyndrome, Stores, Answered, Served, Judge, IsMemory, DecodeMemory, Masked, Val64;
      hide MemoryOffset, XSP, X, Val, FromNat, FromInt, Reg, ChecksStack;
      ghost var was: Ram := service.ram[..];
      ghost var before := Over(was);
      ghost var cfg := RegimeOf(currentEl, sctlr, service.base);
      StackRule(before.state, instruction, currentEl, sctlr, service.base);
      RefusalMeets(before, instruction, cfg, DataSyndrome(currentEl, Stores(instruction)));
      var shape := DecodeMemory(instruction);
      if shape.None? { return Raised(UndefinedInstruction); }
      var d := shape.value;
      var base := Register(d.rn, true, was);
      if d.rn == 31 && ChecksStack(currentEl, sctlr) && Val(base) % 16 != 0 {
        far := base;
        return Raised(SpAlignmentFault);
      }
      var offset := Offset(d, was);
      var updated := FromInt(Val(base) + Val(offset), 64);
      var q := Request(d, if d.mode == 1 then base else updated, was);
      var reply := service.Execute(q);
      AnswerMeets(before, instruction, currentEl, sctlr, service.base, reply, service.ram[..]);
      out := Conclude(d, updated, q, FromService(reply), was, service.ram[..]);
    }
  }
}
