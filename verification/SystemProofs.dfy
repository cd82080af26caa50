/** Thread and identification registers: the emitted code moves what the instruction moves, or traps. */
module SystemProofs {
  import opened Basics
  import opened PowersOfTwo
  import opened Words
  import opened LittleEndian
  import opened A64
  import opened HostOps
  import opened Emission
  import opened HostRuns
  import opened ConditionProofs
  import opened DataProofs
  import opened EpilogueProofs
  import opened PairEmission
  import opened PairProofs
  import opened SystemEmission

  /** MRS and MSR of a thread register that the exception level may move. */
  lemma ThreadRuns(w: bv32, h: Host, t: ThreadRegister, el: nat)
    requires h.rcx.Pointer? && !ThreadDenied(el, t, Flag(w, 21))
    ensures MoveThread(h.cpu.state, el, w, t).Through?
    ensures Lands(ThreadCode(w, t), h, MoveThread(h.cpu.state, el, w, t).state)
  {
    if Flag(w, 21) {
      ThreadReads(w, h, t);
    } else {
      ThreadWrites(w, h, t);
    }
  }

  lemma ThreadReads(w: bv32, h: Host, t: ThreadRegister)
    requires h.rcx.Pointer?
    ensures Lands([LoadThread(t)] + Save(Reg(w, 0), false), h, SetX(h.cpu.state, Reg(w, 0), GetThread(h.cpu.state, t)))
  {
    hide Runs, Lands, Field, SetX, Extend, GetThread, Save;
    var p, k := Start(h);
    var k1 := k.(rax := GetThread(h.cpu.state, t));
    p := Do(p, h, k, LoadThread(t), k1);
    ExtendFull(k1.rax);
    p, k := SaveResult(p, h, k1, Reg(w, 0), false, k1.rax);
    Landed(p, h, k);
    assert p == [LoadThread(t)] + Save(Reg(w, 0), false);
  }

  lemma ThreadWrites(w: bv32, h: Host, t: ThreadRegister)
    requires h.rcx.Pointer?
    ensures Lands(Load(Reg(w, 0), false, true) + [StoreThread(t)], h, SetThread(h.cpu.state, t, X(h.cpu.state, Reg(w, 0), true)))
  {
    hide Runs, Lands, Field, X, Extend, SetThread, Load;
    var p, k := Start(h);
    p, k := LoadOperand(p, h, k, Reg(w, 0), false, true);
    ExtendFull(X(h.cpu.state, Reg(w, 0), true));
    var k1 := k.(cpu := k.cpu.(state := SetThread(k.cpu.state, t, k.rax)));
    p := Do(p, h, k, StoreThread(t), k1);
    Landed(p, h, k1);
    assert p == Load(Reg(w, 0), false, true) + [StoreThread(t)];
  }

  /** The level test leaves zero exactly at EL1. */
  lemma LevelRuns(h: Host) returns (k: Host)
    requires h.rcx.Pointer?
    ensures Runs([CompareLevel(1)], h, k) && k.cpu == h.cpu && k.rcx == h.rcx
    ensures k.flags.Known? && (k.flags.zf <==> h.cpu.state.special.level == 1)
  {
    hide Runs, Arithmetic, FromNat;
    var a, b := FromNat(h.cpu.state.special.level, 32), FromNat(1, 32);
    CompareEqual(a, b);
    SubFlagsKnown(a, b);
    LevelWord(h.cpu.state.special.level);
    k := h.(flags := Arithmetic(Sub, a, b).1);
    var p, k0 := Start(h);
    p := Do(p, h, k0, CompareLevel(1), k);
    assert p == [CompareLevel(1)];
  }

  lemma LevelWord(level: u32)
    ensures FromNat(level, 32) == FromNat(1, 32) <==> level == 1
  {
    hide FromNat;
    assert Pow2(32) == 0x1_0000_0000 by { FivePowers(); Pow2Add(4, 4); Pow2Add(8, 8); Pow2Add(16, 16); }
    ValFromNat(level, 32);
    ValFromNat(1, 32);
    ModUnique(level, Pow2(32), 0, level);
    ModUnique(1, Pow2(32), 0, 1);
  }

  /** The higher controls, ORed: zero exactly when none is set. */
  lemma ControlsRun(h: Host) returns (k: Host)
    requires h.rcx.Pointer?
    ensures Runs([LoadHcr] + [OrScr], h, k) && k.cpu == h.cpu && k.rcx == h.rcx
    ensures k.flags.Known? && (k.flags.zf <==> IsZero(Or(h.cpu.state.special.hcr, h.cpu.state.special.scr)))
  {
    hide Runs, IsZero, Or;
    var p, k0 := Start(h);
    var k1 := k0.(rax := h.cpu.state.special.hcr);
    p := Do(p, h, k0, LoadHcr, k1);
    var r := Or(h.cpu.state.special.hcr, h.cpu.state.special.scr);
    k := k1.(rax := r, flags := HostOps.LogicFlags(r));
    p := Do(p, h, k1, OrScr, k);
    assert p == [LoadHcr] + [OrScr];
  }

  lemma ConstantRuns(w: bv32, h: Host, v: Word)
    requires h.rcx.Pointer?
    ensures Lands([MovImm(RAX, v)] + Save(Reg(w, 0), false), h, SetX(h.cpu.state, Reg(w, 0), v))
  {
    hide Runs, Lands, Field, SetX, Extend, Save;
    var p, k := Start(h);
    p, k := Imm(p, h, k, RAX, v);
    ExtendFull(v);
    p, k := SaveResult(p, h, k, Reg(w, 0), false, v);
    Landed(p, h, k);
    assert p == [MovImm(RAX, v)] + Save(Reg(w, 0), false);
  }

  /** What the code must do: fall through with the new state, or return with the fault. */
  predicate Answered(ops: seq<Op>, h: Host, effect: Effect, pc: Word, n: nat)
  {
    if effect.Through? then Lands(ops, h, effect.state)
    else
      && effect.Fault?
      && Returns(ops, h, h.cpu.(state := effect.state, pc := pc, retired := Retire(h.cpu.retired, n)), effect.status)
  }

  /** A read of an identification register: the controls decide when the code runs. */
  lemma IdentityRuns(w: bv32, pc: Word, n: nat, h: Host)
    requires h.rcx.Pointer?
    ensures Answered(IdentityCode(w, pc, n), h, ReadIdentity(h.cpu.state, w), pc, n)
  {
    hide Field, SetX, IdentityValue, FaultCode, IsZero, Or, Save, Run, Guard, Reg, Pow2;
    var trap := FaultCode(w, pc, n, SystemRegisterTrap);
    var tail := [MovImm(RAX, IdentityValue(w))] + Save(Reg(w, 0), false);
    var controls := [LoadHcr] + [OrScr];
    var k := LevelRuns(h);
    GuardRuns([CompareLevel(1)], NotZero, controls + [Jcc(Zero, |trap|)], 0, trap + tail, h, k);
    assert (trap + tail)[0..] == trap + tail;
    if h.cpu.state.special.level != 1 {
      FaultRuns(w, k, pc, n, SystemRegisterTrap);
      RunAppend(trap, tail, k);
    } else {
      var m := ControlsRun(k);
      assert controls + [Jcc(Zero, |trap|)] + (trap + tail) == controls + ([Jcc(Zero, |trap|)] + (trap + tail));
      RunAppend(controls, [Jcc(Zero, |trap|)] + (trap + tail), k);
      RunJcc(Zero, |trap|, trap + tail, m);
      assert (trap + tail)[|trap|..] == tail;
      FaultRuns(w, m, pc, n, SystemRegisterTrap);
      RunAppend(trap, tail, m);
      ConstantRuns(w, m, IdentityValue(w));
    }
  }
}
