/** Block epilogues: the program counter, the retired count and the status. */
module EpilogueProofs {
  import opened PowersOfTwo
  import opened Words
  import opened A64
  import opened HostOps
  import opened Emission
  import opened HostRuns

  /** The code returns with this guest state and status. */
  predicate Returns(ops: seq<Op>, h: Host, cpu: Cpu, status: Status)
  {
    var o := Run(ops, h);
    o.Done? && o.h.cpu == cpu && o.status == status
  }

  function Retire(retired: nat, count: nat): (n: nat)
  {
    (retired + count) % Pow2(64)
  }

  lemma ReturnsNow(p: seq<Op>, h: Host, k: Host, status: Status)
    requires Runs(p, h, k)
    ensures Returns(p + [Ret(status)], h, k.cpu, status)
  {
    RunAppend(p, [Ret(status)], h);
  }

  lemma FinishRuns(p: seq<Op>, h: Host, k: Host, pc: Word, count: nat, status: Status)
    requires Runs(p, h, k) && k.rcx.Pointer?
    ensures Returns(p + Finish(pc, count, status), h, k.cpu.(pc := pc, retired := Retire(k.cpu.retired, count)), status)
  {
    hide Runs, Returns, Pow2;
    var q, m := Imm(p, h, k, RAX, pc);
    var m1 := m.(cpu := m.cpu.(pc := pc));
    q := Do(q, h, m, StorePc(RAX), m1);
    var m2 := m1.(cpu := m1.cpu.(retired := Retire(m1.cpu.retired, count)), flags := Unknown);
    q := Do(q, h, m1, AddRetired(count), m2);
    ReturnsNow(q, h, m2, status);
    assert q + [Ret(status)] == p + Finish(pc, count, status);
  }

  /** The same, for code that is only the epilogue. */
  lemma FinishAlone(h: Host, pc: Word, count: nat, status: Status)
    requires h.rcx.Pointer?
    ensures Returns(Finish(pc, count, status), h, h.cpu.(pc := pc, retired := Retire(h.cpu.retired, count)), status)
  {
    hide Runs, Step, Returns, Pow2;
    var p, k := Start(h);
    FinishRuns(p, h, k, pc, count, status);
    assert p + Finish(pc, count, status) == Finish(pc, count, status);
  }

  lemma FaultRuns(w: bv32, h: Host, pc: Word, count: nat, status: Status)
    requires h.rcx.Pointer?
    ensures Returns(FaultCode(w, pc, count, status), h,
      h.cpu.(state := h.cpu.state.(instruction := w), pc := pc, retired := Retire(h.cpu.retired, count)), status)
  {
    hide Runs, Returns, Pow2, Finish;
    var p, k := Start(h);
    var k1 := k.(cpu := k.cpu.(state := k.cpu.state.(instruction := w)));
    p := Do(p, h, k, StoreInstruction(w), k1);
    FinishRuns(p, h, k1, pc, count, status);
    assert p + Finish(pc, count, status) == FaultCode(w, pc, count, status);
  }
}
