/**
 * Interrupt routing of the storage controller: the admin completion queue and its interrupt
 * (devices/ans_v1.c), and the INTx, MSI and MSI-X latches of its PCI host (devices/ans_pci_v1.c).
 */
module AnsRouting {
  import opened Basics
  import opened LittleEndian

  /** A host buffer that stands for the message address window. */
  datatype Window = Window(base: u64, mem: seq<u8>)

  datatype Pci = Pci(
    intx: bool, msi: bool, msix: bool, msiEnabled: bool, msixEnabled: bool,
    addr: u64, data: u16, window: Option<Window>, written: bool, lastAddr: u64, lastData: u16,
    aicBound: bool, aicSeen: bool, aicHigh: bool)

  // ---------- The PCI host ----------

  /** The delivery level: any latch. */
  predicate Level(p: Pci)
  {
    p.intx || p.msi || p.msix
  }

  /** A bound sink that accepts the level records it; otherwise nothing changes. */
  function SyncAic(p: Pci, accepts: bool): (pci: Pci)
  {
    if !p.aicBound || !accepts then p else p.(aicSeen := true, aicHigh := Level(p))
  }

  /** Whether the two message bytes lie inside the bound window. */
  predicate InWindow(p: Pci)
  {
    p.window.Some? && p.addr >= p.window.value.base && p.addr - p.window.value.base + 2 <= |p.window.value.mem|
  }

  /** The message is stored little-endian at its address, or not at all. */
  function TryMessage(p: Pci): (r: Pci)
    ensures r == p.(window := r.window, written := r.written, lastAddr := r.lastAddr, lastData := r.lastData)
  {
    if !InWindow(p) then p else
    var w := p.window.value;
    var at := p.addr - w.base;
    p.(window := Some(w.(mem := w.mem[at := p.data % 256][at + 1 := p.data / 256])),
       written := true, lastAddr := p.addr, lastData := p.data)
  }

  /** A level latched where the enables say; MSI also sends its message on a rise. */
  function Latched(p: Pci, level: bool): (r: Pci)
    ensures r.aicBound == p.aicBound
  {
    if p.msixEnabled then p.(msix := level, intx := false, msi := false)
    else if p.msiEnabled then
      var q := p.(msi := level, intx := false, msix := false);
      if level then TryMessage(q) else q
    else p.(intx := level, msi := false, msix := false)
  }

  function SetIrq(p: Pci, level: bool, accepts: bool): (pci: Pci)
  {
    SyncAic(Latched(p, level), accepts)
  }

  /** Turning MSI on or off moves a pending interrupt, unless MSI-X owns delivery. */
  function MovedMsi(p: Pci, enable: bool): (r: Pci)
    ensures r.aicBound == p.aicBound
  {
    var q := p.(msiEnabled := enable);
    if p.msixEnabled then q
    else if !p.msiEnabled && enable && p.intx then TryMessage(q.(msi := true, intx := false))
    else if p.msiEnabled && !enable && p.msi then q.(intx := true, msi := false)
    else q
  }

  function ApplyMsi(p: Pci, enable: bool, accepts: bool): (pci: Pci)
  {
    SyncAic(MovedMsi(p, enable), accepts)
  }

  /** Turning MSI-X on takes a pending interrupt over; turning it off hands it to MSI or INTx. */
  function MovedMsix(p: Pci, enable: bool): (r: Pci)
    ensures r.aicBound == p.aicBound
  {
    var q := p.(msixEnabled := enable);
    if !p.msixEnabled && enable && (p.intx || p.msi) then q.(msix := true, intx := false, msi := false)
    else if p.msixEnabled && !enable && p.msix then
      if p.msiEnabled then TryMessage(q.(msix := false, msi := true, intx := false))
      else q.(msix := false, intx := true)
    else q
  }

  function ApplyMsix(p: Pci, enable: bool, accepts: bool): (pci: Pci)
  {
    SyncAic(MovedMsix(p, enable), accepts)
  }

  /** Operations that reach the latches or the message registers; accepts is the sink's answer. */
  datatype PciOp =
    | Raise(level: bool, accepts: bool)
    | EnableMsi(enable: bool, accepts: bool)
    | EnableMsix(enable: bool, accepts: bool)
    | SetAddress(addr: u64)
    | SetData(data: u16)
    | BindWindow(window: Option<Window>)
    | BindAic(bound: bool, accepts: bool)

  function ApplyPci(p: Pci, op: PciOp): (pci: Pci)
  {
    match op
    case Raise(level, accepts) => SetIrq(p, level, accepts)
    case EnableMsi(enable, accepts) => ApplyMsi(p, enable, accepts)
    case EnableMsix(enable, accepts) => ApplyMsix(p, enable, accepts)
    case SetAddress(addr) => p.(addr := addr)
    case SetData(data) => p.(data := data)
    case BindWindow(window) =>
      if window.None? then p.(window := None, written := false)
      else if |window.value.mem| < 2 then p
      else p.(window := window)
    case BindAic(bound, accepts) =>
      if !bound then p.(aicBound := false, aicSeen := false, aicHigh := false)
      else SyncAic(p.(aicBound := true), accepts)
  }

  /** The level sits in exactly the latch that the enables select, MSI-X before MSI before INTx. */
  predicate Routed(p: Pci, level: bool)
  {
    && p.msix == (level && p.msixEnabled)
    && p.msi == (level && !p.msixEnabled && p.msiEnabled)
    && p.intx == (level && !p.msixEnabled && !p.msiEnabled)
  }

  /** The level after a run: the last one raised. */
  function LastLevel(level: bool, ops: seq<PciOp>): (b: bool)
    decreases |ops|
  {
    if ops == [] then level else LastLevel(if ops[0].Raise? then ops[0].level else level, ops[1..])
  }

  function RunPci(p: Pci, ops: seq<PciOp>): (pci: Pci)
    decreases |ops|
  {
    if ops == [] then p else RunPci(ApplyPci(p, ops[0]), ops[1..])
  }

  /** A raise routes whatever was latched before; every other operation keeps the routed level. */
  lemma PciKeeps(p: Pci, level: bool, op: PciOp)
    requires op.Raise? || Routed(p, level)
    ensures Routed(ApplyPci(p, op), if op.Raise? then op.level else level)
  {
    hide TryMessage, SyncAic, SetIrq, ApplyMsi, ApplyMsix, Routed;
    match op
    case Raise(level', accepts) => RaiseRoutes(p, level', accepts);
    case EnableMsi(enable, accepts) => MsiRoutes(p, level, enable, accepts);
    case EnableMsix(enable, accepts) => MsixRoutes(p, level, enable, accepts);
    case _ => BindRoutes(p, level, op);
  }

  lemma BindRoutes(p: Pci, level: bool, op: PciOp)
    requires Routed(p, level) && !op.Raise? && !op.EnableMsi? && !op.EnableMsix?
    ensures Routed(ApplyPci(p, op), level)
  {
    hide TryMessage, SetIrq, ApplyMsi, ApplyMsix;
  }

  lemma RaiseRoutes(p: Pci, level: bool, accepts: bool)
    ensures Routed(SetIrq(p, level, accepts), level)
  {
    hide TryMessage;
  }

  lemma MsiRoutes(p: Pci, level: bool, enable: bool, accepts: bool)
    requires Routed(p, level)
    ensures Routed(ApplyMsi(p, enable, accepts), level)
  {
    hide TryMessage;
  }

  lemma MsixRoutes(p: Pci, level: bool, enable: bool, accepts: bool)
    requires Routed(p, level)
    ensures Routed(ApplyMsix(p, enable, accepts), level)
  {
    hide TryMessage;
  }

  /**
   * Under any interleaving of raises, enable toggles and bindings, at most one latch is set and
   * the delivery level is the last one raised: nothing is lost and nothing invented.
   */
  lemma {:induction false} RoutingFollowsLevel(p: Pci, level: bool, ops: seq<PciOp>)
    requires Routed(p, level)
    ensures var r := RunPci(p, ops);
      && Routed(r, LastLevel(level, ops)) && Level(r) == LastLevel(level, ops)
      && !(r.intx && r.msi) && !(r.intx && r.msix) && !(r.msi && r.msix)
    decreases |ops|
  {
    hide ApplyPci;
    if ops != [] {
      PciKeeps(p, level, ops[0]);
      RoutingFollowsLevel(ApplyPci(p, ops[0]), if ops[0].Raise? then ops[0].level else level, ops[1..]);
    }
  }

  /** The sink shows the delivery level after every operation it accepts. */
  lemma SinkShowsLevel(p: Pci, op: PciOp)
    requires p.aicBound && (op.Raise? || op.EnableMsi? || op.EnableMsix?) && op.accepts
    ensures var r := ApplyPci(p, op); r.aicSeen && r.aicHigh == Level(r)
  {
    hide Latched, MovedMsi, MovedMsix;
  }

  lemma TwoBytes(d: u16)
    ensures Assemble([d % 256, d / 256]) == d
  {
    assert [d % 256, d / 256][1..] == [d / 256];
    assert [d / 256][1..] == [];
    assert Assemble([]) == 0;
    assert Assemble([d / 256]) == d / 256;
  }

  /** A message inside the window stores the data in its two bytes and nothing else. */
  lemma MessageBytes(p: Pci)
    requires InWindow(p)
    ensures var r := TryMessage(p);
      var at := p.addr - p.window.value.base;
      && r.window.Some? && r.written && r.lastAddr == p.addr && r.lastData == p.data
      && var before, after := p.window.value.mem, r.window.value.mem;
         && |after| == |before| && Assemble(after[at..at + 2]) == p.data
         && forall i :: 0 <= i < |before| && i != at && i != at + 1 ==> after[i] == before[i]
  {
    hide Assemble;
    var at := p.addr - p.window.value.base;
    var after := TryMessage(p).window.value.mem;
    assert after[at..at + 2] == [p.data % 256, p.data / 256];
    TwoBytes(p.data);
  }

  /** Guest memory changes only through a message, and a message is sent only as MSI takes an interrupt. */
  lemma MessageOnlyForMsi(p: Pci, op: PciOp)
    requires !op.BindWindow? && ApplyPci(p, op).window != p.window
    ensures var r := ApplyPci(p, op);
      r.msi && !r.msixEnabled && r.msiEnabled && InWindow(p) && r.window == TryMessage(p).window
  {
    hide TryMessage, InWindow, SetIrq, ApplyMsi, ApplyMsix;
    match op
    case Raise(level, accepts) => RaiseMessages(p, level, accepts);
    case EnableMsi(enable, accepts) => MsiMessages(p, enable, accepts);
    case EnableMsix(enable, accepts) => MsixMessages(p, enable, accepts);
    case _ =>
  }

  lemma RaiseMessages(p: Pci, level: bool, accepts: bool)
    requires SetIrq(p, level, accepts).window != p.window
    ensures var r := SetIrq(p, level, accepts);
      r.msi && !r.msixEnabled && r.msiEnabled && InWindow(p) && r.window == TryMessage(p).window
  {
    hide TryMessage, InWindow;
    MessageIgnoresLatches(p, p.(msi := level, intx := false, msix := false));
  }

  lemma MsiMessages(p: Pci, enable: bool, accepts: bool)
    requires ApplyMsi(p, enable, accepts).window != p.window
    ensures var r := ApplyMsi(p, enable, accepts);
      r.msi && !r.msixEnabled && r.msiEnabled && InWindow(p) && r.window == TryMessage(p).window
  {
    hide TryMessage, InWindow;
    MessageIgnoresLatches(p, p.(msiEnabled := enable, msi := true, intx := false));
  }

  lemma MsixMessages(p: Pci, enable: bool, accepts: bool)
    requires ApplyMsix(p, enable, accepts).window != p.window
    ensures var r := ApplyMsix(p, enable, accepts);
      r.msi && !r.msixEnabled && r.msiEnabled && InWindow(p) && r.window == TryMessage(p).window
  {
    hide TryMessage, InWindow;
    MessageIgnoresLatches(p, p.(msixEnabled := enable, msix := false, msi := true, intx := false));
  }

  lemma MessageIgnoresLatches(p: Pci, q: Pci)
    requires q.window == p.window && q.addr == p.addr && q.data == p.data
    ensures TryMessage(q).window == TryMessage(p).window && InWindow(q) == InWindow(p)
    ensures TryMessage(q).window != q.window ==> InWindow(q)
  {
  }

  // ---------- The controller ----------

  datatype Ans = Ans(
    cc: bv32, ready: bool, intm: bv32, irqStatus: bool, sqTail: u16, cqHead: u16, cqTail: u16, phase: bool,
    pci: Option<Pci>)

  /** The interrupt is pending and not masked. */
  predicate IrqCheck(a: Ans)
  {
    a.irqStatus && a.intm & 1 == 0
  }

  function Masked(intm: bv32, mask: bv32): (w: bv32)
  {
    intm | mask
  }

  function Unmasked(intm: bv32, mask: bv32): (w: bv32)
  {
    intm & !mask
  }

  function SyncPci(a: Ans, accepts: bool): (ans: Ans)
  {
    if a.pci.None? then a else a.(pci := Some(SetIrq(a.pci.value, IrqCheck(a), accepts)))
  }

  /** A completion: tail and phase move on and the interrupt becomes pending. */
  function Complete(a: Ans, accepts: bool): (ans: Ans)
  {
    SyncPci(a.(phase := !a.phase, cqTail := (a.cqTail + 1) % 0x1_0000, irqStatus := true), accepts)
  }

  /** The host's head: the interrupt clears when the queue is drained. */
  function Drain(a: Ans, head: u16, accepts: bool): (ans: Ans)
  {
    var b := a.(cqHead := head);
    SyncPci(if (b.cqTail - head) % 0x1_0000 == 0 then b.(irqStatus := false) else b, accepts)
  }

  function ApplyCc(a: Ans, cc: bv32, accepts: bool): (ans: Ans)
  {
    var b := a.(cc := cc);
    SyncPci(
      if cc & 1 != 0 then b.(ready := true)
      else b.(ready := false, sqTail := 0, cqHead := 0, intm := 0, irqStatus := false, cqTail := 0, phase := true),
      accepts)
  }

  /**
   * What reaches the completion queue, the mask or the bound host. completes says whether an
   * armed command passes its checks when the submission doorbell moves.
   */
  datatype Op =
    | Submit(tail: u16, completes: bool, accepts: bool)
    | Head(head: u16, accepts: bool)
    | MaskSet(mask: bv32, accepts: bool)
    | MaskClear(mask: bv32, accepts: bool)
    | WriteCc(cc: bv32, accepts: bool)
    | HostWrite(op: PciOp)
    | Bind(pci: Option<Pci>, accepts: bool)

  function Apply(a: Ans, op: Op): (ans: Ans)
  {
    match op
    case Submit(tail, completes, accepts) =>
      var b := a.(sqTail := tail);
      if tail != a.sqTail && completes then Complete(b, accepts) else b
    case Head(head, accepts) => Drain(a, head, accepts)
    case MaskSet(mask, accepts) => SyncPci(a.(intm := Masked(a.intm, mask)), accepts)
    case MaskClear(mask, accepts) => SyncPci(a.(intm := Unmasked(a.intm, mask)), accepts)
    case WriteCc(cc, accepts) => ApplyCc(a, cc, accepts)
    case HostWrite(op) =>
      if a.pci.None? || op.Raise? then a else a.(pci := Some(ApplyPci(a.pci.value, op)))
    case Bind(pci, accepts) => SyncPci(a.(pci := pci), accepts)
  }

  /** A bound host carries exactly the controller's interrupt. */
  predicate Delivers(a: Ans)
  {
    a.pci.Some? ==> Routed(a.pci.value, IrqCheck(a))
  }

  lemma AnsKeeps(a: Ans, op: Op)
    requires Delivers(a)
    ensures Delivers(Apply(a, op))
  {
    hide IrqCheck, SetIrq, ApplyPci, Routed, Masked, Unmasked;
    match op
    case Submit(tail, completes, accepts) =>
      var b := a.(sqTail := tail);
      if tail != a.sqTail && completes {
        SyncDelivers(b.(phase := !b.phase, cqTail := (b.cqTail + 1) % 0x1_0000, irqStatus := true), accepts);
      } else {
        SubmissionIsSilent(a, tail);
      }
    case Head(head, accepts) =>
      var b := a.(cqHead := head);
      SyncDelivers(if (b.cqTail - head) % 0x1_0000 == 0 then b.(irqStatus := false) else b, accepts);
    case MaskSet(mask, accepts) => SyncDelivers(a.(intm := Masked(a.intm, mask)), accepts);
    case MaskClear(mask, accepts) => SyncDelivers(a.(intm := Unmasked(a.intm, mask)), accepts);
    case WriteCc(cc, accepts) =>
      var b := a.(cc := cc);
      SyncDelivers(if cc & 1 != 0 then b.(ready := true)
        else b.(ready := false, sqTail := 0, cqHead := 0, intm := 0, irqStatus := false, cqTail := 0, phase := true), accepts);
    case HostWrite(write) =>
      if a.pci.Some? && !write.Raise? {
        PciKeeps(a.pci.value, IrqCheck(a), write);
        HostIsSilent(a, ApplyPci(a.pci.value, write));
      }
    case Bind(pci, accepts) => SyncDelivers(a.(pci := pci), accepts);
  }

  /** Synchronising makes the host carry the interrupt, whatever it carried before. */
  lemma SyncDelivers(a: Ans, accepts: bool)
    ensures Delivers(SyncPci(a, accepts))
  {
    hide Routed, SetIrq;
    if a.pci.Some? {
      RaiseRoutes(a.pci.value, IrqCheck(a), accepts);
    }
  }

  lemma SubmissionIsSilent(a: Ans, tail: u16)
    ensures IrqCheck(a.(sqTail := tail)) == IrqCheck(a)
  {
  }

  lemma HostIsSilent(a: Ans, p: Pci)
    ensures IrqCheck(a.(pci := Some(p))) == IrqCheck(a)
  {
  }

  function Run(a: Ans, ops: seq<Op>): (ans: Ans)
    decreases |ops|
  {
    if ops == [] then a else Run(Apply(a, ops[0]), ops[1..])
  }

  /** On every run a bound host's delivery level is the controller's own interrupt check. */
  lemma {:induction false} DeliveryIsIrqCheck(a: Ans, ops: seq<Op>)
    requires Delivers(a)
    ensures var r := Run(a, ops);
      Delivers(r) && (r.pci.Some? ==> Level(r.pci.value) == IrqCheck(r))
    decreases |ops|
  {
    hide Apply, IrqCheck;
    if ops != [] {
      AnsKeeps(a, ops[0]);
      DeliveryIsIrqCheck(Apply(a, ops[0]), ops[1..]);
    }
  }

  // ---------- The completion queue ----------

  /** The status bit says exactly that completions are outstanding. */
  predicate StatusExact(a: Ans)
  {
    a.irqStatus <==> a.cqTail != a.cqHead
  }

  /**
   * What a host must respect: it does not let 2^16 completions pile up, and it does not move the
   * head of a drained queue.
   */
  predicate Disciplined(a: Ans, op: Op)
  {
    match op
    case Submit(tail, completes, _) => tail != a.sqTail && completes ==> (a.cqTail + 1) % 0x1_0000 != a.cqHead
    case Head(head, _) => a.cqTail == a.cqHead ==> head == a.cqTail
    case _ => true
  }

  /** The status bit stays exact under an operation if and only if the host keeps to that discipline. */
  lemma StatusExactIff(a: Ans, op: Op)
    requires StatusExact(a)
    ensures StatusExact(Apply(a, op)) <==> Disciplined(a, op)
  {
    hide SetIrq, ApplyPci, IrqCheck;
    if op.Head? {
      HeadDifference(a.cqTail, op.head);
    }
  }

  lemma HeadDifference(tail: u16, head: u16)
    ensures (tail - head) % 0x1_0000 == 0 <==> tail == head
  {
  }

  /** Every operation of a run respects the discipline. */
  predicate AllDisciplined(a: Ans, ops: seq<Op>)
    decreases |ops|
  {
    ops == [] || (Disciplined(a, ops[0]) && AllDisciplined(Apply(a, ops[0]), ops[1..]))
  }

  lemma {:induction false} StatusExactOnRuns(a: Ans, ops: seq<Op>)
    requires StatusExact(a) && AllDisciplined(a, ops)
    ensures StatusExact(Run(a, ops))
    decreases |ops|
  {
    hide Apply, Disciplined, StatusExact;
    if ops != [] {
      StatusExactIff(a, ops[0]);
      StatusExactOnRuns(Apply(a, ops[0]), ops[1..]);
    }
  }

  /** Outstanding completions, as a host counts them. */
  function Outstanding(a: Ans): (n: nat)
  {
    (a.cqTail - a.cqHead) % 0x1_0000
  }

  /** A head that takes no more than is outstanding, with room left for a completion, is disciplined. */
  lemma CountingHost(a: Ans, op: Op)
    requires op.Head? ==> (op.head - a.cqHead) % 0x1_0000 <= Outstanding(a)
    requires op.Submit? ==> Outstanding(a) < 0xffff
    ensures Disciplined(a, op)
  {
  }

  // ---------- The objects ----------

  class Host {
    var intx: bool
    var msi: bool
    var msix: bool
    var msiEnabled: bool
    var msixEnabled: bool
    var addr: u64
    var data: u16
    var window: Option<Window>
    var written: bool
    var lastAddr: u64
    var lastData: u16
    var aicBound: bool
    var aicSeen: bool
    var aicHigh: bool

    ghost function Contents(): (pci: Pci)
      reads this
    {
      Pci(intx, msi, msix, msiEnabled, msixEnabled, addr, data, window, written, lastAddr, lastData, aicBound, aicSeen, aicHigh)
    }

    method Sync(accepts: bool)
      modifies this
      ensures Contents() == SyncAic(old(Contents()), accepts)
    {
      if aicBound && accepts {
        aicSeen, aicHigh := true, intx || msi || msix;
      }
    }

    method WriteMessage()
      modifies this
      ensures Contents() == TryMessage(old(Contents()))
    {
      if window.None? || addr < window.value.base {
        return;
      }
      var at := addr - window.value.base;
      if at > |window.value.mem| || |window.value.mem| - at < 2 {
        return;
      }
      window := Some(window.value.(mem := window.value.mem[at := data % 256][at + 1 := data / 256]));
      written, lastAddr, lastData := true, addr, data;
    }

    method RaiseLine(level: bool, accepts: bool)
      modifies this
      ensures Contents() == SetIrq(old(Contents()), level, accepts)
    {
      if msixEnabled {
        msix, intx, msi := level, false, false;
      } else if msiEnabled {
        msi, intx, msix := level, false, false;
        if level {
          WriteMessage();
        }
      } else {
        intx, msi, msix := level, false, false;
      }
      Sync(accepts);
    }

    method SwitchMsi(enable: bool, accepts: bool)
      modifies this
      ensures Contents() == ApplyMsi(old(Contents()), enable, accepts)
    {
      hide TryMessage, SyncAic;
      var was := msiEnabled;
      msiEnabled := enable;
      if !msixEnabled {
        if !was && enable {
          if intx {
            msi, intx := true, false;
            WriteMessage();
          }
        } else if was && !enable {
          if msi {
            intx, msi := true, false;
          }
        }
      }
      Sync(accepts);
    }

    method SwitchMsix(enable: bool, accepts: bool)
      modifies this
      ensures Contents() == ApplyMsix(old(Contents()), enable, accepts)
    {
      hide TryMessage, SyncAic;
      var was := msixEnabled;
      msixEnabled := enable;
      if !was && enable {
        if intx || msi {
          msix, intx, msi := true, false, false;
        }
      } else if was && !enable {
        if msix {
          msix := false;
          if msiEnabled {
            msi, intx := true, false;
            WriteMessage();
          } else {
            intx := true;
          }
        }
      }
      Sync(accepts);
    }
  }

  class Controller {
    var cc: bv32
    var ready: bool
    var intm: bv32
    var irqStatus: bool
    var sqTail: u16
    var cqHead: u16
    var cqTail: u16
    var phase: bool
    var host: Host?

    ghost function Contents(): (ans: Ans)
      reads this, host
    {
      Ans(cc, ready, intm, irqStatus, sqTail, cqHead, cqTail, phase, if host == null then None else Some(host.Contents()))
    }

    method Sync(accepts: bool)
      modifies host
      ensures Contents() == SyncPci(old(Contents()), accepts)
    {
      if host != null {
        host.RaiseLine(irqStatus && intm & 1 == 0, accepts);
      }
    }

    method SubmitDoorbell(tail: u16, completes: bool, accepts: bool)
      modifies this, host
      ensures host == old(host) && Contents() == Apply(old(Contents()), Submit(tail, completes, accepts))
    {
      hide SetIrq;
      var moved := tail != sqTail;
      sqTail := tail;
      if moved && completes {
        phase, cqTail, irqStatus := !phase, (cqTail + 1) % 0x1_0000, true;
        Sync(accepts);
      }
    }

    method HeadDoorbell(head: u16, accepts: bool)
      modifies this, host
      ensures host == old(host) && Contents() == Apply(old(Contents()), Head(head, accepts))
    {
      hide SetIrq;
      cqHead := head;
      if (cqTail - cqHead) % 0x1_0000 == 0 {
        irqStatus := false;
      }
      Sync(accepts);
    }

    method SetMask(mask: bv32, accepts: bool)
      modifies this, host
      ensures host == old(host) && Contents() == Apply(old(Contents()), MaskSet(mask, accepts))
    {
      hide SetIrq, IrqCheck, Masked;
      intm := Masked(intm, mask);
      Sync(accepts);
    }

    method ClearMask(mask: bv32, accepts: bool)
      modifies this, host
      ensures host == old(host) && Contents() == Apply(old(Contents()), MaskClear(mask, accepts))
    {
      hide SetIrq, IrqCheck, Unmasked;
      intm := Unmasked(intm, mask);
      Sync(accepts);
    }

    method ApplyEnable(value: bv32, accepts: bool)
      modifies this, host
      ensures host == old(host) && Contents() == Apply(old(Contents()), WriteCc(value, accepts))
    {
      hide SetIrq;
      cc := value;
      if value & 1 != 0 {
        ready := true;
      } else {
        ready, sqTail, cqHead, intm, irqStatus, cqTail, phase := false, 0, 0, 0, false, 0, true;
      }
      Sync(accepts);
    }

    /** A host left behind is deasserted; a new one takes the current level. */
    method BindHost(to: Host?, accepts: bool)
      modifies this, host, to
      ensures host == to
      ensures to != null && to != old(host) ==> Contents() == SyncPci(old(Contents()).(pci := Some(old(to.Contents()))), accepts)
      ensures to == null ==> Contents() == old(Contents()).(pci := None)
      ensures to != null && to == old(host) ==> Contents() == SyncPci(old(Contents()), accepts)
      ensures old(host) != null && to != old(host) ==> old(host).Contents() == SetIrq(old(host.Contents()), false, accepts)
    {
      hide SetIrq;
      if host != null && host != to {
        host.RaiseLine(false, accepts);
      }
      host := to;
      Sync(accepts);
    }
  }
}
