/**
 * What the mask of the storage controller does to its interrupt, said of mask bits and host latches: bit 0 silences and
 * restores delivery, no other bit matters, and a completion taken while masked is delivered when the mask goes.
 */
module AnsLaws {
  import opened Basics
  import opened AnsRouting

  predicate Silent(p: Pci)
  {
    !p.intx && !p.msi && !p.msix
  }

  /** The one latch that the enables select: MSI-X before MSI before INTx. */
  predicate Asserted(p: Pci)
  {
    && p.msix == p.msixEnabled
    && p.msi == (p.msiEnabled && !p.msixEnabled)
    && p.intx == (!p.msiEnabled && !p.msixEnabled)
  }

  /** The bound host shows nothing, or exactly its selected latch. */
  predicate Shows(a: Ans, pending: bool)
  {
    a.pci.Some? ==> if pending then Asserted(a.pci.value) else Silent(a.pci.value)
  }

  /** Bit 0 of the mask is clear. */
  predicate Open(intm: bv32) { intm & 1 == 0 }

  /** The bits of both words, and the bits of one that the other has not. */
  function Joined(intm: bv32, mask: bv32): (w: bv32) { intm | mask }
  function Without(intm: bv32, mask: bv32): (w: bv32) { intm & !mask }

  lemma SyncShows(a: Ans, accepts: bool)
    ensures Shows(SyncPci(a, accepts), a.irqStatus && Open(a.intm))
    ensures SyncPci(a, accepts) == a.(pci := SyncPci(a, accepts).pci)
    ensures SyncPci(a, accepts).pci.Some? <==> a.pci.Some?
  {
    hide TryMessage, SetIrq, Routed;
    if a.pci.Some? {
      RaiseRoutes(a.pci.value, IrqCheck(a), accepts);
      RoutedShows(SetIrq(a.pci.value, IrqCheck(a), accepts), IrqCheck(a));
    }
  }

  lemma RoutedShows(p: Pci, level: bool)
    requires Routed(p, level)
    ensures if level then Asserted(p) else Silent(p)
  {
  }

  lemma MaskBits(intm: bv32, mask: bv32)
    ensures mask & 1 != 0 ==> !Open(Joined(intm, mask)) && Open(Without(intm, mask))
    ensures mask & 1 == 0 ==> Open(Joined(intm, mask)) == Open(intm) == Open(Without(intm, mask))
  {
  }

  lemma MaskWords(intm: bv32, mask: bv32)
    ensures Masked(intm, mask) == Joined(intm, mask) && Unmasked(intm, mask) == Without(intm, mask)
  {
  }

  lemma SetApplied(a: Ans, mask: bv32, accepts: bool, intm: bv32)
    requires intm == Masked(a.intm, mask)
    ensures Apply(a, MaskSet(mask, accepts)) == SyncPci(a.(intm := intm), accepts)
  {
    hide SyncPci, Masked, Unmasked;
  }

  lemma ClearApplied(a: Ans, mask: bv32, accepts: bool, intm: bv32)
    requires intm == Unmasked(a.intm, mask)
    ensures Apply(a, MaskClear(mask, accepts)) == SyncPci(a.(intm := intm), accepts)
  {
    hide SyncPci, Masked, Unmasked;
  }

  /** A mask write leaves the new mask, and the host showing what it lets through. */
  lemma MaskWritten(a: Ans, intm: bv32, accepts: bool)
    ensures var r := SyncPci(a.(intm := intm), accepts);
      Shows(r, a.irqStatus && Open(intm)) && r.irqStatus == a.irqStatus && r.intm == intm
  {
    hide SyncPci, Shows, Open;
    SyncShows(a.(intm := intm), accepts);
  }

  /** Setting bit 0 of the mask silences the host, whatever is pending; the pending status stays. */
  lemma MaskSilences(a: Ans, mask: bv32, accepts: bool)
    requires mask & 1 != 0
    ensures var r := Apply(a, MaskSet(mask, accepts));
      Shows(r, false) && r.irqStatus == a.irqStatus && r.intm == Joined(a.intm, mask) && !Open(r.intm)
  {
    hide Apply, Shows, Open, SyncPci, Masked, Unmasked, Joined, Without;
    MaskBits(a.intm, mask);
    MaskWords(a.intm, mask);
    SetApplied(a, mask, accepts, Joined(a.intm, mask));
    MaskWritten(a, Joined(a.intm, mask), accepts);
  }

  /** Clearing it delivers what is pending. */
  lemma UnmaskRestores(a: Ans, mask: bv32, accepts: bool)
    requires mask & 1 != 0
    ensures var r := Apply(a, MaskClear(mask, accepts));
      Shows(r, a.irqStatus) && r.irqStatus == a.irqStatus && r.intm == Without(a.intm, mask) && Open(r.intm)
  {
    hide Apply, Shows, Open, SyncPci, Masked, Unmasked, Joined, Without;
    MaskBits(a.intm, mask);
    MaskWords(a.intm, mask);
    ClearApplied(a, mask, accepts, Without(a.intm, mask));
    MaskWritten(a, Without(a.intm, mask), accepts);
  }

  /** No other bit of the mask matters. */
  lemma OtherBitsIgnored(a: Ans, mask: bv32, accepts: bool)
    requires mask & 1 == 0
    ensures var r := Apply(a, MaskSet(mask, accepts)); Shows(r, a.irqStatus && Open(a.intm)) && Open(r.intm) == Open(a.intm)
    ensures var r := Apply(a, MaskClear(mask, accepts)); Shows(r, a.irqStatus && Open(a.intm)) && Open(r.intm) == Open(a.intm)
  {
    hide Apply, Shows, Open, SyncPci, Masked, Unmasked, Joined, Without;
    MaskBits(a.intm, mask);
    MaskWords(a.intm, mask);
    SetApplied(a, mask, accepts, Joined(a.intm, mask));
    ClearApplied(a, mask, accepts, Without(a.intm, mask));
    MaskWritten(a, Joined(a.intm, mask), accepts);
    MaskWritten(a, Without(a.intm, mask), accepts);
  }

  /** An accepted completion is pending, and delivered at once unless it is masked. */
  lemma CompletionDelivers(a: Ans, tail: u16, accepts: bool)
    requires tail != a.sqTail
    ensures var r := Apply(a, Submit(tail, true, accepts));
      && r.irqStatus && r.intm == a.intm && r.sqTail == tail && r.cqTail == (a.cqTail + 1) % 0x1_0000 && r.phase == !a.phase
      && Shows(r, Open(a.intm))
  {
    hide SyncPci, Shows, Open;
    SyncShows(a.(sqTail := tail, phase := !a.phase, cqTail := (a.cqTail + 1) % 0x1_0000, irqStatus := true), accepts);
  }

  /** Reading the queue to its end withdraws the interrupt; stopping earlier leaves it as it was. */
  lemma DrainWithdraws(a: Ans, head: u16, accepts: bool)
    ensures var r := Apply(a, Head(head, accepts));
      && r.cqHead == head && r.irqStatus == (a.irqStatus && head != a.cqTail)
      && Shows(r, r.irqStatus && Open(a.intm))
  {
    hide SyncPci, Shows, Open;
    assert (a.cqTail - head) % 0x1_0000 == 0 <==> head == a.cqTail;
    SyncShows(if head == a.cqTail then a.(cqHead := head, irqStatus := false) else a.(cqHead := head), accepts);
  }

  // ---------- Over runs ----------

  /** An operation that neither clears bit 0 of the mask nor disables the controller, which clears it too. */
  predicate LeavesMask(op: Op)
  {
    match op
    case MaskClear(mask, _) => mask & 1 == 0
    case WriteCc(cc, _) => cc & 1 != 0
    case _ => true
  }

  predicate Quiet(a: Ans)
  {
    !Open(a.intm) && Shows(a, false)
  }

  lemma StaysQuiet(a: Ans, op: Op)
    requires Quiet(a) && LeavesMask(op)
    ensures Quiet(Apply(a, op))
  {
    hide SyncPci, Shows, Open, ApplyPci;
    match op
    case Submit(tail, completes, accepts) =>
      if tail != a.sqTail && completes {
        CompletionDelivers(a, tail, accepts);
      } else {
        SameHost(a, a.(sqTail := tail));
      }
    case Head(head, accepts) => HeadStaysQuiet(a, head, accepts);
    case MaskSet(mask, accepts) =>
      if mask & 1 != 0 { MaskSilences(a, mask, accepts); } else { MaskKept(a, mask, accepts); }
    case MaskClear(mask, accepts) => MaskKept(a, mask, accepts);
    case WriteCc(cc, accepts) => SyncShows(a.(cc := cc, ready := true), accepts);
    case HostWrite(write) => HostStaysQuiet(a, write);
    case Bind(pci, accepts) => SyncShows(a.(pci := pci), accepts);
  }

  lemma SameHost(a: Ans, b: Ans)
    requires a.pci == b.pci && Shows(a, false)
    ensures Shows(b, false)
  {
  }

  lemma HeadStaysQuiet(a: Ans, head: u16, accepts: bool)
    requires Quiet(a)
    ensures Quiet(Apply(a, Head(head, accepts)))
  {
    hide SyncPci, Shows, Open;
    var b := a.(cqHead := head);
    SyncShows(if (b.cqTail - head) % 0x1_0000 == 0 then b.(irqStatus := false) else b, accepts);
  }

  lemma MaskKept(a: Ans, mask: bv32, accepts: bool)
    requires Quiet(a) && mask & 1 == 0
    ensures Quiet(Apply(a, MaskSet(mask, accepts))) && Quiet(Apply(a, MaskClear(mask, accepts)))
  {
    hide Apply, Shows, Open;
    OtherBitsIgnored(a, mask, accepts);
  }

  lemma HostStaysQuiet(a: Ans, write: PciOp)
    requires Quiet(a)
    ensures Quiet(Apply(a, HostWrite(write)))
  {
    hide ApplyPci, Routed;
    if a.pci.Some? && !write.Raise? {
      SilentRouted(a.pci.value);
      PciKeeps(a.pci.value, false, write);
      RoutedShows(ApplyPci(a.pci.value, write), false);
    }
  }

  lemma SilentRouted(p: Pci)
    requires Silent(p)
    ensures Routed(p, false)
  {
  }

  /** Once bit 0 is set the host stays silent on every run that does not clear it, whatever completes meanwhile. */
  lemma {:induction false} MaskedRunSilent(a: Ans, ops: seq<Op>)
    requires Quiet(a) && forall i :: 0 <= i < |ops| ==> LeavesMask(ops[i])
    ensures Quiet(Run(a, ops))
    decreases |ops|
  {
    hide Apply, Quiet, LeavesMask;
    if ops != [] {
      StaysQuiet(a, ops[0]);
      MaskedRunSilent(Apply(a, ops[0]), ops[1..]);
    }
  }

  /** A completion taken while masked is not lost: it is delivered by the write that clears the mask. */
  lemma MaskedCompletionDelivered(a: Ans, tail: u16, mask: bv32, accepts: bool, answers: bool)
    requires Quiet(a) && tail != a.sqTail && mask & 1 != 0
    ensures Shows(Run(a, [Submit(tail, true, accepts)]), false)
    ensures Shows(Run(a, [Submit(tail, true, accepts), MaskClear(mask, answers)]), true)
  {
    hide Apply, Shows;
    var done, unmask := Submit(tail, true, accepts), MaskClear(mask, answers);
    CompletionDelivers(a, tail, accepts);
    UnmaskRestores(Apply(a, done), mask, answers);
    RunTwo(a, done, unmask);
  }

  lemma RunTwo(a: Ans, first: Op, second: Op)
    ensures Run(a, [first]) == Apply(a, first)
    ensures Run(a, [first, second]) == Apply(Apply(a, first), second)
  {
    hide Apply;
    assert [first, second][1..] == [second];
    assert Run(Apply(a, first), [second]) == Run(Apply(Apply(a, first), second), [second][1..]);
    assert [first][1..] == [] && [second][1..] == [];
  }

  /** Disabling the controller forgets its queue, its mask and what is pending, and the next phase is set; enabling keeps them. */
  lemma DisableForgets(a: Ans, cc: bv32, accepts: bool)
    ensures var r := Apply(a, WriteCc(cc, accepts));
      if cc & 1 != 0 then r == a.(cc := cc, ready := true, pci := r.pci) && Shows(r, a.irqStatus && Open(a.intm))
      else Shows(r, false) && r == Ans(cc, false, 0, false, 0, 0, 0, true, r.pci)
  {
    hide SyncPci, Shows, Open;
    SyncShows(a.(cc := cc, ready := true), accepts);
    SyncShows(Ans(cc, false, 0, false, 0, 0, 0, true, a.pci), accepts);
  }
}
