/** The wired interrupt controller (devices/aic_v1.c): its registers, its scan, and delivery over runs. */
module Aic {
  import opened Basics
  import opened PowersOfTwo
  import opened Words

  const MAX_IRQ := 1024
  const MAX_CPU := 32

  const REV := 0x0000
  const INFO := 0x0004
  const RST := 0x000c
  const GLB_CFG := 0x0010
  const WHOAMI := 0x2000
  const EVENT := 0x2004
  const TARGET := 0x3000
  const SW_BASE := 0x4000
  const MASK_BASE := 0x4100
  const PENDING_BASE := 0x4200
  const PENDING_END := 0x4280
  const CPU_BASE := 0x5000
  const EVENT_EXT := 0x10000

  type Word32 = s: Bits | |s| == 32 witness Zeros(32)

  /** The controller's contents: 32 words a bank, one target word an interrupt. */
  datatype Banks = Banks(
    irqCount: nat, cpuCount: nat, globalCfg: Word32,
    target: seq<Word32>, level: seq<Word32>, software: seq<Word32>, masked: seq<Word32>)

  predicate WellFormed(s: Banks)
  {
    && 0 < s.irqCount <= MAX_IRQ && 0 < s.cpuCount <= MAX_CPU
    && |s.target| == MAX_IRQ && |s.level| == |s.software| == |s.masked| == 32
  }

  /** The bit of one interrupt in a bank. */
  function At(bank: seq<Word32>, irq: nat): (b: bool)
    requires |bank| == 32 && irq < MAX_IRQ
  {
    bank[irq / 32][irq % 32]
  }

  function Put(bank: seq<Word32>, irq: nat, b: bool): (r: seq<Word32>)
    requires |bank| == 32 && irq < MAX_IRQ
    ensures |r| == 32
  {
    bank[irq / 32 := bank[irq / 32][irq % 32 := b]]
  }

  function WordCount(s: Banks): (n: nat)
  {
    (s.irqCount + 31) / 32
  }

  /** The bits of a word that stand for existing interrupts. */
  function WordValid(irqCount: nat, word: nat): (m: Word32)
  {
    seq(32, i requires 0 <= i < 32 => 32 * word + i < irqCount)
  }

  function ResetBanks(s: Banks): (after: Banks)
  {
    s.(globalCfg := Zeros(32), target := seq(MAX_IRQ, i => FromNat(1, 32)),
       level := seq(32, i => Zeros(32)), software := seq(32, i => Zeros(32)), masked := seq(32, i => Ones(32)))
  }

  // ---------- Selection ----------

  /** An interrupt this processor may take now. */
  predicate Eligible(s: Banks, cpu: nat, irq: nat)
    requires WellFormed(s) && cpu < s.cpuCount
  {
    irq < s.irqCount && (At(s.level, irq) || At(s.software, irq)) && !At(s.masked, irq) && s.target[irq][cpu]
  }

  /** The eligible interrupts from a number on, in increasing order. */
  function EligibleFrom(s: Banks, cpu: nat, from: nat): (list: seq<nat>)
    requires WellFormed(s) && cpu < s.cpuCount
    decreases MAX_IRQ - from
  {
    if from >= s.irqCount then []
    else (if Eligible(s, cpu, from) then [from] else []) + EligibleFrom(s, cpu, from + 1)
  }

  /** The interrupt the next EVENT read delivers. */
  function Next(s: Banks, cpu: nat): (r: Option<nat>)
    requires WellFormed(s) && cpu < s.cpuCount
  {
    var list := EligibleFrom(s, cpu, 0);
    if list == [] then None else Some(list[0])
  }

  /** The list holds exactly the eligible interrupts. */
  lemma {:induction false} EligibleMembers(s: Banks, cpu: nat, from: nat)
    requires WellFormed(s) && cpu < s.cpuCount
    ensures forall irq :: irq in EligibleFrom(s, cpu, from) <==> from <= irq && Eligible(s, cpu, irq)
    decreases MAX_IRQ - from
  {
    hide Eligible;
    if from < s.irqCount {
      EligibleMembers(s, cpu, from + 1);
      var rest := EligibleFrom(s, cpu, from + 1);
      forall irq ensures irq in EligibleFrom(s, cpu, from) <==> from <= irq && Eligible(s, cpu, irq) {
        if Eligible(s, cpu, from) {
          assert EligibleFrom(s, cpu, from) == [from] + rest;
          assert irq in [from] + rest <==> irq == from || irq in rest;
        } else {
          assert EligibleFrom(s, cpu, from) == [] + rest == rest;
        }
      }
    } else {
      NoneEligible(s, cpu, from);
    }
  }

  predicate Increasing(list: seq<nat>)
  {
    forall i, j :: 0 <= i < j < |list| ==> list[i] < list[j]
  }

  lemma ShortIncreases(list: seq<nat>)
    requires |list| <= 1
    ensures Increasing(list)
  {
  }

  /** A least element in front of an increasing list. */
  lemma IncreasingFrom(first: nat, rest: seq<nat>)
    requires Increasing(rest) && forall x :: x in rest ==> first < x
    ensures Increasing([first] + rest)
  {
    var list := [first] + rest;
    forall i, j | 0 <= i < j < |list| ensures list[i] < list[j] {
      assert list[j] == rest[j - 1] && rest[j - 1] in rest;
      if i > 0 {
        assert list[i] == rest[i - 1];
      }
    }
  }

  /** And it is increasing. */
  lemma {:induction false} EligibleIncreasing(s: Banks, cpu: nat, from: nat)
    requires WellFormed(s) && cpu < s.cpuCount
    ensures Increasing(EligibleFrom(s, cpu, from))
    decreases MAX_IRQ - from
  {
    hide Eligible, Increasing;
    if from < s.irqCount {
      EligibleIncreasing(s, cpu, from + 1);
      EligibleMembers(s, cpu, from + 1);
      var rest := EligibleFrom(s, cpu, from + 1);
      if Eligible(s, cpu, from) {
        IncreasingFrom(from, rest);
      } else {
        assert [] + rest == rest;
      }
    } else {
      ShortIncreases([]);
    }
  }

  lemma EligibleList(s: Banks, cpu: nat, from: nat)
    requires WellFormed(s) && cpu < s.cpuCount
    ensures var list := EligibleFrom(s, cpu, from);
      && (forall irq :: irq in list <==> from <= irq && Eligible(s, cpu, irq))
      && Increasing(list)
  {
    hide Eligible, EligibleFrom;
    EligibleMembers(s, cpu, from);
    EligibleIncreasing(s, cpu, from);
  }

  lemma NoneEligible(s: Banks, cpu: nat, from: nat)
    requires WellFormed(s) && cpu < s.cpuCount && from >= s.irqCount
    ensures forall irq :: from <= irq ==> !Eligible(s, cpu, irq)
  {
  }

  /** The next interrupt is eligible, and there is none only when nothing is. */
  lemma NextEligible(s: Banks, cpu: nat)
    requires WellFormed(s) && cpu < s.cpuCount
    ensures var irq := Next(s, cpu);
      if irq.Some? then irq.value < s.irqCount && Eligible(s, cpu, irq.value)
      else forall other :: !Eligible(s, cpu, other)
  {
    hide At;
    EligibleList(s, cpu, 0);
    var list := EligibleFrom(s, cpu, 0);
    if list != [] {
      assert list[0] in list;
    }
  }

  // ---------- Register access ----------

  /** The private window of a processor stands for its own WHOAMI page. */
  function Resolve(s: Banks, cpu: nat, off: nat): (r: Option<(nat, nat)>)
  {
    if CPU_BASE <= off < CPU_BASE + s.cpuCount * 0x80 then
      var slot := (off - CPU_BASE) / 0x80;
      var delta := (off - CPU_BASE) % 0x80;
      if delta > 0x7c then None else Some((slot, WHOAMI + delta))
    else if cpu >= s.cpuCount then None
    else Some((cpu, off))
  }

  /** The number of the bank word an offset addresses. */
  function BankWord(off: nat): (n: nat)
  {
    off % 0x80 / 4
  }

  /** An EVENT read: the delivered interrupt is masked. */
  function ReadEvent(s: Banks, cpu: nat): (r: (Banks, Word32))
    requires WellFormed(s) && cpu < s.cpuCount
  {
    var irq := Next(s, cpu);
    if irq.None? then (s, Zeros(32)) else
    NextEligible(s, cpu);
    (s.(masked := Put(s.masked, irq.value, true)), FromNat(EVENT_EXT + irq.value, 32))
  }

  function ReadLocal(s: Banks, cpu: nat, off: nat): (r: (Banks, Option<Word32>))
    requires WellFormed(s) && cpu < s.cpuCount
  {
    if off == REV then (s, Some(FromNat(2, 32)))
    else if off == INFO then (s, Some(FromNat((s.cpuCount - 1) * 0x10000 + s.irqCount, 32)))
    else if off == GLB_CFG then (s, Some(s.globalCfg))
    else if off == WHOAMI then (s, Some(FromNat(cpu, 32)))
    else if off == EVENT then
      var event := ReadEvent(s, cpu);
      (event.0, Some(event.1))
    else if TARGET <= off < SW_BASE then
      var irq := (off - TARGET) / 4;
      (s, if irq >= s.irqCount then None else Some(s.target[irq]))
    else if MASK_BASE <= off < PENDING_BASE then
      (s, if BankWord(off) >= WordCount(s) then None else Some(s.masked[BankWord(off)]))
    else if PENDING_BASE <= off < PENDING_END then
      var word := (off - PENDING_BASE) / 4;
      (s, if word >= WordCount(s) then None else Some(Or(s.level[word], s.software[word])))
    else (s, None)
  }

  /** The four bank operations: set and clear software, set and clear mask. */
  function WriteBank(s: Banks, off: nat, value: Word32): (r: Option<Banks>)
    requires WellFormed(s) && SW_BASE <= off < PENDING_BASE
  {
    var word := BankWord(off);
    var group := (off - SW_BASE) / 0x80;
    if word >= WordCount(s) || !IsZero(And(value, Not(WordValid(s.irqCount, word)))) then None
    else match group
      case 0 => Some(s.(software := s.software[word := Or(s.software[word], value)]))
      case 1 => Some(s.(software := s.software[word := And(s.software[word], Not(value))]))
      case 2 => Some(s.(masked := s.masked[word := Or(s.masked[word], value)]))
      case _ => Some(s.(masked := s.masked[word := And(s.masked[word], Not(value))]))
  }

  function WriteLocal(s: Banks, off: nat, value: Word32): (r: Option<Banks>)
    requires WellFormed(s)
  {
    if off == RST then Some(ResetBanks(s))
    else if off == GLB_CFG then Some(s.(globalCfg := value))
    else if TARGET <= off < SW_BASE then
      var irq := (off - TARGET) / 4;
      if irq >= s.irqCount || !IsZero(value[s.cpuCount..]) then None
      else Some(s.(target := s.target[irq := value]))
    else if SW_BASE <= off < PENDING_BASE then WriteBank(s, off, value)
    else None
  }

  // ---------- Operations ----------

  datatype Op =
    | SetLine(irq: nat, high: bool)
    | Read(cpu: nat, off: nat, width: nat)
    | Write(cpu: nat, off: nat, width: nat, value: Word32)

  /** One operation; a refused one changes nothing and has no reply. */
  function Apply(s: Banks, op: Op): (r: (Banks, Option<Word32>))
    requires WellFormed(s)
  {
    match op
    case SetLine(irq, high) =>
      if irq >= s.irqCount then (s, None) else (s.(level := Put(s.level, irq, high)), Some(Zeros(32)))
    case Read(cpu, off, width) =>
      var at := Resolve(s, cpu, off);
      if width != 4 || off % 4 != 0 || at.None? then (s, None) else
      ResolveInside(s, cpu, off);
      ReadLocal(s, at.value.0, at.value.1)
    case Write(cpu, off, width, value) =>
      var at := Resolve(s, cpu, off);
      if width != 4 || off % 4 != 0 || at.None? then (s, None) else
      var after := WriteLocal(s, at.value.1, value);
      if after.None? then (s, None) else (after.value, Some(Zeros(32)))
  }

  lemma ResolveInside(s: Banks, cpu: nat, off: nat)
    requires s.cpuCount > 0
    ensures var at := Resolve(s, cpu, off); at.Some? ==> at.value.0 < s.cpuCount
  {
  }

  /** The interrupt an operation delivers, if it is an EVENT read that finds one. */
  function Delivered(s: Banks, op: Op): (r: Option<nat>)
    requires WellFormed(s)
  {
    if !op.Read? || op.width != 4 || op.off % 4 != 0 then None else
    var at := Resolve(s, op.cpu, op.off);
    if at.None? || at.value.1 != EVENT then None else
    ResolveInside(s, op.cpu, op.off);
    Next(s, at.value.0)
  }

  /** Whether an operation is an accepted mask-clear write that names the interrupt. */
  predicate Unmasks(s: Banks, op: Op, irq: nat)
    requires WellFormed(s) && irq < MAX_IRQ
  {
    && op.Write? && Apply(s, op).1.Some?
    && var off := Resolve(s, op.cpu, op.off).value.1;
       && SW_BASE + 0x180 <= off < PENDING_BASE && BankWord(off) == irq / 32 && op.value[irq % 32]
  }

  // ---------- Invariants of every operation ----------

  /** Bits that stand for no interrupt stay idle: no level, no software request, masked. */
  predicate Clean(s: Banks)
    requires WellFormed(s)
  {
    forall irq :: s.irqCount <= irq < MAX_IRQ ==> !At(s.level, irq) && !At(s.software, irq) && At(s.masked, irq)
  }

  lemma PutAt(bank: seq<Word32>, irq: nat, b: bool, other: nat)
    requires |bank| == 32 && irq < MAX_IRQ && other < MAX_IRQ
    ensures At(Put(bank, irq, b), other) == if other == irq then b else At(bank, other)
  {
  }

  lemma ApplyWellFormed(s: Banks, op: Op)
    requires WellFormed(s)
    ensures WellFormed(Apply(s, op).0) && Apply(s, op).0.irqCount == s.irqCount && Apply(s, op).0.cpuCount == s.cpuCount
  {
    hide Next, Resolve, IsZero;
    if op.Read? && Resolve(s, op.cpu, op.off).Some? {
      ResolveInside(s, op.cpu, op.off);
    }
  }

  /** A bank write changes one interrupt's bit only within the valid bits of its word. */
  lemma WriteBankAt(s: Banks, off: nat, value: Word32, irq: nat)
    requires WellFormed(s) && SW_BASE <= off < PENDING_BASE && WriteBank(s, off, value).Some? && irq < MAX_IRQ
    ensures var r := WriteBank(s, off, value).value;
      var hit := BankWord(off) == irq / 32 && value[irq % 32];
      var group := (off - SW_BASE) / 0x80;
      && r.level == s.level
      && At(r.software, irq) == (if hit && group == 0 then true else if hit && group == 1 then false else At(s.software, irq))
      && At(r.masked, irq) == (if hit && group == 2 then true else if hit && group == 3 then false else At(s.masked, irq))
      && (hit ==> irq < s.irqCount)
  {
    var word := BankWord(off);
    if word == irq / 32 && value[irq % 32] {
      assert And(value, Not(WordValid(s.irqCount, word)))[irq % 32] <==> !(32 * word + irq % 32 < s.irqCount);
    }
  }

  lemma ResetClean(s: Banks)
    requires WellFormed(s)
    ensures Clean(ResetBanks(s))
  {
  }

  lemma {:induction false} ApplyClean(s: Banks, op: Op)
    requires WellFormed(s) && Clean(s)
    ensures WellFormed(Apply(s, op).0) && Clean(Apply(s, op).0)
  {
    hide Next, IsZero, At, Put, WriteBank, ResetBanks;
    ApplyWellFormed(s, op);
    var r := Apply(s, op).0;
    if op.Write? && Apply(s, op).1.Some? && Resolve(s, op.cpu, op.off).value.1 == RST {
      ResetClean(s);
    } else {
      forall irq | s.irqCount <= irq < MAX_IRQ ensures !At(r.level, irq) && !At(r.software, irq) && At(r.masked, irq) {
        ApplyCleanAt(s, op, irq);
      }
    }
  }

  lemma ApplyCleanAt(s: Banks, op: Op, irq: nat)
    requires WellFormed(s) && s.irqCount <= irq < MAX_IRQ
    requires !At(s.level, irq) && !At(s.software, irq) && At(s.masked, irq)
    requires !(op.Write? && Apply(s, op).1.Some? && Resolve(s, op.cpu, op.off).value.1 == RST)
    ensures WellFormed(Apply(s, op).0)
    ensures var r := Apply(s, op).0; !At(r.level, irq) && !At(r.software, irq) && At(r.masked, irq)
  {
    hide IsZero, At, Put, WriteBank, ResetBanks, Resolve;
    ApplyWellFormed(s, op);
    match op
    case SetLine(line, high) =>
      if line < s.irqCount {
        PutAt(s.level, line, high, irq);
      }
    case Read(cpu, off, width) =>
      ResolveInside(s, cpu, off);
      if Delivered(s, op).Some? {
        NextEligible(s, Resolve(s, cpu, off).value.0);
        PutAt(s.masked, Delivered(s, op).value, true, irq);
      }
    case Write(cpu, off, width, value) =>
      if Apply(s, op).1.Some? {
        var local := Resolve(s, cpu, off).value.1;
        if SW_BASE <= local < PENDING_BASE {
          WriteBankAt(s, local, value, irq);
        }
      }
  }

  // ---------- Delivery over runs ----------

  /** A delivered interrupt was deliverable, and is masked afterwards. */
  lemma DeliveryMasks(s: Banks, op: Op)
    requires WellFormed(s) && Delivered(s, op).Some?
    ensures var irq := Delivered(s, op).value;
      && irq < s.irqCount && !At(s.masked, irq) && WellFormed(Apply(s, op).0) && At(Apply(s, op).0.masked, irq)
      && Apply(s, op).1 == Some(FromNat(EVENT_EXT + irq, 32))
  {
    hide At, Put, Resolve, IsZero, WriteLocal, WriteBank, ResetBanks, FromNat;
    ResolveInside(s, op.cpu, op.off);
    ApplyWellFormed(s, op);
    var cpu := Resolve(s, op.cpu, op.off).value.0;
    NextEligible(s, cpu);
    PutAt(s.masked, Delivered(s, op).value, true, Delivered(s, op).value);
  }

  /** Only an accepted mask-clear write makes a masked interrupt deliverable again. */
  lemma MaskedStays(s: Banks, op: Op, irq: nat)
    requires WellFormed(s) && irq < MAX_IRQ && At(s.masked, irq) && !Unmasks(s, op, irq)
    ensures WellFormed(Apply(s, op).0) && At(Apply(s, op).0.masked, irq)
  {
    hide IsZero, At, Put, WriteBank, ResetBanks, Resolve;
    ApplyWellFormed(s, op);
    match op
    case SetLine(line, high) =>
    case Read(cpu, off, width) =>
      ResolveInside(s, cpu, off);
      if Delivered(s, op).Some? {
        NextEligible(s, Resolve(s, cpu, off).value.0);
        PutAt(s.masked, Delivered(s, op).value, true, irq);
      }
    case Write(cpu, off, width, value) =>
      if Apply(s, op).1.Some? {
        var local := Resolve(s, cpu, off).value.1;
        if local == RST {
          ResetMasks(s, irq);
        } else if SW_BASE <= local < PENDING_BASE {
          WriteBankAt(s, local, value, irq);
        }
      }
  }

  lemma ResetMasks(s: Banks, irq: nat)
    requires irq < MAX_IRQ
    ensures At(ResetBanks(s).masked, irq)
  {
  }

  /** The state before operation k of a run. */
  function StateAt(s: Banks, ops: seq<Op>, k: nat): (r: Banks)
    requires WellFormed(s) && k <= |ops|
    ensures WellFormed(r) && r.irqCount == s.irqCount && r.cpuCount == s.cpuCount
    decreases k
  {
    if k == 0 then s else
    var before := StateAt(s, ops, k - 1);
    ApplyWellFormed(before, ops[k - 1]);
    Apply(before, ops[k - 1]).0
  }

  /** Idle bits stay idle over every run. */
  lemma {:induction false} RunClean(s: Banks, ops: seq<Op>, k: nat)
    requires WellFormed(s) && Clean(s) && k <= |ops|
    ensures Clean(StateAt(s, ops, k))
    decreases k
  {
    hide Clean, Apply;
    if k > 0 {
      RunClean(s, ops, k - 1);
      ApplyClean(StateAt(s, ops, k - 1), ops[k - 1]);
    }
  }

  /** A mask bit that is set at i and never cleared is still set at j. */
  lemma {:induction false} MaskedUntil(s: Banks, ops: seq<Op>, i: nat, j: nat, irq: nat)
    requires WellFormed(s) && i <= j <= |ops| && irq < MAX_IRQ && At(StateAt(s, ops, i).masked, irq)
    requires forall k :: i <= k < j ==> !Unmasks(StateAt(s, ops, k), ops[k], irq)
    ensures At(StateAt(s, ops, j).masked, irq)
    decreases j
  {
    hide Apply, At, Unmasks;
    if i < j {
      MaskedUntil(s, ops, i, j - 1, irq);
      MaskedStays(StateAt(s, ops, j - 1), ops[j - 1], irq);
    }
  }

  /** A delivery at i finds the mask bit clear and leaves it set. */
  lemma DeliveredMasked(s: Banks, ops: seq<Op>, i: nat)
    requires WellFormed(s) && i < |ops| && Delivered(StateAt(s, ops, i), ops[i]).Some?
    ensures var irq := Delivered(StateAt(s, ops, i), ops[i]).value;
      irq < MAX_IRQ && !At(StateAt(s, ops, i).masked, irq) && At(StateAt(s, ops, i + 1).masked, irq)
  {
    assert s.irqCount <= MAX_IRQ;
    hide Apply, At, Delivered, WellFormed;
    DeliveryMasks(StateAt(s, ops, i), ops[i]);
  }

  /**
   * Over any interleaving of line changes, bank writes, resets and reads from all processors:
   * between two deliveries of one interrupt there is a write that unmasks it.
   */
  lemma AtMostOncePerUnmask(s: Banks, ops: seq<Op>, i: nat, j: nat)
    requires WellFormed(s) && i < j < |ops|
    requires Delivered(StateAt(s, ops, i), ops[i]).Some?
    requires Delivered(StateAt(s, ops, j), ops[j]) == Delivered(StateAt(s, ops, i), ops[i])
    ensures var irq := Delivered(StateAt(s, ops, i), ops[i]).value;
      irq < MAX_IRQ && exists k :: i < k < j && Unmasks(StateAt(s, ops, k), ops[k], irq)
  {
    hide Apply, At, Unmasks, Delivered, WellFormed, StateAt;
    DeliveredMasked(s, ops, i);
    DeliveredMasked(s, ops, j);
    var irq := Delivered(StateAt(s, ops, i), ops[i]).value;
    if forall k :: i + 1 <= k < j ==> !Unmasks(StateAt(s, ops, k), ops[k], irq) {
      MaskedUntil(s, ops, i + 1, j, irq);
    }
  }

  // ---------- Draining ----------

  /** n EVENT reads in a row by one processor: the state after them and what they returned. */
  function Drain(s: Banks, cpu: nat, n: nat): (r: (Banks, seq<Option<nat>>))
    requires WellFormed(s) && cpu < s.cpuCount
    decreases n
  {
    if n == 0 then (s, []) else
    NextEligible(s, cpu);
    var rest := Drain(ReadEvent(s, cpu).0, cpu, n - 1);
    (rest.0, [Next(s, cpu)] + rest.1)
  }

  /** Masking one interrupt removes it, and nothing else, from the eligible list. */
  lemma {:induction false} MaskedList(s: Banks, cpu: nat, irq: nat, from: nat)
    requires WellFormed(s) && cpu < s.cpuCount && irq < from && irq < MAX_IRQ
    ensures EligibleFrom(s.(masked := Put(s.masked, irq, true)), cpu, from) == EligibleFrom(s, cpu, from)
    decreases MAX_IRQ - from
  {
    hide Eligible, Put;
    if from < s.irqCount {
      MaskedList(s, cpu, irq, from + 1);
      EligibleKept(s, cpu, irq, from);
    }
  }

  lemma EligibleKept(s: Banks, cpu: nat, irq: nat, other: nat)
    requires WellFormed(s) && cpu < s.cpuCount && irq < MAX_IRQ && other != irq
    ensures var r := s.(masked := Put(s.masked, irq, true));
      WellFormed(r) && Eligible(r, cpu, other) == Eligible(s, cpu, other)
  {
    hide At, Put;
    if other < s.irqCount {
      PutAt(s.masked, irq, true, other);
    }
  }

  /** Reading an event takes the first eligible interrupt off the list. */
  lemma {:induction false} EventTakesFirst(s: Banks, cpu: nat, from: nat)
    requires WellFormed(s) && cpu < s.cpuCount
    ensures var list := EligibleFrom(s, cpu, from);
      list != [] ==> list[0] < MAX_IRQ && EligibleFrom(s.(masked := Put(s.masked, list[0], true)), cpu, from) == list[1..]
    decreases MAX_IRQ - from
  {
    hide Eligible, Put;
    if from < s.irqCount {
      var list := EligibleFrom(s, cpu, from);
      if Eligible(s, cpu, from) {
        assert list == [from] + EligibleFrom(s, cpu, from + 1);
        MaskedList(s, cpu, from, from + 1);
        MaskedIneligible(s, cpu, from);
        assert list[1..] == EligibleFrom(s, cpu, from + 1);
      } else {
        assert list == EligibleFrom(s, cpu, from + 1);
        EventTakesFirst(s, cpu, from + 1);
        if list != [] {
          EligibleList(s, cpu, from + 1);
          EligibleKept(s, cpu, list[0], from);
        }
      }
    }
  }

  lemma MaskedIneligible(s: Banks, cpu: nat, irq: nat)
    requires WellFormed(s) && cpu < s.cpuCount && irq < MAX_IRQ
    ensures !Eligible(s.(masked := Put(s.masked, irq, true)), cpu, irq)
  {
    hide At, Put;
    PutAt(s.masked, irq, true, irq);
  }

  /**
   * A drain returns the processor's eligible interrupts in increasing order, one a read, and
   * the read after the last returns none.
   */
  lemma {:induction false} DrainInOrder(s: Banks, cpu: nat)
    requires WellFormed(s) && cpu < s.cpuCount
    ensures var list := EligibleFrom(s, cpu, 0);
      var (after, returned) := Drain(s, cpu, |list| + 1);
      && |returned| == |list| + 1 && returned[|list|] == None
      && (forall k :: 0 <= k < |list| ==> returned[k] == Some(list[k]))
    decreases |EligibleFrom(s, cpu, 0)|
  {
    hide Eligible, Put, EligibleFrom;
    var list := EligibleFrom(s, cpu, 0);
    NextEligible(s, cpu);
    if list == [] {
      assert Drain(ReadEvent(s, cpu).0, cpu, 0).1 == [];
    } else {
      EventTakesFirst(s, cpu, 0);
      var s' := ReadEvent(s, cpu).0;
      assert EligibleFrom(s', cpu, 0) == list[1..];
      DrainInOrder(s', cpu);
      DrainStep(s, cpu, |list|);
    }
  }

  lemma DrainStep(s: Banks, cpu: nat, n: nat)
    requires WellFormed(s) && cpu < s.cpuCount
    ensures WellFormed(ReadEvent(s, cpu).0) && cpu < ReadEvent(s, cpu).0.cpuCount
    ensures Drain(s, cpu, n + 1).1 == [Next(s, cpu)] + Drain(ReadEvent(s, cpu).0, cpu, n).1
  {
    hide Next, Put;
    NextEligible(s, cpu);
  }

  // ---------- The controller object ----------

  /** The position of the lowest set bit, as the count of trailing zeros gives it. */
  function Lowest(p: Bits): (b: nat)
    requires !IsZero(p)
    ensures b < |p| && p[b] && forall i :: 0 <= i < b ==> !p[i]
  {
    if p[0] then 0 else
    assert !IsZero(p[1..]) by {
      var k :| 0 <= k < |p| && p[k];
      assert p[1..][k - 1];
    }
    var rest := Lowest(p[1..]);
    assert forall i :: 0 < i < rest + 1 ==> p[i] == p[1..][i - 1];
    rest + 1
  }

  /** AND with the predecessor clears exactly the lowest set bit. */
  lemma {:induction false} ClearsLowest(p: Bits)
    requires !IsZero(p)
    ensures Val(p) > 0 && And(p, FromNat(Val(p) - 1, |p|)) == p[Lowest(p) := false]
  {
    hide And, FromNat;
    ValZero(p);
    if p[0] {
      ClearsFirst(p);
    } else {
      assert p[1..] != [] && !IsZero(p[1..]) by { assert p[Lowest(p)] && p[Lowest(p)] == p[1..][Lowest(p) - 1]; }
      ClearsLowest(p[1..]);
      ClearsLater(p);
    }
  }

  lemma ClearsFirst(p: Bits)
    requires p != [] && p[0]
    ensures And(p, FromNat(Val(p) - 1, |p|)) == p[0 := false]
  {
    hide FromNat, Val;
    var q := p[1..];
    assert Val(p) == 1 + 2 * Val(q) by { ValStep(p); }
    FromNatVal(q);
    FromNatStep(Val(p) - 1, |p|);
    assert FromNat(Val(p) - 1, |p|) == [false] + q;
    assert And(p, [false] + q) == p[0 := false];
  }

  lemma ClearsLater(p: Bits)
    requires p != [] && !p[0] && !IsZero(p) && !IsZero(p[1..])
    requires Val(p[1..]) > 0 && And(p[1..], FromNat(Val(p[1..]) - 1, |p| - 1)) == p[1..][Lowest(p[1..]) := false]
    ensures And(p, FromNat(Val(p) - 1, |p|)) == p[Lowest(p) := false]
  {
    hide FromNat, Val;
    var q := p[1..];
    var rest := FromNat(Val(q) - 1, |p| - 1);
    assert Val(p) == 2 * Val(q) by { ValStep(p); }
    FromNatStep(Val(p) - 1, |p|);
    assert FromNat(Val(p) - 1, |p|) == [true] + rest;
    assert And(p, [true] + rest) == [false] + And(q, rest);
    assert p[Lowest(p) := false] == [false] + q[Lowest(q) := false];
  }

  lemma ValStep(p: Bits)
    requires p != []
    ensures Val(p) == (if p[0] then 1 else 0) + 2 * Val(p[1..])
  {
  }

  lemma FromNatStep(v: nat, n: nat)
    requires n > 0
    ensures FromNat(v, n) == [v % 2 == 1] + FromNat(v / 2, n - 1)
  {
  }

  class Controller {
    var irqCount: nat
    var cpuCount: nat
    var globalCfg: Word32
    const target: array<Word32>
    const level: array<Word32>
    const software: array<Word32>
    const masked: array<Word32>

    ghost predicate Valid()
      reads this, target, level, software, masked
    {
      && level != software && level != masked && software != masked && target != level && target != software && target != masked
      && target.Length == MAX_IRQ && level.Length == software.Length == masked.Length == 32
      && WellFormed(Contents())
    }

    ghost function Contents(): (after: Banks)
      reads this, target, level, software, masked
    {
      Banks(irqCount, cpuCount, globalCfg, target[..], level[..], software[..], masked[..])
    }

    constructor (irqs: nat, cpus: nat)
      requires 0 < irqs <= MAX_IRQ && 0 < cpus <= MAX_CPU
      ensures Valid() && Clean(Contents()) && fresh(target) && fresh(level) && fresh(software) && fresh(masked)
      ensures Contents() == ResetBanks(Banks(irqs, cpus, Zeros(32), [], [], [], []))
    {
      irqCount, cpuCount, globalCfg := irqs, cpus, Zeros(32);
      target := new Word32[MAX_IRQ](i => FromNat(1, 32));
      level := new Word32[32](i => Zeros(32));
      software := new Word32[32](i => Zeros(32));
      masked := new Word32[32](i => Ones(32));
      new;
      assert target[..] == seq(MAX_IRQ, i => FromNat(1, 32));
      assert level[..] == seq(32, i => Zeros(32)) && software[..] == seq(32, i => Zeros(32)) && masked[..] == seq(32, i => Ones(32));
    }

    /** Refuses interrupt and processor counts outside the model's limits. */
    static method Init(irqs: nat, cpus: nat) returns (r: Option<Controller>)
      ensures r.Some? <==> 0 < irqs <= MAX_IRQ && 0 < cpus <= MAX_CPU
      ensures r.Some? ==> fresh(r.value) && r.value.Valid() && Clean(r.value.Contents())
      ensures r.Some? ==> r.value.Contents() == ResetBanks(Banks(irqs, cpus, Zeros(32), [], [], [], []))
    {
      if irqs == 0 || irqs > MAX_IRQ || cpus == 0 || cpus > MAX_CPU { return None; }
      var controller := new Controller(irqs, cpus);
      r := Some(controller);
    }

    method Reset()
      requires Valid()
      modifies this, target, level, software, masked
      ensures Valid() && Contents() == ResetBanks(old(Contents()))
    {
      hide FromNat;
      var i := 0;
      while i < MAX_IRQ
        invariant 0 <= i <= MAX_IRQ && Valid() && irqCount == old(irqCount) && cpuCount == old(cpuCount)
        invariant forall j :: 0 <= j < i ==> target[j] == FromNat(1, 32)
      {
        target[i] := FromNat(1, 32);
        i := i + 1;
      }
      i := 0;
      while i < 32
        invariant 0 <= i <= 32 && Valid() && irqCount == old(irqCount) && cpuCount == old(cpuCount)
        invariant forall j :: 0 <= j < MAX_IRQ ==> target[j] == FromNat(1, 32)
        invariant forall j :: 0 <= j < i ==> level[j] == Zeros(32) && software[j] == Zeros(32) && masked[j] == Ones(32)
      {
        level[i], software[i], masked[i] := Zeros(32), Zeros(32), Ones(32);
        i := i + 1;
      }
      globalCfg := Zeros(32);
      assert target[..] == seq(MAX_IRQ, i => FromNat(1, 32));
      assert level[..] == seq(32, i => Zeros(32)) && software[..] == seq(32, i => Zeros(32)) && masked[..] == seq(32, i => Ones(32));
    }

    method DriveLine(irq: nat, high: bool) returns (ok: bool)
      requires Valid()
      modifies level
      ensures Valid() && Contents() == Apply(old(Contents()), SetLine(irq, high)).0
      ensures ok == Apply(old(Contents()), SetLine(irq, high)).1.Some?
    {
      if irq >= irqCount {
        return false;
      }
      level[irq / 32] := level[irq / 32][irq % 32 := high];
      ok := true;
    }

    /** The scan of one word: the first candidate bit this processor may take. */
    method ScanWord(word: nat, cpu: nat) returns (found: Option<nat>)
      requires Valid() && word < 32 && cpu < cpuCount
      ensures found.None? ==> forall irq :: 32 * word <= irq < 32 * word + 32 ==> !Eligible(Contents(), cpu, irq)
      ensures found.Some? ==> 32 * word <= found.value < 32 * word + 32 && Eligible(Contents(), cpu, found.value)
      ensures found.Some? ==> forall irq :: 32 * word <= irq < found.value ==> !Eligible(Contents(), cpu, irq)
    {
      hide Val, FromNat;
      ghost var s := Contents();
      var pending: Word32 := And(Or(level[word], software[word]), Not(masked[word]));
      ghost var all := pending;
      while !IsZero(pending)
        invariant |pending| == 32
        invariant forall i :: 0 <= i < 32 && pending[i] ==> all[i]
        invariant forall i :: 0 <= i < 32 && all[i] && !pending[i] ==> !Eligible(s, cpu, 32 * word + i)
        decreases Val(pending)
      {
        var bit := Lowest(pending);
        var irq := word * 32 + bit;
        if irq < irqCount && target[irq][cpu] {
          forall other | 32 * word <= other < irq ensures !Eligible(s, cpu, other) {
            assert !pending[other - 32 * word];
          }
          return Some(irq);
        }
        ClearsLowest(pending);
        ValClear(pending, bit);
        pending := And(pending, FromNat(Val(pending) - 1, 32));
      }
      forall irq | 32 * word <= irq < 32 * word + 32 ensures !Eligible(s, cpu, irq) {
        assert !pending[irq - 32 * word];
      }
      found := None;
    }

    /** The first eligible interrupt, word by word and bit by bit. */
    method NextIrq(cpu: nat) returns (r: Option<nat>)
      requires Valid() && cpu < cpuCount
      ensures r == Next(Contents(), cpu)
    {
      hide Eligible;
      ghost var s := Contents();
      NextEligible(s, cpu);
      var word := 0;
      while word < (irqCount + 31) / 32
        invariant 0 <= word <= (irqCount + 31) / 32 <= 32 && Contents() == s
        invariant forall irq :: 0 <= irq < 32 * word ==> !Eligible(s, cpu, irq)
      {
        r := ScanWord(word, cpu);
        assert Contents() == s;
        if r.Some? {
          forall irq | 0 <= irq < r.value ensures !Eligible(s, cpu, irq) {
            assert irq < 32 * word || 32 * word <= irq < r.value;
          }
          FirstIsNext(s, cpu, r.value);
          return;
        }
        forall irq | 0 <= irq < 32 * (word + 1) ensures !Eligible(s, cpu, irq) {
          assert irq < 32 * word || 32 * word <= irq < 32 * word + 32;
        }
        word := word + 1;
      }
      NoneEligible(s, cpu, irqCount);
      r := None;
    }

    method Pending(cpu: nat) returns (p: bool)
      requires Valid()
      ensures p <==> cpu < cpuCount && exists irq :: Eligible(Contents(), cpu, irq)
    {
      hide Eligible;
      if cpu >= cpuCount {
        return false;
      }
      NextEligible(Contents(), cpu);
      var r := NextIrq(cpu);
      p := r.Some?;
    }

    /** An EVENT read by the processor whose page it is. */
    method TakeEvent(cpu: nat) returns (value: Word32)
      requires Valid() && cpu < cpuCount
      modifies masked
      ensures Valid() && (Contents(), value) == ReadEvent(old(Contents()), cpu)
    {
      var irq := NextIrq(cpu);
      value := Zeros(32);
      if irq.Some? {
        NextEligible(Contents(), cpu);
        masked[irq.value / 32] := masked[irq.value / 32][irq.value % 32 := true];
        value := FromNat(EVENT_EXT + irq.value, 32);
      }
    }

    /** The value of a register other than EVENT, which only reads. */
    method ReadRegister(cpu: nat, off: nat) returns (value: Option<Word32>)
      requires Valid() && cpu < cpuCount && off != EVENT
      ensures (Contents(), value) == ReadLocal(Contents(), cpu, off)
    {
      hide FromNat;
      if off == REV {
        return Some(FromNat(2, 32));
      }
      if off == INFO {
        return Some(FromNat((cpuCount - 1) * 0x10000 + irqCount, 32));
      }
      if off == GLB_CFG {
        return Some(globalCfg);
      }
      if off == WHOAMI {
        return Some(FromNat(cpu, 32));
      }
      var words := (irqCount + 31) / 32;
      if TARGET <= off < SW_BASE {
        var irq := (off - TARGET) / 4;
        return if irq >= irqCount then None else Some(target[irq]);
      }
      if MASK_BASE <= off < PENDING_BASE {
        return if BankWord(off) >= words then None else Some(masked[BankWord(off)]);
      }
      if PENDING_BASE <= off < PENDING_END {
        var word := (off - PENDING_BASE) / 4;
        return if word >= words then None else Some(Or(level[word], software[word]));
      }
      value := None;
    }

    method Read(cpu: nat, off: nat, width: nat) returns (value: Option<Word32>)
      requires Valid()
      modifies masked
      ensures Valid() && (Contents(), value) == Apply(old(Contents()), Op.Read(cpu, off, width))
    {
      hide Resolve, ReadLocal, Next;
      ghost var s := Contents();
      var at := ResolveAccess(cpu, off);
      if width != 4 || off % 4 != 0 || at.None? {
        return None;
      }
      if at.value.1 == EVENT {
        var event := TakeEvent(at.value.0);
        EventIsRead(s, at.value.0);
        return Some(event);
      }
      value := ReadRegister(at.value.0, at.value.1);
    }

    method ResolveAccess(cpu: nat, off: nat) returns (at: Option<(nat, nat)>)
      requires Valid()
      ensures at == Resolve(Contents(), cpu, off) && (at.Some? ==> at.value.0 < cpuCount)
    {
      if CPU_BASE <= off < CPU_BASE + cpuCount * 0x80 {
        var slot, delta := (off - CPU_BASE) / 0x80, (off - CPU_BASE) % 0x80;
        return if delta > 0x7c then None else Some((slot, WHOAMI + delta));
      }
      at := if cpu >= cpuCount then None else Some((cpu, off));
    }

    /** A bank write: values with bits of no interrupt are refused. */
    method BankWrite(off: nat, value: Word32) returns (ok: bool)
      requires Valid() && SW_BASE <= off < PENDING_BASE
      modifies software, masked
      ensures Valid() && ok == WriteBank(old(Contents()), off, value).Some?
      ensures Contents() == if ok then WriteBank(old(Contents()), off, value).value else old(Contents())
    {
      var word, group := BankWord(off), (off - SW_BASE) / 0x80;
      if word >= (irqCount + 31) / 32 || !IsZero(And(value, Not(WordValid(irqCount, word)))) {
        return false;
      }
      match group {
        case 0 => software[word] := Or(software[word], value);
        case 1 => software[word] := And(software[word], Not(value));
        case 2 => masked[word] := Or(masked[word], value);
        case _ => masked[word] := And(masked[word], Not(value));
      }
      ok := true;
    }

    method Write(cpu: nat, off: nat, width: nat, value: Word32) returns (ok: bool)
      requires Valid()
      modifies this, target, level, software, masked
      ensures Valid() && Contents() == Apply(old(Contents()), Op.Write(cpu, off, width, value)).0
      ensures ok == Apply(old(Contents()), Op.Write(cpu, off, width, value)).1.Some?
    {
      hide Resolve, WriteBank, ResetBanks;
      var at := ResolveAccess(cpu, off);
      if width != 4 || off % 4 != 0 || at.None? {
        return false;
      }
      var local := at.value.1;
      ok := true;
      if local == RST {
        Reset();
      } else if local == GLB_CFG {
        globalCfg := value;
      } else if TARGET <= local < SW_BASE {
        var irq := (local - TARGET) / 4;
        if irq >= irqCount || !IsZero(value[cpuCount..]) {
          return false;
        }
        target[irq] := value;
      } else if SW_BASE <= local < PENDING_BASE {
        ok := BankWrite(local, value);
      } else {
        ok := false;
      }
    }
  }

  lemma EventIsRead(s: Banks, cpu: nat)
    requires WellFormed(s) && cpu < s.cpuCount
    ensures ReadLocal(s, cpu, EVENT) == (ReadEvent(s, cpu).0, Some(ReadEvent(s, cpu).1))
  {
    hide ReadEvent;
  }

  lemma ValClear(p: Bits, bit: nat)
    requires bit < |p| && p[bit]
    ensures Val(p[bit := false]) < Val(p)
  {
    if bit == 0 {
      assert p[bit := false][1..] == p[1..];
    } else {
      assert p[bit := false][1..] == p[1..][bit - 1 := false];
      ValClear(p[1..], bit - 1);
    }
  }

  /** An eligible interrupt with none below it is the next one. */
  lemma FirstIsNext(s: Banks, cpu: nat, irq: nat)
    requires WellFormed(s) && cpu < s.cpuCount && Eligible(s, cpu, irq)
    requires forall other :: 0 <= other < irq ==> !Eligible(s, cpu, other)
    ensures Next(s, cpu) == Some(irq)
  {
    hide Eligible;
    EligibleList(s, cpu, 0);
    NextEligible(s, cpu);
    var list := EligibleFrom(s, cpu, 0);
    assert irq in list;
    var k :| 0 <= k < |list| && list[k] == irq;
  }
}
