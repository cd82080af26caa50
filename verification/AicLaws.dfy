/**
 * What a driver of the interrupt controller can rely on, said of register offsets and bits alone: who receives an
 * interrupt, what makes one deliverable, and what each bank write changes.
 */
module AicLaws {
  import opened Basics
  import PowersOfTwo
  import opened Words
  import opened Aic

  /** The bit of an interrupt in a bank of 32 words. */
  predicate Bit(bank: seq<Word32>, irq: nat)
    requires |bank| == 32 && irq < 1024
  {
    bank[irq / 32][irq % 32]
  }

  /** An interrupt that exists, is asserted by line or software, is not masked, and is targeted at the processor. */
  predicate Deliverable(s: Banks, cpu: nat, irq: nat)
    requires WellFormed(s) && cpu < 32
  {
    irq < s.irqCount && (Bit(s.level, irq) || Bit(s.software, irq)) && !Bit(s.masked, irq) && s.target[irq][cpu]
  }

  lemma DeliverableMeans(s: Banks, cpu: nat, irq: nat)
    requires WellFormed(s) && cpu < s.cpuCount
    ensures Eligible(s, cpu, irq) == Deliverable(s, cpu, irq)
  {
  }

  lemma NextMeans(s: Banks, cpu: nat)
    requires WellFormed(s) && cpu < s.cpuCount
    ensures var next := Next(s, cpu);
      if next.Some? then Deliverable(s, cpu, next.value) && forall other :: 0 <= other < next.value ==> !Deliverable(s, cpu, other)
      else forall other :: !Deliverable(s, cpu, other)
  {
    hide Eligible, Deliverable, EligibleFrom, Increasing;
    EligibleList(s, cpu, 0);
    NextEligible(s, cpu);
    forall irq ensures Eligible(s, cpu, irq) == Deliverable(s, cpu, irq) { DeliverableMeans(s, cpu, irq); }
    var list := EligibleFrom(s, cpu, 0);
    if list != [] {
      FirstIsLeast(list);
    }
  }

  lemma FirstIsLeast(list: seq<nat>)
    requires Increasing(list) && list != []
    ensures forall x :: x in list ==> list[0] <= x
  {
    forall x | x in list ensures list[0] <= x {
      var k :| 0 <= k < |list| && list[k] == x;
    }
  }

  // ---------- The EVENT register ----------

  /** What a processor reads from EVENT, at 0x2004 or in its private window. */
  function Event(cpu: nat): (op: Op) { Read(cpu, 0x2004, 4) }
  function PrivateEvent(reader: nat, cpu: nat): (op: Op) { Read(reader, 0x5004 + 0x80 * cpu, 4) }

  lemma EventReads(s: Banks, cpu: nat)
    requires WellFormed(s) && cpu < s.cpuCount
    ensures Apply(s, Event(cpu)) == (ReadEvent(s, cpu).0, Some(ReadEvent(s, cpu).1))
  {
    hide ReadEvent, FromNat;
  }

  /** The private window of a processor shows its own EVENT register to whoever reads it. */
  lemma WindowReads(s: Banks, reader: nat, cpu: nat)
    requires WellFormed(s) && cpu < s.cpuCount
    ensures Apply(s, PrivateEvent(reader, cpu)) == Apply(s, Event(cpu))
  {
    hide ReadEvent, FromNat;
    assert Resolve(s, reader, 0x5004 + 0x80 * cpu) == Some((cpu, 0x2004)) by {
      Words.ModUnique(0x80 * cpu + 4, 0x80, cpu, 4);
    }
  }

  lemma EventNumber(n: nat)
    requires n < 0x1_0000_0000
    ensures Val(FromNat(n, 32)) == n
  {
    ValFromNat(n, 32);
    PowerOf32();
    ModUnique(n, 0x1_0000_0000, 0, n);
  }

  lemma PowerOf32()
    ensures PowersOfTwo.Pow2(32) == 0x1_0000_0000
  {
    assert PowersOfTwo.Pow2(8) == 256;
    PowersOfTwo.Pow2Add(8, 8);
    PowersOfTwo.Pow2Add(16, 16);
  }

  /**
   * An EVENT read returns 0x10000 plus the number of the lowest deliverable interrupt and masks exactly that one; it
   * returns zero, and changes nothing, only when nothing is deliverable to that processor.
   */
  lemma EventDelivers(s: Banks, cpu: nat)
    requires WellFormed(s) && cpu < s.cpuCount
    ensures var (after, value) := Apply(s, Event(cpu));
      && value.Some?
      && (if Val(value.value) == 0 then after == s && forall irq :: !Deliverable(s, cpu, irq)
          else
            && 0x10000 <= Val(value.value) < 0x10400
            && var irq := Val(value.value) - 0x10000;
               && Deliverable(s, cpu, irq) && (forall other :: 0 <= other < irq ==> !Deliverable(s, cpu, other))
               && |after.masked| == 32 && after == s.(masked := after.masked)
               && forall other :: 0 <= other < 1024 ==> Bit(after.masked, other) == (other == irq || Bit(s.masked, other)))
  {
    hide Eligible, Deliverable, EligibleFrom, Next, FromNat, Val, Apply, Bit;
    EventReads(s, cpu);
    NextMeans(s, cpu);
    var next := Next(s, cpu);
    if next.None? {
      EventNumber(0);
      ZeroWord();
    } else {
      NextEligible(s, cpu);
      EventNumber(0x10000 + next.value);
      forall other | 0 <= other < 1024
        ensures Bit(Put(s.masked, next.value, true), other) == (other == next.value || Bit(s.masked, other))
      {
        PutBit(s.masked, next.value, true, other);
      }
    }
  }

  lemma ZeroWord()
    ensures Val(Zeros(32)) == 0
  {
    ValZero(Zeros(32));
  }

  lemma PutBit(bank: seq<Word32>, irq: nat, b: bool, other: nat)
    requires |bank| == 32 && irq < 1024 && other < 1024
    ensures Bit(Put(bank, irq, b), other) == if other == irq then b else Bit(bank, other)
  {
  }

  /** Only a processor that an interrupt is targeted at receives it, and never while it is masked or idle. */
  lemma OnlyTargeted(s: Banks, cpu: nat, irq: nat)
    requires WellFormed(s) && cpu < s.cpuCount && irq < s.irqCount
    requires !s.target[irq][cpu] || Bit(s.masked, irq) || (!Bit(s.level, irq) && !Bit(s.software, irq))
    ensures Val(Apply(s, Event(cpu)).1.value) != 0x10000 + irq
  {
    hide Apply, Bit, Val;
    EventDelivers(s, cpu);
    if Val(Apply(s, Event(cpu)).1.value) == 0x10000 + irq {
      Refuted(s, cpu, irq);
    }
  }

  lemma Refuted(s: Banks, cpu: nat, irq: nat)
    requires WellFormed(s) && cpu < s.cpuCount && irq < s.irqCount
    requires !s.target[irq][cpu] || Bit(s.masked, irq) || (!Bit(s.level, irq) && !Bit(s.software, irq))
    ensures !Deliverable(s, cpu, irq)
  {
  }

  // ---------- Bank writes ----------

  /** The word that names one interrupt within its group of 32. */
  function Naming(irq: nat): (value: Word32) { Zeros(32)[irq % 32 := true] }

  /**
   * A write that names one interrupt in one of the four banks: 0x4000 sets and 0x4080 clears software, 0x4100 sets and 0x4180
   * clears masks.
   */
  function BankOp(cpu: nat, base: nat, irq: nat): (op: Op) { Write(cpu, base + irq / 32 * 4, 4, Naming(irq)) }

  lemma BankAccepted(s: Banks, cpu: nat, base: nat, irq: nat)
    requires WellFormed(s) && cpu < s.cpuCount && irq < s.irqCount && base in {0x4000, 0x4080, 0x4100, 0x4180}
    ensures var off := base + irq / 32 * 4;
      && 0x4000 <= off < 0x4200 && off % 4 == 0 && BankWord(off) == irq / 32 && (off - 0x4000) / 0x80 == (base - 0x4000) / 0x80
      && WriteBank(s, off, Naming(irq)).Some?
      && Apply(s, BankOp(cpu, base, irq)) == (WriteBank(s, off, Naming(irq)).value, Some(Zeros(32)))
  {
    hide IsZero, And, Not, WordValid;
    BankPlace(base, irq / 32);
    NamesExisting(s.irqCount, irq);
  }

  lemma BankPlace(base: nat, word: nat)
    requires base in {0x4000, 0x4080, 0x4100, 0x4180} && word < 32
    ensures var off := base + word * 4;
      BankWord(off) == word && (off - 0x4000) / 0x80 == (base - 0x4000) / 0x80
  {
    var off := base + word * 4;
    ModUnique(off, 0x80, base / 0x80, word * 4);
    ModUnique(off - 0x4000, 0x80, (base - 0x4000) / 0x80, word * 4);
  }

  lemma NamesExisting(irqCount: nat, irq: nat)
    requires irq < irqCount
    ensures IsZero(And(Naming(irq), Not(WordValid(irqCount, irq / 32))))
  {
  }

  /** Each of the four writes changes the named bit of its bank, and nothing else anywhere. */
  lemma BankWrites(s: Banks, cpu: nat, base: nat, irq: nat, other: nat)
    requires WellFormed(s) && cpu < s.cpuCount && irq < s.irqCount && base in {0x4000, 0x4080, 0x4100, 0x4180} && other < 1024
    ensures var (r, reply) := Apply(s, BankOp(cpu, base, irq));
      && reply.Some? && WellFormed(r) && r == s.(software := r.software, masked := r.masked)
      && Bit(r.software, other) == (if other == irq && base == 0x4000 then true
                                    else if other == irq && base == 0x4080 then false else Bit(s.software, other))
      && Bit(r.masked, other) == (if other == irq && base == 0x4100 then true
                                  else if other == irq && base == 0x4180 then false else Bit(s.masked, other))
  {
    hide Apply, WriteBank;
    BankAccepted(s, cpu, base, irq);
    var off := base + irq / 32 * 4;
    WriteBankAt(s, off, Naming(irq), other);
    BankKeeps(s, off, Naming(irq));
  }

  lemma BankKeeps(s: Banks, off: nat, value: Word32)
    requires WellFormed(s) && 0x4000 <= off < 0x4200 && WriteBank(s, off, value).Some?
    ensures var r := WriteBank(s, off, value).value; WellFormed(r) && r == s.(software := r.software, masked := r.masked)
  {
  }

  // ---------- From a write to a delivery ----------

  /** The interrupt is first in line for the processor. */
  predicate FirstInLine(s: Banks, cpu: nat, irq: nat)
    requires WellFormed(s) && cpu < 32
  {
    forall other :: 0 <= other < irq ==> !Deliverable(s, cpu, other)
  }

  lemma FirstDelivered(s: Banks, cpu: nat, irq: nat)
    requires WellFormed(s) && cpu < s.cpuCount && Deliverable(s, cpu, irq) && FirstInLine(s, cpu, irq)
    ensures Val(Apply(s, Event(cpu)).1.value) == 0x10000 + irq
  {
    hide Apply, Val, Deliverable;
    EventDelivers(s, cpu);
  }

  /** Setting software bits (0x4000) or clearing masks (0x4180) of one interrupt leaves the others as deliverable as they were. */
  lemma OthersKept(s: Banks, writer: nat, base: nat, irq: nat, cpu: nat, other: nat)
    requires WellFormed(s) && writer < s.cpuCount && cpu < s.cpuCount && irq < s.irqCount && other != irq
    requires base in {0x4000, 0x4080, 0x4100, 0x4180}
    ensures WellFormed(Apply(s, BankOp(writer, base, irq)).0)
    ensures Deliverable(Apply(s, BankOp(writer, base, irq)).0, cpu, other) == Deliverable(s, cpu, other)
  {
    hide Apply;
    BankWrites(s, writer, base, irq, irq);
    if other < 1024 {
      BankWrites(s, writer, base, irq, other);
    }
  }

  /** A software set makes an unmasked, targeted interrupt deliverable: the next EVENT read of the target
      returns it, if none is before it. */
  lemma SoftwareSetDelivers(s: Banks, writer: nat, cpu: nat, irq: nat)
    requires WellFormed(s) && writer < s.cpuCount && cpu < s.cpuCount && irq < s.irqCount
    requires !Bit(s.masked, irq) && s.target[irq][cpu] && FirstInLine(s, cpu, irq)
    ensures var now := Apply(s, BankOp(writer, 0x4000, irq)).0;
      WellFormed(now) && Val(Apply(now, Event(cpu)).1.value) == 0x10000 + irq
  {
    hide Apply, Val, Bit;
    BankWrites(s, writer, 0x4000, irq, irq);
    var now := Apply(s, BankOp(writer, 0x4000, irq)).0;
    forall other | 0 <= other < irq ensures !Deliverable(now, cpu, other) { OthersKept(s, writer, 0x4000, irq, cpu, other); }
    FirstDelivered(now, cpu, irq);
  }

  /** Clearing the mask of an asserted, targeted interrupt delivers it again. */
  lemma UnmaskDelivers(s: Banks, writer: nat, cpu: nat, irq: nat)
    requires WellFormed(s) && writer < s.cpuCount && cpu < s.cpuCount && irq < s.irqCount
    requires (Bit(s.level, irq) || Bit(s.software, irq)) && s.target[irq][cpu] && FirstInLine(s, cpu, irq)
    ensures var now := Apply(s, BankOp(writer, 0x4180, irq)).0;
      WellFormed(now) && Val(Apply(now, Event(cpu)).1.value) == 0x10000 + irq
  {
    hide Apply, Val, Bit;
    BankWrites(s, writer, 0x4180, irq, irq);
    var now := Apply(s, BankOp(writer, 0x4180, irq)).0;
    forall other | 0 <= other < irq ensures !Deliverable(now, cpu, other) { OthersKept(s, writer, 0x4180, irq, cpu, other); }
    FirstDelivered(now, cpu, irq);
  }

  /** A raised line does the same, and a lowered one withdraws the interrupt unless software asserts it. */
  lemma LineDelivers(s: Banks, cpu: nat, irq: nat, high: bool)
    requires WellFormed(s) && cpu < s.cpuCount && irq < s.irqCount
    ensures var now := Apply(s, SetLine(irq, high)).0;
      && WellFormed(now) && now == s.(level := now.level)
      && (Deliverable(now, cpu, irq) <==> (high || Bit(s.software, irq)) && !Bit(s.masked, irq) && s.target[irq][cpu])
      && forall other :: other != irq ==> Deliverable(now, cpu, other) == Deliverable(s, cpu, other)
  {
    hide Bit;
    var now := Apply(s, SetLine(irq, high)).0;
    forall other: nat | other < 1024 ensures Bit(now.level, other) == if other == irq then high else Bit(s.level, other) {
      PutBit(s.level, irq, high, other);
    }
  }

  /** A target write names the processors that may receive one interrupt, and is refused when it names one that does not exist. */
  lemma TargetWrites(s: Banks, writer: nat, irq: nat, value: Word32)
    requires WellFormed(s) && writer < s.cpuCount && irq < s.irqCount
    ensures var r := Apply(s, Write(writer, 0x3000 + 4 * irq, 4, value));
      if exists cpu :: s.cpuCount <= cpu < 32 && value[cpu] then r == (s, None)
      else r == (s.(target := s.target[irq := value]), Some(Zeros(32)))
  {
    assert (forall i :: 0 <= i < |value[s.cpuCount..]| ==> !value[s.cpuCount..][i])
           <==> forall cpu :: s.cpuCount <= cpu < 32 ==> !value[cpu] by {
      if forall i :: 0 <= i < |value[s.cpuCount..]| ==> !value[s.cpuCount..][i] {
        forall cpu | s.cpuCount <= cpu < 32 ensures !value[cpu] { assert value[cpu] == value[s.cpuCount..][cpu - s.cpuCount]; }
      }
    }
  }

  /** A reset masks every interrupt and targets it at processor 0 alone. */
  lemma ResetSilences(s: Banks, writer: nat, value: Word32, cpu: nat, irq: nat)
    requires WellFormed(s) && writer < s.cpuCount && cpu < s.cpuCount && irq < 1024
    ensures var r := Apply(s, Write(writer, 0xc, 4, value)).0;
      && WellFormed(r) && Bit(r.masked, irq) && !Bit(r.level, irq) && !Bit(r.software, irq)
      && (r.target[irq][cpu] <==> cpu == 0)
  {
    hide FromNat;
    OneAlone(32, cpu);
  }

  lemma OneAlone(n: nat, i: nat)
    requires i < n
    ensures FromNat(1, n)[i] <==> i == 0
  {
    if i > 0 {
      NothingSet(n - 1, i - 1);
    }
  }

  lemma {:induction false} NothingSet(n: nat, i: nat)
    requires i < n
    ensures !FromNat(0, n)[i]
  {
    if i > 0 {
      NothingSet(n - 1, i - 1);
    }
  }

  /** The revision is 2; INFO is the number of processors less one above the number of interrupts; WHOAMI names the reader. */
  lemma InfoReads(s: Banks, cpu: nat)
    requires WellFormed(s) && cpu < s.cpuCount
    ensures var (same, rev) := Apply(s, Read(cpu, 0x0, 4)); same == s && rev.Some? && Val(rev.value) == 2
    ensures var (same, info) := Apply(s, Read(cpu, 0x4, 4));
      same == s && info.Some? && Val(info.value) == (s.cpuCount - 1) * 0x10000 + s.irqCount
    ensures var (same, who) := Apply(s, Read(cpu, 0x2000, 4)); same == s && who.Some? && Val(who.value) == cpu
  {
    hide FromNat, Val;
    EventNumber(2);
    EventNumber((s.cpuCount - 1) * 0x10000 + s.irqCount);
    EventNumber(cpu);
  }

  /** The pending words show what lines and software assert, masked or not. */
  lemma PendingReads(s: Banks, cpu: nat, irq: nat)
    requires WellFormed(s) && cpu < s.cpuCount && irq < s.irqCount
    ensures var (same, word) := Apply(s, Read(cpu, 0x4200 + irq / 32 * 4, 4));
      same == s && word.Some? && (word.value[irq % 32] <==> Bit(s.level, irq) || Bit(s.software, irq))
  {
    assert (0x4200 + irq / 32 * 4 - 0x4200) / 4 == irq / 32;
  }
}
