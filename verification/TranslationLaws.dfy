/**
 * What a caller of the mapped memory service can rely on, said of the walker, of physical addresses and of the codes in
 * the reply: for which access each byte is translated, which byte of memory it is, and what a fault answers.
 */
module TranslationLaws {
  import opened Basics
  import opened LittleEndian
  import opened MemoryAbi
  import opened Stage1
  import Words

  /** The translation that byte i of a request needs: a fetch (1) executes at its start, a store (3) writes, a load (2) reads. */
  function Needed(walk: Walker, r: Request, i: nat): (t: Translated)
    requires r.address + i < 0x1_0000_0000_0000_0000
  {
    if r.operation == 1 then walk(r.address, Access.Execute, r.currentEl)
    else if r.operation == 3 then walk(r.address + i, Access.Write, r.currentEl)
    else walk(r.address + i, Access.Read, r.currentEl)
  }

  /** The physical address of byte i, under a translation of it. */
  function Physical(r: Request, i: nat, t: Translated): (pa: nat)
    requires t.Mapped?
  {
    if r.operation == 1 then t.pa + i else t.pa
  }

  /** The byte at a physical address: guest RAM, or the page tables, which are never written. */
  function Owned(bk: Backing, ram: seq<u8>, pa: nat): (b: Option<u8>)
  {
    if bk.ramBase <= pa < bk.ramBase + |ram| then Some(ram[pa - bk.ramBase])
    else if bk.tableBase <= pa < bk.tableBase + |bk.tables| then Some(bk.tables[pa - bk.tableBase])
    else None
  }

  predicate InRam(bk: Backing, ramLength: nat, pa: nat)
  {
    bk.ramBase <= pa < bk.ramBase + ramLength
  }

  /** Byte i can be transferred: mapped for its access as Normal non-cacheable, and owned, in RAM if it is stored. */
  predicate Transferable(walk: Walker, bk: Backing, ram: seq<u8>, r: Request, i: nat)
    requires r.address + i < 0x1_0000_0000_0000_0000
  {
    var t := Needed(walk, r, i);
    && t.Mapped? && t.attributes == Some(Attributes(0, 0, 0x44))
    && Owned(bk, ram, Physical(r, i, t)).Some?
    && (r.operation == 3 ==> InRam(bk, |ram|, Physical(r, i, t)))
  }

  /** Byte i of the values that a request carries, or that a reply brings. */
  function ValueByte(width: nat, value0: nat, value1: nat, i: nat): (b: nat)
    requires width > 0
  {
    (if i / width == 0 then value0 else value1) / Pow256(i % width) % 256
  }

  lemma {:induction false} ByteDigit(v: nat, i: nat)
    ensures ByteAt(v, i) == v / Pow256(i) % 256
  {
    if i > 0 {
      ByteDigit(v / 256, i - 1);
      assert v / 256 / Pow256(i - 1) == v / (256 * Pow256(i - 1)) by { Words.DividedTwice(v, 256, Pow256(i - 1)); }
    }
  }

  /* ---------- One byte of the reference walk ---------- */

  lemma PlacedWhere(walk: Walker, bk: Backing, ram: seq<u8>, epoch: u64, r: Request, i: nat)
    requires Walkable(r) && i < Span(r)
    ensures var p := PlaceByte(walk, bk, |ram|, epoch, r, i);
      && (p.Ready? <==> Transferable(walk, bk, ram, r, i))
      && (p.Ready? ==>
            var pa, place := Physical(r, i, Needed(walk, r, i)), p.places[0];
            && |p.places| == 1
            && place.index < (if place.table then |bk.tables| else |ram|)
            && Owned(bk, ram, pa) == Some(if place.table then bk.tables[place.index] else ram[place.index])
            && (InRam(bk, |ram|, pa) <==> !place.table)
            && (!place.table ==> place.index == pa - bk.ramBase))
  {
  }

  lemma FaultedByte(walk: Walker, bk: Backing, ramLength: nat, epoch: u64, r: Request, i: nat)
    requires Walkable(r) && i < Span(r) && Needed(walk, r, i).Faulted?
    ensures PlaceByte(walk, bk, ramLength, epoch, r, i)
            == Stop(FailureReply(r, epoch, if r.operation == 1 then r.address else r.address + i, Needed(walk, r, i).failure))
  {
  }

  lemma {:induction false} AllPlaced(walk: Walker, bk: Backing, ram: seq<u8>, epoch: u64, r: Request, n: nat)
    requires Walkable(r) && n <= Span(r) && forall j :: 0 <= j < n ==> Transferable(walk, bk, ram, r, j)
    ensures PlaceBytes(walk, bk, |ram|, epoch, r, n).Ready?
  {
    hide PlaceByte;
    if n > 0 {
      AllPlaced(walk, bk, ram, epoch, r, n - 1);
      PlacedWhere(walk, bk, ram, epoch, r, n - 1);
    }
  }

  /* ---------- What an answered request means ---------- */

  lemma AnsweredWalks(walk: Walker, bk: Backing, ram: seq<u8>, controls: Controls, r: Request)
    requires Serve(walk, bk, ram, controls, r).0.result == 0
    ensures Walkable(r) && r.address + Span(r) - 1 < 0x1_0000_0000_0000_0000 && Span(r) > 0
    ensures PlaceBytes(walk, bk, |ram|, controls.epoch, r, Span(r)).Ready?
    ensures Serve(walk, bk, ram, controls, r) == ByteWalk(walk, bk, ram, controls.epoch, r)
  {
    hide PlaceBytes, LoadBytes, StoreBytes, Element;
    if Walkable(r) {
      StopIsNotOk(walk, bk, |ram|, controls.epoch, r, Span(r));
    }
  }

  /** A request answered OK had every byte mapped for its own access, as Normal non-cacheable memory that is owned. */
  lemma AnsweredWasTranslated(walk: Walker, bk: Backing, ram: seq<u8>, controls: Controls, r: Request, i: nat)
    requires Serve(walk, bk, ram, controls, r).0.result == 0 && i < r.width * r.count
    ensures r.operation == 1 || r.operation == 2 || r.operation == 3
    ensures r.address + i < 0x1_0000_0000_0000_0000
    ensures Transferable(walk, bk, ram, r, i)
  {
    hide Serve, PlaceBytes, PlaceByte, Transferable;
    AnsweredWalks(walk, bk, ram, controls, r);
    PlacesByIndex(walk, bk, |ram|, controls.epoch, r, Span(r), i);
    PlacedWhere(walk, bk, ram, controls.epoch, r, i);
  }

  /** A fetch answered OK was executable at its address, a load readable and a store writable at every byte. */
  lemma AccessGranted(walk: Walker, bk: Backing, ram: seq<u8>, controls: Controls, r: Request, i: nat)
    requires Serve(walk, bk, ram, controls, r).0.result == 0 && i < r.width * r.count
    ensures r.address + i < 0x1_0000_0000_0000_0000
    ensures r.operation == 1 ==> walk(r.address, Access.Execute, r.currentEl).Mapped?
    ensures r.operation == 2 ==> walk(r.address + i, Access.Read, r.currentEl).Mapped?
    ensures r.operation == 3 ==> walk(r.address + i, Access.Write, r.currentEl).Mapped?
  {
    hide Serve;
    AnsweredWasTranslated(walk, bk, ram, controls, r, i);
  }

  /** What a fetch or load brings is the bytes at the physical addresses of its translations. */
  lemma LoadedBytes(walk: Walker, bk: Backing, ram: seq<u8>, controls: Controls, r: Request, i: nat)
    requires Serve(walk, bk, ram, controls, r).0.result == 0 && i < r.width * r.count && r.operation != 3
    ensures r.address + i < 0x1_0000_0000_0000_0000 && Needed(walk, r, i).Mapped?
    ensures var reply := Serve(walk, bk, ram, controls, r).0;
      Owned(bk, ram, Physical(r, i, Needed(walk, r, i))) == Some(ValueByte(r.width, reply.value0, reply.value1, i))
  {
    hide Serve, PlaceBytes, PlaceByte, ByteWalk, LoadBytes, StoreBytes, Element, Owned, Needed, ValueByte;
    AnsweredWalks(walk, bk, ram, controls, r);
    AnsweredWasTranslated(walk, bk, ram, controls, r, i);
    WalkOutcome(walk, bk, ram, controls.epoch, r);
    var places := PlaceBytes(walk, bk, |ram|, controls.epoch, r, Span(r)).places;
    PlacesByIndex(walk, bk, |ram|, controls.epoch, r, Span(r), i);
    PlacedWhere(walk, bk, ram, controls.epoch, r, i);
    var s := LoadBytes(ram, bk.tables, places);
    LoadedAt(ram, bk.tables, places, i);
    ElementBytes(s, r.width, r.count, i);
  }

  lemma LoadedAt(ram: seq<u8>, tables: seq<u8>, places: seq<Place>, i: nat)
    requires PlacesOwned(places, |ram|, |tables|, false) && i < |places|
    ensures places[i].index < (if places[i].table then |tables| else |ram|)
    ensures LoadBytes(ram, tables, places)[i] == if places[i].table then tables[places[i].index] else ram[places[i].index]
  {
    assert places[i] in places;
  }

  /** Byte i of the two gathered elements is byte i of what was gathered. */
  lemma ElementBytes(s: seq<u8>, width: nat, count: nat, i: nat)
    requires width > 0 && (count == 1 || count == 2) && |s| == width * count && i < |s|
    ensures ValueByte(width, Element(s, width, 0), Element(s, width, 1), i) == s[i]
  {
    hide Assemble, Encode;
    SmallQuotient(i, width);
    var e := i / width;
    assert (e + 1) * width <= |s|;
    var part := s[e * width..(e + 1) * width];
    EncodeAssemble(part);
    ByteDigit(Assemble(part), i % width);
    EncodedAt(Assemble(part), width, i % width);
    assert part[i % width] == s[i];
  }

  lemma EncodedAt(v: nat, n: nat, k: nat)
    requires k < n
    ensures Encode(v, n)[k] == ByteAt(v, k)
  {
  }

  /** A store leaves each of its bytes at the physical address of that byte's translation. */
  lemma StoredAt(walk: Walker, page: nat, bk: Backing, ram: seq<u8>, controls: Controls, r: Request, i: nat)
    requires PageContract(walk, page) && r.operation == 3 && i < r.width * r.count
    requires Serve(walk, bk, ram, controls, r).0.result == 0
    ensures r.address + i < 0x1_0000_0000_0000_0000 && Needed(walk, r, i).Mapped?
    ensures InRam(bk, |ram|, Physical(r, i, Needed(walk, r, i))) && |Serve(walk, bk, ram, controls, r).1| == |ram|
    ensures Serve(walk, bk, ram, controls, r).1[Physical(r, i, Needed(walk, r, i)) - bk.ramBase]
            == ValueByte(r.width, r.value0, r.value1, i)
  {
    hide Serve, PlaceBytes, PlaceByte, ByteWalk, LoadBytes, StoreBytes, Element, Owned, Needed, PageContract, ValueByte, StoreByte;
    AnsweredWalks(walk, bk, ram, controls, r);
    AnsweredWasTranslated(walk, bk, ram, controls, r, i);
    WalkOutcome(walk, bk, ram, controls.epoch, r);
    var places := PlaceBytes(walk, bk, |ram|, controls.epoch, r, Span(r)).places;
    PlacesByIndex(walk, bk, |ram|, controls.epoch, r, Span(r), i);
    PlacedWhere(walk, bk, ram, controls.epoch, r, i);
    StorePlacesDistinct(walk, page, bk, |ram|, controls.epoch, r);
    StoredBytes(ram, places, r, Span(r));
    StoredDigit(r, i);
  }

  lemma StoredDigit(r: Request, i: nat)
    requires r.width > 0
    ensures StoreByte(r, i) == ValueByte(r.width, r.value0, r.value1, i)
  {
    ByteDigit(if i / r.width == 0 then r.value0 else r.value1, i % r.width);
  }

  /* ---------- What a refused request is told ---------- */

  /** A request that reaches translation: well formed, aligned where it must be, and not wrapping. */
  predicate Reaches(controls: Controls, r: Request)
  {
    && RequestValid(r, controls)
    && (r.address % r.width != 0 ==> r.operation != 1 && controls.sctlr & 2 == 0)
    && r.address + r.width * r.count - 1 < 0x1_0000_0000_0000_0000
  }

  /** The first byte whose own access faults, after transferable ones, decides the reply; nothing is written. */
  lemma FirstFaultReplies(walk: Walker, bk: Backing, ram: seq<u8>, controls: Controls, r: Request, i: nat)
    requires Reaches(controls, r) && i < r.width * r.count && Needed(walk, r, i).Faulted?
    requires forall j :: 0 <= j < i ==> Transferable(walk, bk, ram, r, j)
    ensures Serve(walk, bk, ram, controls, r) == (FailureReply(r, controls.epoch, r.address + i, Needed(walk, r, i).failure), ram)
  {
    hide PlaceBytes, PlaceByte, Transferable, FailureReply, LoadBytes, StoreBytes, Element;
    if r.operation == 1 && i > 0 {
      FetchIsOneTranslation(walk, bk, ram, r, i);
    }
    AllPlaced(walk, bk, ram, controls.epoch, r, i);
    PlaceNext(walk, bk, |ram|, controls.epoch, r, PlaceBytes(walk, bk, |ram|, controls.epoch, r, i).places, i);
    FaultedByte(walk, bk, |ram|, controls.epoch, r, i);
    StopIsFinal(walk, bk, |ram|, controls.epoch, r, i + 1, Span(r));
  }

  lemma FetchIsOneTranslation(walk: Walker, bk: Backing, ram: seq<u8>, r: Request, i: nat)
    requires r.operation == 1 && r.address + i < 0x1_0000_0000_0000_0000 && i > 0
    requires Transferable(walk, bk, ram, r, 0)
    ensures Needed(walk, r, i).Mapped?
  {
  }

  /** The codes of an architectural fault: its kind, its status with the level, and the syndrome of the abort. */
  lemma FaultCodes(r: Request, epoch: u64, va: u64, e: Failure)
    requires r.currentEl <= 1 && e.kind.Architectural?
    ensures var reply, level := FailureReply(r, epoch, va, e), if e.level.Some? then e.level.value else 0;
      && reply.result == 1 && reply.address == va && reply.epoch == epoch
      && (e.kind.fault.AddressSize? ==> reply.fault == 3 && reply.fsc == level)
      && (e.kind.fault.Translation? ==> reply.fault == 4 && reply.fsc == 4 + level)
      && (e.kind.fault.AccessFlag? ==> reply.fault == 6 && reply.fsc == 8 + level)
      && (e.kind.fault.Permission? ==> reply.fault == 5 && reply.fsc == 12 + level)
      && (e.kind.fault.Alignment? ==> reply.fault == 1 && reply.fsc == 0 && reply.esr == 0x8a00_0000)
      && (!e.kind.fault.Alignment? ==>
            reply.esr == (if r.operation == 1 then 0x8200_0000 else 0x9200_0000) + r.currentEl * 0x400_0000
                         + reply.fsc + (if r.operation == 3 then 0x40 else 0))
  {
  }

  /** Failures that are not the guest's: missing tables are unavailable (3), everything else unsupported (2). */
  lemma FailureCodes(r: Request, epoch: u64, va: u64, e: Failure)
    requires r.currentEl <= 1 && !e.kind.Architectural?
    ensures var reply := FailureReply(r, epoch, va, e);
      && reply.result == (if e.kind.TableUnavailable? then 3 else 2)
      && reply.address == va && reply.fault == 0 && reply.fsc == 0 && reply.esr == 0
  {
  }

  /** A misaligned fetch, or data where the controls check alignment, is a fault of its own before any translation. */
  lemma MisalignedCodes(walk: Walker, bk: Backing, ram: seq<u8>, controls: Controls, r: Request)
    requires RequestValid(r, controls) && r.address % r.width != 0 && (r.operation == 1 || controls.sctlr & 2 != 0)
    ensures var (reply, after) := Serve(walk, bk, ram, controls, r);
      && after == ram && reply.result == 1 && reply.address == r.address && reply.context == 1
      && (if r.operation == 1 then reply.fault == 1 && reply.fsc == 0 && reply.esr == 0x8a00_0000
          else reply.fault == 2 && reply.fsc == 0x21
               && reply.esr == 0x9200_0021 + r.currentEl * 0x400_0000 + (if r.operation == 3 then 0x40 else 0))
  {
  }

  /** Whatever is not answered as malformed (4) was a well-formed request under the current controls. */
  lemma AcceptedIsWellFormed(walk: Walker, bk: Backing, ram: seq<u8>, controls: Controls, r: Request)
    requires Serve(walk, bk, ram, controls, r).0.result != 4
    ensures r.abiVersion == 2 && r.structSize == 160 && r.flags == 0 && r.reserved0 == 0 && r.reserved1 == 0
    ensures r.controls == controls && 1 <= r.operation <= 3
    ensures r.width in {1, 2, 4, 8} && r.count in {1, 2} && (r.count == 2 ==> r.width >= 4)
    ensures r.operation == 1 ==> r.width == 4 && r.count == 1 && r.address == r.pc
    ensures r.operation != 3 ==> r.value0 == 0 && r.value1 == 0
    ensures r.count == 1 ==> r.value1 == 0
    ensures r.currentEl <= 1 && (if r.currentEl == 0 then r.pstate & 15 == 0 else r.pstate & 15 == 4 || r.pstate & 15 == 5)
    ensures r.width == 1 ==> r.value0 < 0x100
    ensures r.width == 2 ==> r.value0 < 0x1_0000
    ensures r.width == 4 ==> r.value0 < 0x1_0000_0000 && r.value1 < 0x1_0000_0000
  {
    hide ByteWalk, AlignmentReply;
    Pow256Values();
  }

  /* ---------- The spans a service may be built over ---------- */

  /** Two spans of at least eight bytes below the end of the address space are accepted exactly when no address is in both. */
  lemma SpansApart(bk: Backing, ramLength: nat)
    requires ramLength >= 8 && |bk.tables| >= 8
    requires bk.ramBase + ramLength < 0x1_0000_0000_0000_0000 && bk.tableBase + |bk.tables| < 0x1_0000_0000_0000_0000
    ensures BackingValid(bk, ramLength) <==>
      forall pa: nat :: !(InRam(bk, ramLength, pa) && bk.tableBase <= pa < bk.tableBase + |bk.tables|)
  {
    if !BackingValid(bk, ramLength) {
      assert InRam(bk, ramLength, if bk.ramBase < bk.tableBase then bk.tableBase else bk.ramBase);
    }
  }
}
