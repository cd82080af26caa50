/**
 The mapped memory service. Its reference form walks a request byte by byte; the service itself first
 tries one translation and one whole-span backing check for an aligned scalar. RAM is written in place.
 */
module Stage1 {
  import opened Basics
  import opened LittleEndian
  import opened MemoryAbi
  import opened PowersOfTwo

  /* ---------- The translation walker, seen from outside ---------- */

  datatype Access = Read | Write | Execute
  datatype Fault = AddressSize | Translation | Permission | AccessFlag | Alignment
  datatype FailureKind = Architectural(fault: Fault) | TableUnavailable | TableExternalAbort | Unsupported
  datatype FaultContext = Input | Walk | Leaf | CachedLeaf
  type Level = x: int | 0 <= x <= 3
  datatype Failure = Failure(kind: FailureKind, level: Option<Level>, context: FaultContext,
                             descriptorPa: Option<u64>, outputPa: Option<u64>)
  datatype Attributes = Attributes(attrIndex: u8, shareability: u8, mair: u8)
  datatype Translated = Mapped(pa: u64, attributes: Option<Attributes>) | Faulted(failure: Failure)

  const NORMAL_NC := Attributes(0, 0, 0x44)

  /** Virtual address, access and exception level to a translation, for fixed controls and tables. */
  type Walker = (u64, Access, u32) -> Translated

  predicate SamePage(page: nat, a: int, b: int)
    requires page > 0
  {
    a / page == b / page
  }

  /**
   What the walker promises: pages of 4 KiB or 16 KiB, the page offset kept, 48-bit output,
   one translation for a whole page, and a writable byte is readable at the same place.
   */
  ghost predicate PageContract(walk: Walker, page: nat)
  {
    && (page == 0x1000 || page == 0x4000)
    && (forall va: u64, access, el :: walk(va, access, el).Mapped? ==>
          walk(va, access, el).pa % page == va % page && walk(va, access, el).pa < 0x1_0000_0000_0000)
    && (forall va: u64, wa: u64, access, el :: walk(va, access, el).Mapped? && SamePage(page, va, wa) ==>
          && walk(wa, access, el).Mapped?
          && walk(wa, access, el).attributes == walk(va, access, el).attributes
          && walk(wa, access, el).pa - walk(va, access, el).pa == wa - va)
    && (forall va: u64, el :: walk(va, Write, el).Mapped? ==> walk(va, Read, el) == walk(va, Write, el))
  }

  /* ---------- Backing ---------- */

  /** Two disjoint owned spans; the tables are never written. */
  datatype Backing = Backing(ramBase: u64, tableBase: u64, tables: seq<u8>)

  function Offset(address: nat, width: nat, base: u64, length: nat): (r: Option<nat>)
  {
    if address >= base && width <= length && address - base <= length - width then Some(address - base) else None
  }

  const U64 := 0x1_0000_0000_0000_0000

  predicate Overlaps(a: nat, n: nat, b: nat, m: nat) { a < b + m && b < a + n }

  predicate BackingValid(bk: Backing, ramLength: nat)
  {
    && ramLength >= 8 && |bk.tables| >= 8
    && bk.ramBase + ramLength < 0x1_0000_0000_0000_0000
    && bk.tableBase + |bk.tables| < 0x1_0000_0000_0000_0000
    && !Overlaps(bk.ramBase, ramLength, bk.tableBase, |bk.tables|)
  }

  /** The spans a caller may hand over: tables are moreover made of aligned eight-byte descriptors. */
  predicate RangesValid(bk: Backing, ramLength: nat)
  {
    BackingValid(bk, ramLength) && bk.tableBase % 8 == 0 && |bk.tables| % 8 == 0
  }

  datatype Place = Place(table: bool, index: nat)

  /* ---------- Requests and replies ---------- */

  predicate ControlsValid(c: Controls)
  {
    var allowedTcr: bv64 := 0x3f | (1 << 7) | (3 << 14) | (0x3f << 16) | (1 << 22) | (1 << 23) | (3 << 30) | (7 << 32);
    var tg0, tg1 := (c.tcr >> 14) & 3, (c.tcr >> 30) & 3;
    var t0, t1 := c.tcr & 63, (c.tcr >> 16) & 63;
    var fourK, sixteenK := tg0 == 0 && tg1 == 2, tg0 == 2 && tg1 == 1;
    var least, greatest: bv64 := if fourK then 16 else 17, if fourK then 39 else 47;
    var alignment: bv64 := if fourK then 0x1000 else 0x4000;
    var mask: bv64 := (0x0000_ffff_ffff_ffff & !(alignment - 1)) | 0x00ff_0000_0000_0000;
    && (c.profile == 1 || c.profile == 3)
    && c.abiVersion == 2 && c.structSize == 80 && c.reserved == 0 && c.epoch == 1
    && c.mair == 0x44 && c.hcr == 0 && c.scr == 0
    && c.sctlr & !0x18 == (if c.profile == 1 then 0x30d0_0803 else 0x30d0_0801)
    && c.tcr & !allowedTcr == 0 && (c.tcr >> 32) & 7 <= 5
    && (fourK || sixteenK)
    && least <= t0 <= greatest && least <= t1 <= greatest
    && c.ttbr0 & !mask == 0 && c.ttbr1 & !mask == 0
  }

  /** A value that leaves bits above the access width clear. */
  predicate FitsWidth(value: u64, width: u32) { value < Pow256(width) }

  predicate RequestValid(r: Request, controls: Controls)
  {
    var mode := r.pstate & 15;
    && r.abiVersion == 2 && r.structSize == 160 && r.flags == 0 && r.reserved0 == 0 && r.reserved1 == 0
    && r.controls == controls
    && (r.operation == FETCH || r.operation == LOAD || r.operation == STORE)
    && (r.width == 1 || r.width == 2 || r.width == 4 || r.width == 8)
    && (r.count == 1 || r.count == 2) && !(r.count == 2 && r.width < 4)
    && !(r.operation == FETCH && (r.width != 4 || r.count != 1 || r.address != r.pc))
    && !(r.operation != STORE && (r.value0 != 0 || r.value1 != 0))
    && !(r.count == 1 && r.value1 != 0)
    && r.pstate & !0xf000_03cf == 0
    && ((r.currentEl == 0 && mode == 0) || (r.currentEl == 1 && (mode == 4 || mode == 5)))
    && FitsWidth(r.value0, r.width) && FitsWidth(r.value1, r.width)
  }

  function Empty(result: u32, epoch: u64): (reply: Reply) { BlankReply(2, result, epoch) }

  function ReplyAt(result: u32, epoch: u64, address: u64): (reply: Reply)
  {
    Empty(result, epoch).(address := address)
  }

  /** The syndrome of a data or instruction abort: class, instruction length bit, status and write bit. */
  function AbortEsr(ec: nat, fsc: nat, store: bool): (v: u64)
    requires ec < 64 && fsc < 64
  {
    ec * 0x400_0000 + 0x200_0000 + fsc + (if store then 64 else 0)
  }

  function ContextCode(c: FaultContext): (v: u32)
  {
    match c
    case Input => INPUT
    case Walk => WALK
    case Leaf => LEAF
    case CachedLeaf => CACHED_LEAF
  }

  function FailureReply(r: Request, epoch: u64, va: u64, e: Failure): (reply: Reply)
    requires r.currentEl <= 1
  {
    var result := match e.kind
      case Architectural(_) => GUEST_FAULT
      case TableUnavailable => UNAVAILABLE
      case TableExternalAbort => UNSUPPORTED
      case Unsupported => UNSUPPORTED;
    var base := ReplyAt(result, epoch, va).(
      level := if e.level.Some? then e.level.value else NO_LEVEL,
      context := ContextCode(e.context),
      descriptorPa := if e.descriptorPa.Some? then e.descriptorPa.value else 0,
      outputPa := if e.outputPa.Some? then e.outputPa.value else 0,
      metadataFlags := (if e.descriptorPa.Some? then HAS_DESCRIPTOR else 0)
                       + (if e.outputPa.Some? then HAS_OUTPUT else 0));
    if !e.kind.Architectural? then base
    else
      var level := if e.level.Some? then e.level.value else 0;
      var (kind, fsc) := match e.kind.fault
        case AddressSize => (ADDRESS_SIZE, level)
        case Translation => (TRANSLATION, 4 + level)
        case Permission => (PERMISSION, 12 + level)
        case AccessFlag => (ACCESS_FLAG, 8 + level)
        case Alignment => (PC_ALIGNMENT, 0);
      var ec := (if r.operation == FETCH then 0x20 else 0x24) + r.currentEl;
      base.(fault := kind, fsc := fsc,
            esr := if kind == PC_ALIGNMENT then 0x8a00_0000 else AbortEsr(ec, fsc, r.operation == STORE))
  }

  function AlignmentReply(r: Request, epoch: u64): (reply: Reply)
    requires r.currentEl <= 1
  {
    var base := ReplyAt(GUEST_FAULT, epoch, r.address).(context := INPUT);
    if r.operation == FETCH then base.(fault := PC_ALIGNMENT, esr := 0x8a00_0000)
    else base.(fault := DATA_ALIGNMENT, fsc := 0x21,
               esr := AbortEsr(0x24 + r.currentEl, 0x21, r.operation == STORE))
  }

  function AccessOf(r: Request): (access: Access)
  {
    if r.operation == FETCH then Execute else if r.operation == STORE then Write else Read
  }

  function Span(r: Request): (n: nat) { r.width * r.count }

  /* ---------- The reference: every byte on its own ---------- */

  datatype Preflight = Stop(reply: Reply) | Ready(places: seq<Place>)

  /** A request that has passed the checks before translation. */
  predicate Walkable(r: Request)
  {
    && r.currentEl <= 1 && (r.width == 1 || r.width == 2 || r.width == 4 || r.width == 8)
    && (r.count == 1 || r.count == 2)
    && (r.operation == FETCH || r.operation == LOAD || r.operation == STORE)
    && r.address + Span(r) - 1 < 0x1_0000_0000_0000_0000
  }

  /** Where byte i of the request lives, or the reply that ends the request there. */
  function PlaceByte(walk: Walker, bk: Backing, ramLength: nat, epoch: u64, r: Request, i: nat): (preflight: Preflight)
    requires Walkable(r) && i < Span(r)
  {
    var va: u64 := r.address + i;
    var query := if r.operation == FETCH then r.address else va;
    match walk(query, AccessOf(r), r.currentEl)
    case Faulted(e) => Stop(FailureReply(r, epoch, query, e))
    case Mapped(pa0, attributes) =>
      if attributes != Some(NORMAL_NC) then Stop(ReplyAt(UNSUPPORTED, epoch, va))
      else
        var pa := if r.operation == FETCH then pa0 + i else pa0;
        var inRam := Offset(pa, 1, bk.ramBase, ramLength);
        var inTables := Offset(pa, 1, bk.tableBase, |bk.tables|);
        if inRam.Some? then Ready([Place(false, inRam.value)])
        else if inTables.None? then
          Stop(ReplyAt(UNAVAILABLE, epoch, va).(outputPa := pa % U64, metadataFlags := HAS_OUTPUT))
        else if r.operation == STORE then
          Stop(ReplyAt(UNSUPPORTED, epoch, va).(outputPa := pa % U64, metadataFlags := HAS_OUTPUT))
        else Ready([Place(true, inTables.value)])
  }

  /** The first n bytes in order; the first byte that cannot be placed decides. */
  function PlaceBytes(walk: Walker, bk: Backing, ramLength: nat, epoch: u64, r: Request, n: nat): (p: Preflight)
    requires Walkable(r) && n <= Span(r)
    ensures p.Ready? ==> |p.places| == n
  {
    if n == 0 then Ready([])
    else
      var before := PlaceBytes(walk, bk, ramLength, epoch, r, n - 1);
      if before.Stop? then before
      else match PlaceByte(walk, bk, ramLength, epoch, r, n - 1)
           case Stop(reply) => Stop(reply)
           case Ready(last) => Ready(before.places + [last[0]])
  }

  function StoreByte(r: Request, i: nat): (v: u8)
    requires r.width > 0
  {
    ByteAt(if i / r.width == 0 then r.value0 else r.value1, i % r.width)
  }

  predicate PlacesOwned(places: seq<Place>, ramLength: nat, tableLength: nat, store: bool)
  {
    forall p :: p in places ==> (p.table ==> !store) && p.index < (if p.table then tableLength else ramLength)
  }

  /** RAM after the first n bytes of a store. */
  function StoreBytes(ram: seq<u8>, places: seq<Place>, r: Request, n: nat): (after: seq<u8>)
    requires n <= |places| && r.width > 0 && PlacesOwned(places, |ram|, 0, true)
    ensures |after| == |ram|
  {
    if n == 0 then ram
    else
      assert places[n - 1] in places;
      StoreBytes(ram, places, r, n - 1)[places[n - 1].index := StoreByte(r, n - 1)]
  }

  function ByteIn(ram: seq<u8>, tables: seq<u8>, p: Place): (v: u8)
    requires p.index < if p.table then |tables| else |ram|
  {
    if p.table then tables[p.index] else ram[p.index]
  }

  /** The bytes that a load gathers, in address order. */
  function LoadBytes(ram: seq<u8>, tables: seq<u8>, places: seq<Place>): (s: seq<u8>)
    requires PlacesOwned(places, |ram|, |tables|, false)
    ensures |s| == |places|
  {
    seq(|places|, i requires 0 <= i < |places| => assert places[i] in places; ByteIn(ram, tables, places[i]))
  }

  /** One element of the request out of its gathered bytes. */
  function Element(s: seq<u8>, width: nat, e: nat): (n: nat)
  {
    if (e + 1) * width <= |s| then Assemble(s[e * width..(e + 1) * width]) else 0
  }

  /** The whole service without its fast path: preflight every byte, then transfer every byte. */
  function ByteWalk(walk: Walker, bk: Backing, ram: seq<u8>, epoch: u64, r: Request): (result: (Reply, seq<u8>))
    requires Walkable(r)
  {
    match PlaceBytes(walk, bk, |ram|, epoch, r, Span(r))
    case Stop(reply) => (reply, ram)
    case Ready(places) =>
      PlacesAreOwned(walk, bk, |ram|, epoch, r, Span(r));
      if r.operation == STORE then (Empty(OK, epoch), StoreBytes(ram, places, r, Span(r)))
      else
        var s := LoadBytes(ram, bk.tables, places);
        ElementBound(s, r.width, 0);
        ElementBound(s, r.width, 1);
        (LoadReply(s, epoch, r.width), ram)
  }

  function LoadReply(s: seq<u8>, epoch: u64, width: nat): (reply: Reply)
    requires Element(s, width, 0) < U64 && Element(s, width, 1) < U64
  {
    Empty(OK, epoch).(value0 := Element(s, width, 0), value1 := Element(s, width, 1))
  }

  lemma {:induction false} PlacesAreOwned(walk: Walker, bk: Backing, ramLength: nat, epoch: u64, r: Request, n: nat)
    requires Walkable(r) && n <= Span(r)
    ensures var p := PlaceBytes(walk, bk, ramLength, epoch, r, n);
            p.Ready? ==> PlacesOwned(p.places, ramLength, |bk.tables|, r.operation == STORE)
  {
    if n > 0 {
      PlacesAreOwned(walk, bk, ramLength, epoch, r, n - 1);
    }
  }

  lemma NoBytes(walk: Walker, bk: Backing, ramLength: nat, epoch: u64, r: Request)
    requires Walkable(r)
    ensures PlaceBytes(walk, bk, ramLength, epoch, r, 0) == Ready([])
  {
  }

  lemma PlaceNext(walk: Walker, bk: Backing, ramLength: nat, epoch: u64, r: Request, places: seq<Place>, n: nat)
    requires Walkable(r) && n < Span(r)
    requires PlaceBytes(walk, bk, ramLength, epoch, r, n) == Ready(places)
    ensures var byte := PlaceByte(walk, bk, ramLength, epoch, r, n);
            && (byte.Ready? ==> |byte.places| == 1)
            && PlaceBytes(walk, bk, ramLength, epoch, r, n + 1)
               == if byte.Stop? then byte else Ready(places + byte.places)
  {
  }

  /** How the preflight decides the whole request. */
  lemma WalkOutcome(walk: Walker, bk: Backing, ram: seq<u8>, epoch: u64, r: Request)
    requires Walkable(r)
    ensures var p, result := PlaceBytes(walk, bk, |ram|, epoch, r, Span(r)), ByteWalk(walk, bk, ram, epoch, r);
            && (p.Stop? ==> result == (p.reply, ram))
            && (p.Ready? ==>
                  && |p.places| == Span(r)
                  && PlacesOwned(p.places, |ram|, |bk.tables|, r.operation == STORE)
                  && (r.operation == STORE ==> result == (Empty(OK, epoch), StoreBytes(ram, p.places, r, Span(r))))
                  && (r.operation != STORE ==>
                        var s := LoadBytes(ram, bk.tables, p.places);
                        && Element(s, r.width, 0) < U64 && Element(s, r.width, 1) < U64
                        && result == (LoadReply(s, epoch, r.width), ram)))
  {
    hide PlaceByte, StoreBytes, Element;
    PlacesAreOwned(walk, bk, |ram|, epoch, r, Span(r));
    if PlaceBytes(walk, bk, |ram|, epoch, r, Span(r)).Ready? {
      var places := PlaceBytes(walk, bk, |ram|, epoch, r, Span(r)).places;
      if r.operation != STORE {
        var s := LoadBytes(ram, bk.tables, places);
        ElementBound(s, r.width, 0);
        ElementBound(s, r.width, 1);
      }
    }
  }

  lemma Pow256Values()
    ensures Pow256(1) == 0x100 && Pow256(2) == 0x1_0000 && Pow256(4) == 0x1_0000_0000 && Pow256(8) == U64
  {
    assert Pow256(3) == 256 * Pow256(2);
    assert Pow256(5) == 256 * Pow256(4);
    assert Pow256(7) == 256 * Pow256(6);
  }

  lemma ElementBound(s: seq<u8>, width: nat, e: nat)
    requires width == 1 || width == 2 || width == 4 || width == 8
    ensures Element(s, width, e) < U64
  {
    Pow256Values();
    if (e + 1) * width <= |s| {
      EncodeAssemble(s[e * width..(e + 1) * width]);
    }
  }

  /** The reply and the RAM that the service owes for any request whatever. */
  function Serve(walk: Walker, bk: Backing, ram: seq<u8>, controls: Controls, r: Request): (result: (Reply, seq<u8>))
  {
    if !RequestValid(r, controls) then (Empty(INVALID_REQUEST, controls.epoch), ram)
    else if r.address % r.width != 0 && (r.operation == FETCH || controls.sctlr & 2 != 0) then
      (AlignmentReply(r, controls.epoch), ram)
    else if r.address + Span(r) - 1 >= U64 then (ReplyAt(UNSUPPORTED, controls.epoch, r.address), ram)
    else ByteWalk(walk, bk, ram, controls.epoch, r)
  }

  /* ---------- One translation stands for a whole aligned scalar ---------- */

  lemma FirstByteDecides(walk: Walker, bk: Backing, ramLength: nat, epoch: u64, r: Request, n: nat)
    requires Walkable(r) && 0 < n <= Span(r)
    requires PlaceByte(walk, bk, ramLength, epoch, r, 0).Stop?
    ensures PlaceBytes(walk, bk, ramLength, epoch, r, n) == PlaceByte(walk, bk, ramLength, epoch, r, 0)
  {
    assert PlaceBytes(walk, bk, ramLength, epoch, r, 0) == Ready([]);
    StopIsFinal(walk, bk, ramLength, epoch, r, 1, n);
  }

  predicate AlignedScalar(r: Request)
  {
    r.count == 1 && (r.width == 4 || r.width == 8) && r.address % r.width == 0
  }

  lemma AlignedInPage(address: nat, width: nat, page: nat, i: nat)
    requires (width == 4 || width == 8) && (page == 0x1000 || page == 0x4000)
    requires address % width == 0 && i < width
    ensures SamePage(page, address, address + i)
  {
    if width == 4 {
      if page == 0x1000 { assert (address + i) / 0x1000 == address / 0x1000; }
      else { assert (address + i) / 0x4000 == address / 0x4000; }
    } else {
      if page == 0x1000 { assert (address + i) / 0x1000 == address / 0x1000; }
      else { assert (address + i) / 0x4000 == address / 0x4000; }
    }
  }

  /** The whole-span backing of the fast path, RAM before tables. */
  function SpanPlace(bk: Backing, ramLength: nat, pa: nat, bytes: nat): (r: Option<Place>)
  {
    var inRam := Offset(pa, bytes, bk.ramBase, ramLength);
    var inTables := Offset(pa, bytes, bk.tableBase, |bk.tables|);
    if inRam.Some? then Some(Place(false, inRam.value))
    else if inTables.Some? then Some(Place(true, inTables.value))
    else None
  }

  function Consecutive(first: Place, n: nat): (s: seq<Place>)
    ensures |s| == n
  {
    seq(n, i requires 0 <= i => Place(first.table, first.index + i))
  }

  lemma SpanByte(walk: Walker, page: nat, bk: Backing, ramLength: nat, epoch: u64, r: Request, i: nat)
    requires Walkable(r) && AlignedScalar(r) && i < Span(r)
    requires PageContract(walk, page) && BackingValid(bk, ramLength)
    requires var t := walk(r.address, AccessOf(r), r.currentEl);
             && t.Mapped? && t.attributes == Some(NORMAL_NC)
             && var first := SpanPlace(bk, ramLength, t.pa, Span(r));
                first.Some? && (first.value.table ==> r.operation != STORE)
    ensures var first := SpanPlace(bk, ramLength, walk(r.address, AccessOf(r), r.currentEl).pa, Span(r)).value;
            PlaceByte(walk, bk, ramLength, epoch, r, i) == Ready([Place(first.table, first.index + i)])
  {
    var t := walk(r.address, AccessOf(r), r.currentEl);
    if r.operation != FETCH {
      var va: u64 := r.address + i;
      AlignedInPage(r.address, r.width, page, i);
      assert walk(va, AccessOf(r), r.currentEl).pa == t.pa + i;
    }
  }

  lemma {:induction false} SpanBytes(walk: Walker, page: nat, bk: Backing, ramLength: nat, epoch: u64, r: Request, n: nat)
    requires Walkable(r) && AlignedScalar(r) && n <= Span(r)
    requires PageContract(walk, page) && BackingValid(bk, ramLength)
    requires var t := walk(r.address, AccessOf(r), r.currentEl);
             && t.Mapped? && t.attributes == Some(NORMAL_NC)
             && var first := SpanPlace(bk, ramLength, t.pa, Span(r));
                first.Some? && (first.value.table ==> r.operation != STORE)
    ensures var first := SpanPlace(bk, ramLength, walk(r.address, AccessOf(r), r.currentEl).pa, Span(r)).value;
            PlaceBytes(walk, bk, ramLength, epoch, r, n) == Ready(Consecutive(first, n))
  {
    hide PageContract, PlaceByte, PlaceBytes, SpanPlace;
    if n == 0 {
      NoBytes(walk, bk, ramLength, epoch, r);
    } else {
      SpanBytes(walk, page, bk, ramLength, epoch, r, n - 1);
      SpanByte(walk, page, bk, ramLength, epoch, r, n - 1);
      var first := SpanPlace(bk, ramLength, walk(r.address, AccessOf(r), r.currentEl).pa, Span(r)).value;
      PlaceNext(walk, bk, ramLength, epoch, r, Consecutive(first, n - 1), n - 1);
      assert Consecutive(first, n) == Consecutive(first, n - 1) + [Place(first.table, first.index + (n - 1))];
    }
  }

  lemma {:induction false} StoreConsecutive(ram: seq<u8>, first: Place, r: Request, n: nat, total: nat)
    requires !first.table && first.index + total <= |ram| && n <= total && total <= r.width && r.width > 0
    requires PlacesOwned(Consecutive(first, total), |ram|, 0, true)
    ensures StoreBytes(ram, Consecutive(first, total), r, n)
            == ram[..first.index] + Encode(r.value0, n) + ram[first.index + n..]
  {
    if n > 0 {
      StoreConsecutive(ram, first, r, n - 1, total);
      SmallQuotient(n - 1, r.width);
      var before := StoreBytes(ram, Consecutive(first, total), r, n - 1);
      assert before[first.index + n - 1 := ByteAt(r.value0, n - 1)]
             == ram[..first.index] + Encode(r.value0, n) + ram[first.index + n..];
    }
  }

  lemma SmallQuotient(i: nat, w: nat)
    requires i < 2 * w
    ensures i / w == (if i < w then 0 else 1) && i % w == (if i < w then i else i - w)
  {
    var q := i / w;
    assert i == q * w + i % w;
    MulOrder(q, 2, w);
    MulOrder(0, q, w);
    MulOrder(1, q + 1, w);
    Distribute(q, 1, w);
  }

  lemma LoadConsecutive(ram: seq<u8>, tables: seq<u8>, first: Place, n: nat)
    requires first.index + n <= if first.table then |tables| else |ram|
    ensures PlacesOwned(Consecutive(first, n), |ram|, |tables|, false)
    ensures LoadBytes(ram, tables, Consecutive(first, n))
            == (if first.table then tables else ram)[first.index..first.index + n]
  {
  }

  /* ---------- The service ---------- */

  class MemoryServiceV2 {
    const ram: array<u8>
    const backing: Backing
    ghost const page: nat
    var controls: Controls
    var walk: Walker

    ghost predicate Valid()
      reads this
    {
      && BackingValid(backing, ram.Length)
      && PageContract(walk, page)
    }

    constructor (ram: array<u8>, backing: Backing, controls: Controls, walk: Walker, ghost page: nat)
      requires BackingValid(backing, ram.Length) && PageContract(walk, page)
      ensures Valid() && this.ram == ram && this.backing == backing && this.controls == controls && this.walk == walk
      ensures this.page == page
    {
      this.ram, this.backing, this.page := ram, backing, page;
      this.controls, this.walk := controls, walk;
    }

    /** Builds the service over disjoint, aligned spans under valid controls, and says why otherwise. */
    static method New(ram: array<u8>, backing: Backing, controls: Controls, walk: Walker, ghost page: nat)
      returns (r: Built<MemoryServiceV2>)
      requires PageContract(walk, page)
      ensures r.Built? <==> RangesValid(backing, ram.Length) && ControlsValid(controls)
      ensures r.NotBuilt? ==> (r.error == InvalidRange <==> !RangesValid(backing, ram.Length))
      ensures r.Built? ==> fresh(r.service) && r.service.Valid() && r.service.ram == ram && r.service.backing == backing
      ensures r.Built? ==> r.service.controls == controls && r.service.walk == walk && r.service.page == page
    {
      if !RangesValid(backing, ram.Length) { return NotBuilt(InvalidRange); }
      if !ControlsValid(controls) { return NotBuilt(InvalidControls); }
      var service := new MemoryServiceV2(ram, backing, controls, walk, page);
      r := Built(service);
    }

    /** Same reply and same RAM as the byte walk, for every request, mapping and backing layout. */
    method Execute(r: Request) returns (out: Reply)
      requires Valid()
      modifies ram
      ensures Valid()
      ensures (out, ram[..]) == Serve(walk, backing, old(ram[..]), controls, r)
    {
      ghost var before := ram[..];
      if !RequestValid(r, controls) {
        return Empty(INVALID_REQUEST, controls.epoch);
      }
      if r.address % r.width != 0 && (r.operation == FETCH || controls.sctlr & 2 != 0) {
        return AlignmentReply(r, controls.epoch);
      }
      var bytes := r.width * r.count;
      if r.address + bytes - 1 >= U64 {
        return ReplyAt(UNSUPPORTED, controls.epoch, r.address);
      }
      if AlignedScalar(r) {
        var translated := walk(r.address, AccessOf(r), r.currentEl);
        if translated.Faulted? {
          FirstByteDecides(walk, backing, ram.Length, controls.epoch, r, bytes);
          return FailureReply(r, controls.epoch, r.address, translated.failure);
        }
        if translated.attributes != Some(NORMAL_NC) {
          FirstByteDecides(walk, backing, ram.Length, controls.epoch, r, bytes);
          return ReplyAt(UNSUPPORTED, controls.epoch, r.address);
        }
        var place := SpanPlace(backing, ram.Length, translated.pa, bytes);
        if place.Some? && (!place.value.table || r.operation != STORE) {
          out := TransferSpan(r, place.value);
          return;
        }
      }
      out := WalkBytes(r);
    }

    /** The fast path's single transfer. */
    method TransferSpan(r: Request, place: Place) returns (out: Reply)
      requires Valid() && Walkable(r) && AlignedScalar(r) && FitsWidth(r.value0, r.width)
      requires var t := walk(r.address, AccessOf(r), r.currentEl);
               t.Mapped? && t.attributes == Some(NORMAL_NC)
               && SpanPlace(backing, ram.Length, t.pa, Span(r)) == Some(place)
               && (place.table ==> r.operation != STORE)
      modifies ram
      ensures (out, ram[..]) == ByteWalk(walk, backing, old(ram[..]), controls.epoch, r)
    {
      hide PageContract, PlaceByte, PlaceBytes, StoreBytes, LoadBytes, ByteWalk, SpanPlace, PlacesOwned;
      ghost var before, n := ram[..], Span(r);
      SpanBytes(walk, page, backing, ram.Length, controls.epoch, r, n);
      WalkOutcome(walk, backing, before, controls.epoch, r);
      SpanInside(backing, ram.Length, r, place);
      out := Empty(OK, controls.epoch);
      if r.operation == STORE {
        StoreConsecutive(before, place, r, n, n);
        StoreSpan(r, place.index);
        assert before[place.index + n..] == before[place.index + r.width..];
      } else {
        LoadConsecutive(before, backing.tables, place, n);
        var source := if place.table then backing.tables[place.index..place.index + r.width]
                      else ram[place.index..place.index + r.width];
        assert source[0 * r.width..1 * r.width] == source;
        ElementBound(source, r.width, 0);
        out := out.(value0 := Assemble(source));
      }
    }

    method StoreSpan(r: Request, index: nat)
      requires index + r.width <= ram.Length
      modifies ram
      ensures ram[..] == old(ram[..])[..index] + Encode(r.value0, r.width) + old(ram[..])[index + r.width..]
    {
      forall i | 0 <= i < r.width {
        ram[index + i] := ByteAt(r.value0, i);
      }
    }

    /** Preflight every byte before the first transfer, so that a refused store changes nothing. */
    method WalkBytes(r: Request) returns (out: Reply)
      requires Walkable(r)
      modifies ram
      ensures (out, ram[..]) == ByteWalk(walk, backing, old(ram[..]), controls.epoch, r)
    {
      hide PlaceByte, PlaceBytes, StoreBytes, LoadBytes, ByteWalk;
      var bytes := r.width * r.count;
      var places := new Place[16](_ => Place(false, 0));
      ghost var before := ram[..];
      assert PlaceBytes(walk, backing, ram.Length, controls.epoch, r, 0) == Ready([]) by {
        NoBytes(walk, backing, ram.Length, controls.epoch, r);
      }
      for i := 0 to bytes
        invariant PlaceBytes(walk, backing, ram.Length, controls.epoch, r, i) == Ready(places[..i])
        invariant ram[..] == before
      {
        PlaceNext(walk, backing, ram.Length, controls.epoch, r, places[..i], i);
        match PlaceByte(walk, backing, ram.Length, controls.epoch, r, i) {
          case Stop(reply) =>
            StopIsFinal(walk, backing, ram.Length, controls.epoch, r, i + 1, bytes);
            WalkOutcome(walk, backing, before, controls.epoch, r);
            return reply;
          case Ready(place) =>
            places[i] := place[0];
            assert places[..i + 1] == places[..i] + place;
        }
      }
      WalkOutcome(walk, backing, before, controls.epoch, r);
      out := Empty(OK, controls.epoch);
      if r.operation == STORE {
        StoreAll(r, places);
      } else {
        var value0, value1 := Gather(r, places);
        out := out.(value0 := value0, value1 := value1);
      }
    }

    method StoreAll(r: Request, places: array<Place>)
      requires Walkable(r) && places.Length == 16
      requires PlacesOwned(places[..Span(r)], ram.Length, 0, true)
      modifies ram
      ensures ram[..] == StoreBytes(old(ram[..]), places[..Span(r)], r, Span(r))
    {
      ghost var before, found := ram[..], places[..Span(r)];
      for i := 0 to r.width * r.count
        invariant ram[..] == StoreBytes(before, found, r, i)
      {
        assert places[i] == found[i] && found[i] in found;
        ram[places[i].index] := StoreByte(r, i);
      }
    }

    method Gather(r: Request, places: array<Place>) returns (value0: u64, value1: u64)
      requires Walkable(r) && places.Length == 16
      requires PlacesOwned(places[..Span(r)], ram.Length, |backing.tables|, false)
      ensures var s := LoadBytes(ram[..], backing.tables, places[..Span(r)]);
              value0 == Element(s, r.width, 0) && value1 == Element(s, r.width, 1)
    {
      var bytes := r.width * r.count;
      ghost var s := LoadBytes(ram[..], backing.tables, places[..bytes]);
      var low: nat, high: nat := 0, 0;
      for i := 0 to bytes
        invariant low == GatheredLow(s, r.width, i) && high == GatheredHigh(s, r.width, i)
      {
        assert places[i] in places[..bytes];
        var byte := if places[i].table then backing.tables[places[i].index] else ram[places[i].index];
        GatherStep(s, r.width, i);
        if i / r.width == 0 {
          low := low + byte * Pow256(i % r.width);
        } else {
          high := high + byte * Pow256(i % r.width);
        }
      }
      ElementBound(s, r.width, 0);
      ElementBound(s, r.width, 1);
      GatheredAll(s, r.width);
      value0, value1 := low, high;
    }
  }

  function GatheredLow(s: seq<u8>, w: nat, i: nat): (n: nat)
    requires i <= |s|
  {
    Assemble(s[..if i < w then i else w])
  }

  function GatheredHigh(s: seq<u8>, w: nat, i: nat): (n: nat)
    requires i <= |s|
  {
    if i <= w then 0 else Assemble(s[w..i])
  }

  lemma GatherStep(s: seq<u8>, w: nat, i: nat)
    requires i < |s| && |s| <= 2 * w
    ensures w > 0 && i / w == (if i < w then 0 else 1) && i % w == (if i < w then i else i - w)
    ensures GatheredLow(s, w, i + 1) == GatheredLow(s, w, i) + (if i < w then s[i] * Pow256(i) else 0)
    ensures GatheredHigh(s, w, i + 1) == GatheredHigh(s, w, i) + (if i < w then 0 else s[i] * Pow256(i - w))
  {
    SmallQuotient(i, w);
    if i < w {
      AssembleAppend(s[..i], s[i]);
      assert s[..i + 1] == s[..i] + [s[i]];
    } else {
      AssembleAppend(s[w..i], s[i]);
      assert s[w..i + 1] == s[w..i] + [s[i]];
    }
  }

  lemma GatheredAll(s: seq<u8>, w: nat)
    requires |s| == w || |s| == 2 * w
    requires w == 1 || w == 2 || w == 4 || w == 8
    ensures GatheredLow(s, w, |s|) == Element(s, w, 0) && GatheredHigh(s, w, |s|) == Element(s, w, 1)
  {
    assert s[0 * w..1 * w] == s[..w];
    if |s| == 2 * w { assert s[1 * w..2 * w] == s[w..]; }
  }

  lemma SpanInside(bk: Backing, ramLength: nat, r: Request, place: Place)
    requires exists pa: nat :: SpanPlace(bk, ramLength, pa, Span(r)) == Some(place)
    ensures place.index + Span(r) <= if place.table then |bk.tables| else ramLength
  {
  }

  lemma {:induction false} StopIsFinal(walk: Walker, bk: Backing, ramLength: nat, epoch: u64, r: Request, m: nat, n: nat)
    requires Walkable(r) && m <= n <= Span(r)
    requires PlaceBytes(walk, bk, ramLength, epoch, r, m).Stop?
    ensures PlaceBytes(walk, bk, ramLength, epoch, r, n) == PlaceBytes(walk, bk, ramLength, epoch, r, m)
  {
    if m < n {
      StopIsFinal(walk, bk, ramLength, epoch, r, m, n - 1);
    }
  }

  /* ---------- Stores are all or nothing, and loads read them back ---------- */

  lemma {:induction false} PlacesByIndex(walk: Walker, bk: Backing, ramLength: nat, epoch: u64, r: Request, n: nat, i: nat)
    requires Walkable(r) && i < n <= Span(r)
    requires PlaceBytes(walk, bk, ramLength, epoch, r, n).Ready?
    ensures PlaceByte(walk, bk, ramLength, epoch, r, i)
            == Ready([PlaceBytes(walk, bk, ramLength, epoch, r, n).places[i]])
  {
    hide PlaceByte;
    var before := PlaceBytes(walk, bk, ramLength, epoch, r, n - 1);
    assert before.Ready?;
    PlaceNext(walk, bk, ramLength, epoch, r, before.places, n - 1);
    if i < n - 1 {
      PlacesByIndex(walk, bk, ramLength, epoch, r, n - 1, i);
    }
  }

  predicate DistinctPlaces(places: seq<Place>)
  {
    forall i, j :: 0 <= i < j < |places| ==> places[i].index != places[j].index
  }

  lemma NearOffsetsDiffer(a: nat, b: nat, page: nat, pa: nat, pb: nat)
    requires page == 0x1000 || page == 0x4000
    requires a < b < a + 16 && pa % page == a % page && pb % page == b % page
    ensures pa != pb
  {
    if page == 0x1000 { assert a % 0x1000 != b % 0x1000; } else { assert a % 0x4000 != b % 0x4000; }
  }

  /** Bytes of one store never collide, even when both of its pages map to one frame. */
  lemma StorePlacesDistinct(walk: Walker, page: nat, bk: Backing, ramLength: nat, epoch: u64, r: Request)
    requires Walkable(r) && r.operation == STORE && PageContract(walk, page)
    requires PlaceBytes(walk, bk, ramLength, epoch, r, Span(r)).Ready?
    ensures DistinctPlaces(PlaceBytes(walk, bk, ramLength, epoch, r, Span(r)).places)
  {
    hide PageContract, PlaceBytes;
    var places := PlaceBytes(walk, bk, ramLength, epoch, r, Span(r)).places;
    forall i, j | 0 <= i < j < |places| ensures places[i].index != places[j].index {
      PlacesByIndex(walk, bk, ramLength, epoch, r, Span(r), i);
      PlacesByIndex(walk, bk, ramLength, epoch, r, Span(r), j);
      OffsetKept(walk, page, r.address + i, Write, r.currentEl);
      OffsetKept(walk, page, r.address + j, Write, r.currentEl);
      NearOffsetsDiffer(r.address + i, r.address + j, page,
                        walk(r.address + i, Write, r.currentEl).pa, walk(r.address + j, Write, r.currentEl).pa);
    }
  }

  lemma OffsetKept(walk: Walker, page: nat, va: u64, access: Access, el: u32)
    requires PageContract(walk, page) && walk(va, access, el).Mapped?
    ensures page == 0x1000 || page == 0x4000
    ensures walk(va, access, el).pa % page == va % page
  {
  }

  lemma {:induction false} StoredBytes(ram: seq<u8>, places: seq<Place>, r: Request, n: nat)
    requires n <= |places| && r.width > 0 && PlacesOwned(places, |ram|, 0, true) && DistinctPlaces(places)
    ensures var after := StoreBytes(ram, places, r, n);
            && (forall i :: 0 <= i < n ==> places[i].index < |ram| && after[places[i].index] == StoreByte(r, i))
            && (forall k :: 0 <= k < |ram| && (forall i :: 0 <= i < n ==> places[i].index != k) ==> after[k] == ram[k])
  {
    if n > 0 {
      StoredBytes(ram, places, r, n - 1);
      assert places[n - 1] in places;
    }
  }

  ghost predicate WritesExactly(ram: seq<u8>, after: seq<u8>, places: seq<Place>, r: Request)
    requires r.width > 0
  {
    && |after| == |ram| && |places| == Span(r) && DistinctPlaces(places)
    && (forall i :: 0 <= i < |places| ==> places[i].index < |ram| && after[places[i].index] == StoreByte(r, i))
    && (forall k :: 0 <= k < |ram| && (forall i :: 0 <= i < |places| ==> places[i].index != k) ==> after[k] == ram[k])
  }

  /** A store that succeeds writes each of its bytes once and nothing else; any other leaves RAM alone. */
  lemma StoreAllOrNothing(walk: Walker, page: nat, bk: Backing, ram: seq<u8>, controls: Controls, r: Request)
    requires PageContract(walk, page)
    ensures var (reply, after) := Serve(walk, bk, ram, controls, r);
            if reply.result == OK && r.operation == STORE
            then r.width > 0 && exists places :: WritesExactly(ram, after, places, r)
            else after == ram
  {
    hide PageContract, PlaceByte, PlaceBytes, StoreBytes, LoadBytes, Element;
    if RequestValid(r, controls) && r.address + Span(r) - 1 < U64 {
      WalkOutcome(walk, bk, ram, controls.epoch, r);
      var p := PlaceBytes(walk, bk, |ram|, controls.epoch, r, Span(r));
      if p.Stop? {
        StopIsNotOk(walk, bk, |ram|, controls.epoch, r, Span(r));
      } else if r.operation == STORE {
        StorePlacesDistinct(walk, page, bk, |ram|, controls.epoch, r);
        StoredBytes(ram, p.places, r, Span(r));
        assert WritesExactly(ram, StoreBytes(ram, p.places, r, Span(r)), p.places, r);
      }
    }
  }

  lemma {:induction false} StopIsNotOk(walk: Walker, bk: Backing, ramLength: nat, epoch: u64, r: Request, n: nat)
    requires Walkable(r) && n <= Span(r)
    ensures var p := PlaceBytes(walk, bk, ramLength, epoch, r, n);
            p.Stop? ==> p.reply.result != OK
  {
    if n > 0 {
      StopIsNotOk(walk, bk, ramLength, epoch, r, n - 1);
    }
  }

  /** The load of the same shape as a store. */
  function LoadOf(r: Request): (request: Request)
  {
    r.(operation := LOAD, value0 := 0, value1 := 0)
  }

  lemma ReadsWhereWritten(walk: Walker, page: nat, bk: Backing, ramLength: nat, epoch: u64, r: Request, i: nat)
    requires Walkable(r) && r.operation == STORE && PageContract(walk, page) && i < Span(r)
    requires PlaceByte(walk, bk, ramLength, epoch, r, i).Ready?
    ensures PlaceByte(walk, bk, ramLength, epoch, LoadOf(r), i) == PlaceByte(walk, bk, ramLength, epoch, r, i)
  {
    var va: u64 := r.address + i;
    assert walk(va, Write, r.currentEl).Mapped?;
  }

  lemma {:induction false} ReadsAllWhereWritten(walk: Walker, page: nat, bk: Backing, ramLength: nat, epoch: u64, r: Request, n: nat)
    requires Walkable(r) && r.operation == STORE && PageContract(walk, page) && n <= Span(r)
    requires PlaceBytes(walk, bk, ramLength, epoch, r, n).Ready?
    ensures PlaceBytes(walk, bk, ramLength, epoch, LoadOf(r), n) == PlaceBytes(walk, bk, ramLength, epoch, r, n)
  {
    hide PlaceByte, PageContract;
    if n > 0 {
      var before := PlaceBytes(walk, bk, ramLength, epoch, r, n - 1);
      assert before.Ready?;
      PlaceNext(walk, bk, ramLength, epoch, r, before.places, n - 1);
      ReadsAllWhereWritten(walk, page, bk, ramLength, epoch, r, n - 1);
      ReadsWhereWritten(walk, page, bk, ramLength, epoch, r, n - 1);
    }
  }

  lemma StoredElement(r: Request, s: seq<u8>)
    requires Walkable(r) && |s| == Span(r) && forall i :: 0 <= i < |s| ==> s[i] == StoreByte(r, i)
    requires FitsWidth(r.value0, r.width) && FitsWidth(r.value1, r.width) && (r.count == 1 ==> r.value1 == 0)
    ensures Element(s, r.width, 0) == r.value0 && Element(s, r.width, 1) == r.value1
  {
    var w := r.width;
    forall i | 0 <= i < |s| ensures s[i] == ByteAt(if i < w then r.value0 else r.value1, if i < w then i else i - w) {
      SmallQuotient(i, w);
    }
    assert s[0 * w..1 * w] == Encode(r.value0, w);
    AssembleEncode(r.value0, w);
    if r.count == 2 {
      assert s[1 * w..2 * w] == Encode(r.value1, w);
      AssembleEncode(r.value1, w);
    }
  }

  /** After a successful store, the load of the same shape returns exactly the stored values. */
  lemma LoadReadsStore(walk: Walker, page: nat, bk: Backing, ram: seq<u8>, controls: Controls, r: Request)
    requires PageContract(walk, page) && r.operation == STORE
    requires Serve(walk, bk, ram, controls, r).0.result == OK
    ensures var after := Serve(walk, bk, ram, controls, r).1;
            Serve(walk, bk, after, controls, LoadOf(r))
            == (Empty(OK, controls.epoch).(value0 := r.value0, value1 := r.value1), after)
  {
    hide PageContract, PlaceByte, PlaceBytes, StoreBytes, Element;
    var epoch, n := controls.epoch, Span(r);
    WalkOutcome(walk, bk, ram, epoch, r);
    StopIsNotOk(walk, bk, |ram|, epoch, r, n);
    var places := PlaceBytes(walk, bk, |ram|, epoch, r, n).places;
    var after := StoreBytes(ram, places, r, n);
    StorePlacesDistinct(walk, page, bk, |ram|, epoch, r);
    StoredBytes(ram, places, r, n);
    ReadsAllWhereWritten(walk, page, bk, |ram|, epoch, r, n);
    WalkOutcome(walk, bk, after, epoch, LoadOf(r));
    var s := LoadBytes(after, bk.tables, places);
    forall i | 0 <= i < n ensures s[i] == StoreByte(r, i) {
      assert places[i] in places;
    }
    StoredElement(r, s);
    ValidLoad(r, controls);
  }

  lemma ValidLoad(r: Request, controls: Controls)
    requires RequestValid(r, controls)
    ensures RequestValid(LoadOf(r), controls)
  {
  }

  /** A walker that maps the low 48 bits to themselves and faults above them. */
  function Identity(va: u64, access: Access, el: u32): (translated: Translated)
  {
    if va < 0x1_0000_0000_0000 then Mapped(va, Some(NORMAL_NC))
    else Faulted(Failure(Architectural(Translation), Some(0), Input, None, None))
  }

  /** The contract has a walker: it asks for nothing contradictory. */
  lemma ContractIsMet(page: nat)
    requires page == 0x1000 || page == 0x4000
    ensures PageContract(Identity, page)
  {
    forall va: u64, wa: u64, access, el | Identity(va, access, el).Mapped? && SamePage(page, va, wa)
      ensures Identity(wa, access, el).Mapped? && Identity(wa, access, el).pa - Identity(va, access, el).pa == wa - va
    {
      assert va < 0x1_0000_0000_0000;
    }
  }
}
