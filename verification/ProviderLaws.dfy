/**
 * What the memory service and the checks on its replies come to, said of the fields of requests and replies and of the
 * bytes at physical addresses: which replies move the guest, and what every other reply is reported as.
 */
module ProviderLaws {
  import opened Basics
  import opened LittleEndian
  import opened Words
  import opened A64
  import opened PhysicalMemory
  import opened ProviderMemory
  import PowersOfTwo
  import Stage1
  import TranslationLaws

  // ---------- Replies ----------

  /** A data reply in the current version with nothing in its reserved fields. */
  predicate Current(r: WireReply)
  {
    r.abiVersion == 1 && r.structSize == 80 && r.epoch == 0 && r.reserved == (0, 0, 0)
  }

  /** A number of the given width in bytes. */
  predicate Fits(value: nat, width: nat)
  {
    match width
    case 1 => value < 0x100
    case 2 => value < 0x1_0000
    case 4 => value < 0x1_0000_0000
    case _ => value < 0x1_0000_0000_0000_0000
  }

  /** The reply that moves the guest: current, successful, without a fault record, and with no more data than was asked for. */
  predicate MovesGuest(q: PhysicalRequest, r: WireReply)
  {
    && Current(r) && r.body.result == 0 && r.body.fault == 0 && r.body.address == 0 && r.body.esr == 0
    && Fits(r.body.value0, q.width) && Fits(r.body.value1, q.width)
    && (q.count == 1 ==> r.body.value1 == 0) && (q.operation == 3 ==> r.body.value0 == 0 && r.body.value1 == 0)
  }

  /** The reply of a misaligned data access: the fault, its own address, and the syndrome of a data abort with status 0x21. */
  predicate ReportsMisaligned(q: PhysicalRequest, r: WireReply)
    requires q.width > 0
  {
    && Current(r) && r.body.result == 1 && r.body.fault == 2 && r.body.value0 == 0 && r.body.value1 == 0
    && r.body.address == q.address && q.address % q.width != 0
    && r.body.esr == 0x9200_0021 + q.currentEl * 0x400_0000 + (if q.operation == 3 then 0x40 else 0)
  }

  /** The reply of an access that is not supported, at the address of one of the elements. */
  predicate ReportsUnsupported(q: PhysicalRequest, r: WireReply)
  {
    && Current(r) && r.body.result == 2 && r.body.fault == 0 && r.body.value0 == 0 && r.body.value1 == 0 && r.body.esr == 0
    && (r.body.address == q.address || (q.count == 2 && r.body.address == (q.address + q.width) % 0x1_0000_0000_0000_0000))
  }

  /** The reply of a service that found the request malformed. */
  predicate ReportsMalformed(q: PhysicalRequest, r: WireReply)
  {
    && Current(r) && r.body.result == 3 && r.body.fault == 0 && r.body.value0 == 0 && r.body.value1 == 0
    && r.body.address == 0 && r.body.esr == 0
  }

  lemma FitsMeans(value: nat, width: nat)
    requires width == 1 || width == 2 || width == 4 || width == 8
    ensures Fits(value, width) <==> value < Pow256(width)
  {
    assert Pow256(1) == 0x100 && Pow256(2) == 0x1_0000 && Pow256(3) == 0x100_0000 && Pow256(4) == 0x1_0000_0000;
    assert Pow256(5) == 256 * Pow256(4) && Pow256(6) == 256 * Pow256(5) && Pow256(7) == 256 * Pow256(6);
  }

  /** Every reply to a load or store is one of four kinds, or it is reported as an invalid reply (3) at the address asked for. */
  lemma RepliesJudged(q: PhysicalRequest, r: WireReply)
    requires q.width == 1 || q.width == 2 || q.width == 4 || q.width == 8
    requires q.operation != 1
    ensures Judge(q, r) == if MovesGuest(q, r) then Accept
                           else if ReportsMisaligned(q, r) then GuestFault(q.address, r.body.esr)
                           else if ReportsUnsupported(q, r) then Failure(1, r.body.address)
                           else if ReportsMalformed(q, r) then Failure(2, q.address)
                           else Failure(3, q.address)
  {
    hide Fits, Pow256;
    FitsMeans(r.body.value0, q.width);
    FitsMeans(r.body.value1, q.width);
  }

  /** The guest moves on exactly when the reply is clean; any other reply leaves its registers, its counter and its progress alone. */
  lemma OnlyCleanReplyMoves(v: View, d: Shape, q: PhysicalRequest, r: WireReply, ram: Ram)
    requires ShapeOk(d) && q.width == d.width && q.operation != 1
    ensures var (after, verdict) := Answered(v, d, q, r, ram);
      && (verdict.Stepped? <==> MovesGuest(q, r))
      && (verdict.Stepped? ==>
            && Val(after.pc) == (Val(v.pc) + 4) % 0x1_0000_0000_0000_0000
            && after.retired == v.retired + 1 && after.completed == v.completed + 1)
      && (!verdict.Stepped? ==>
            && after.state == v.state.(ram := ram, far := after.state.far) && after.pc == v.pc
            && after.retired == v.retired && after.completed == v.completed)
      && after.requests == v.requests + 1
  {
    hide Judge, MovesGuest, ReportsMisaligned, ReportsUnsupported, ReportsMalformed, AfterReply, Updated, Val, FromNat, PowersOfTwo.Pow2;
    RepliesJudged(q, r);
    var next := (Val(v.pc) + 4) % PowersOfTwo.Pow2(64);
    BigPower();
    ValFromNat(next, 64);
    ModUnique(next, PowersOfTwo.Pow2(64), 0, next);
  }

  // ---------- The physical service ----------

  /** A request answered OK was well formed, at EL0 or EL1 with the MMU off and little-endian data, aligned, and inside RAM. */
  lemma ServedIsSound(base: u64, ram: seq<u8>, q: PhysicalRequest, out: PhysicalReply, after: seq<u8>)
    requires Served(base, ram, q, out, after) && out.result == 0
    ensures q.abiVersion == 1 && q.structSize == 80 && q.flags == 0 && q.reserved == 0 && q.epoch == 0
    ensures 1 <= q.operation <= 3 && q.width in {1, 2, 4, 8} && q.count in {1, 2} && (q.count == 2 ==> q.width >= 4)
    ensures q.operation == 1 ==> q.width == 4 && q.count == 1 && q.address == q.pc
    ensures q.currentEl <= 1 && q.sctlr & 1 == 0 && q.sctlr & (if q.currentEl == 0 then 0x100_0000 else 0x200_0000) == 0
    ensures q.address % q.width == 0 && base <= q.address && q.address + q.width * q.count <= base + |ram|
  {
    EndianBits(q.sctlr);
  }

  lemma EndianBits(sctlr: bv64)
    ensures sctlr & (1 << 24) == sctlr & 0x100_0000 && sctlr & (1 << 25) == sctlr & 0x200_0000
  {
  }

  lemma AssembledByte(s: seq<u8>, k: nat)
    requires k < |s|
    ensures Assemble(s) / Pow256(k) % 256 == s[k]
  {
    EncodeAssemble(s);
    TranslationLaws.EncodedAt(Assemble(s), |s|, k);
    TranslationLaws.ByteDigit(Assemble(s), k);
  }

  lemma EncodedByte(v: nat, n: nat, k: nat)
    requires k < n
    ensures Encode(v, n)[k] == v / Pow256(k) % 256
  {
    TranslationLaws.ByteDigit(v, k);
  }

  /** What a fetch or load brings is the bytes of RAM at its address, the lowest address least significant. */
  lemma ServedBytes(base: u64, ram: seq<u8>, q: PhysicalRequest, out: PhysicalReply, after: seq<u8>, i: nat)
    requires Served(base, ram, q, out, after) && out.result == 0 && q.operation != 3 && i < q.width * q.count
    ensures q.width > 0 && base <= q.address && q.address + i - base < |ram| && after == ram
    ensures ram[q.address + i - base] == TranslationLaws.ValueByte(q.width, out.value0, out.value1, i)
  {
    hide Assemble, Pow256;
    var at := q.address - base;
    Stage1.SmallQuotient(i, q.width);
    if i < q.width {
      AssembledByte(ram[at..at + q.width], i);
    } else {
      AssembledByte(ram[at + q.width..at + 2 * q.width], i - q.width);
    }
  }

  /** A store puts its bytes at its address and changes no other byte. */
  lemma StoredBytes(base: u64, ram: seq<u8>, q: PhysicalRequest, out: PhysicalReply, after: seq<u8>, k: nat)
    requires Served(base, ram, q, out, after) && out.result == 0 && q.operation == 3 && k < |ram|
    ensures q.width > 0 && base <= q.address && |after| == |ram|
    ensures after[k] == if q.address - base <= k < q.address - base + q.width * q.count
                        then TranslationLaws.ValueByte(q.width, q.value0, q.value1, k - (q.address - base)) else ram[k]
  {
    hide Encode, Pow256;
    var at, n := q.address - base, q.width * q.count;
    if k < at {
      assert after[k] == after[..at][k];
    } else if k >= at + n {
      assert after[k] == after[at + n..][k - (at + n)];
    } else {
      Stage1.SmallQuotient(k - at, q.width);
      if k < at + q.width {
        EncodedByte(q.value0, q.width, k - at);
        assert after[k] == after[at..at + q.width][k - at];
      } else {
        EncodedByte(q.value1, q.width, k - at - q.width);
        assert after[k] == after[at + q.width..at + 2 * q.width][k - at - q.width];
      }
    }
  }

  /** A misaligned request is told its fault: kind, address and syndrome; a fetch has a syndrome of its own. */
  lemma ServedMisaligned(base: u64, ram: seq<u8>, q: PhysicalRequest, out: PhysicalReply, after: seq<u8>)
    requires Served(base, ram, q, out, after) && out.result == 1
    ensures after == ram && q.width > 0 && q.address % q.width != 0 && out.address == q.address && out.value0 == 0 && out.value1 == 0
    ensures q.operation == 1 ==> out.fault == 1 && out.esr == 0x8a00_0000
    ensures q.operation != 1 ==>
      out.fault == 2 && out.esr == 0x9200_0021 + q.currentEl * 0x400_0000 + (if q.operation == 3 then 0x40 else 0)
  {
    hide Encode, Assemble, Pow256;
  }

  /** A request that is not answered leaves RAM alone and brings no data. */
  lemma RefusedChangesNothing(base: u64, ram: seq<u8>, q: PhysicalRequest, out: PhysicalReply, after: seq<u8>)
    requires Served(base, ram, q, out, after) && out.result != 0
    ensures after == ram && out.value0 == 0 && out.value1 == 0 && out.result <= 3
  {
    hide Encode, Assemble, Pow256;
  }
}
