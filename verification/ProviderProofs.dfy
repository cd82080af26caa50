/** Why the provider's answer to a load or store is the architecture's. */
module ProviderProofs {
  import opened Basics
  import opened PowersOfTwo
  import opened Words
  import opened LittleEndian
  import opened A64
  import opened PhysicalMemory
  import opened PairEmission
  import opened ScalarEmission
  import opened ProviderMemory
  import BlockProofs
  import ScalarProofs
  import Abi = MemoryAbi

  // ---------- Bits and bytes ----------

  lemma ByteValue(b: u8)
    ensures Val(FromNat(b, 8)) == b
  {
    BigPower();
    ValFromNat(b, 8);
    ModUnique(b, 256, 0, b);
  }

  /** A word read from memory has the value of its bytes. */
  lemma {:induction false} ReadMemValue(ram: Ram, offset: nat, n: nat)
    requires offset + n <= |ram|
    ensures Val(ReadMem(ram, offset, n)) == Assemble(ram[offset..offset + n])
    decreases n
  {
    hide FromNat, Pow2;
    if n == 0 {
      assert ReadMem(ram, offset, n) == [];
    } else {
      var first, rest := FromNat(ram[offset], 8), ReadMem(ram, offset + 1, n - 1);
      var whole := ReadMem(ram, offset, n);
      forall i | 0 <= i < 8 * n ensures whole[i] == (first + rest)[i] {
        if i >= 8 {
          assert (i - 8) / 8 == i / 8 - 1 && (i - 8) % 8 == i % 8;
        }
      }
      assert whole == first + rest;
      ReadMemValue(ram, offset + 1, n - 1);
      ValAppend(first, rest);
      ByteValue(ram[offset]);
      BigPower();
      var s := ram[offset..offset + n];
      assert s[0] == ram[offset] && s[1..] == ram[offset + 1..offset + n];
    }
  }

  /** A reply's number, as a word, is the word in memory, zero-extended. */
  lemma ReadWord(ram: Ram, offset: nat, n: nat)
    requires offset + n <= |ram| && n <= 8
    ensures FromNat(Assemble(ram[offset..offset + n]), 64) == Extend(ReadMem(ram, offset, n), 64)
  {
    hide FromNat, Val, Extend, ReadMem, Assemble;
    ReadMemValue(ram, offset, n);
    var z := Extend(ReadMem(ram, offset, n), 64);
    ValExtend(ReadMem(ram, offset, n), 64);
    FromNatVal(z);
  }

  /** The bytes of a word are those of its value. */
  lemma {:induction false} ByteOfValue(v: Bits, j: nat)
    requires 8 * j + 8 <= |v|
    ensures ByteOf(v, j) == ByteAt(Val(v), j)
    decreases j
  {
    var low, high := v[..8], v[8..];
    assert v == low + high;
    ValAppend(low, high);
    ValBound(low);
    BigPower();
    assert Val(v) == Val(low) + 256 * Val(high);
    assert Val(v) % 256 == Val(low) && Val(v) / 256 == Val(high);
    if j == 0 {
      assert v[8 * j..8 * j + 8] == low;
    } else {
      assert v[8 * j..8 * j + 8] == high[8 * (j - 1)..8 * (j - 1) + 8];
      ByteOfValue(high, j - 1);
    }
  }

  /** Storing a word is storing its value's bytes. */
  lemma WriteIsStore(ram: Ram, offset: nat, v: Bits, n: nat)
    requires |v| == 8 * n && offset + n <= |ram| && Val(v) < U64
    ensures WriteMem(ram, offset, v) == Stored(ram, offset, Val(v), n)
  {
    hide ByteOf, ByteAt, Val;
    var bytes := seq(n, j requires 0 <= j < n => ByteOf(v, j));
    forall j | 0 <= j < n ensures bytes[j] == Encode(Val(v), n)[j] {
      ByteOfValue(v, j);
    }
    assert bytes == Encode(Val(v), n);
    assert WriteMem(ram, offset, v) == ram[..offset] + bytes + ram[offset + n..];
  }

  lemma Pow256Is(n: nat)
    ensures Pow256(n) == Pow2(8 * n)
  {
    if n > 0 {
      Pow256Is(n - 1);
      Pow2Add(8, 8 * (n - 1));
      BigPower();
    }
  }

  /** Masking keeps exactly the low bytes. */
  lemma MaskedIsLow(v: Word, width: nat)
    requires width == 1 || width == 2 || width == 4 || width == 8
    ensures Masked(v, width) == Val(Low(v, 8 * width)) < Pow256(width)
  {
    hide Val, FromNat;
    var low := Low(v, 8 * width);
    assert And(v, ByteMask(width)) == Extend(low, 64);
    ValExtend(low, 64);
    ValBound(low);
    Pow256Is(width);
  }

  // ---------- The service's replies are accepted ----------

  /** A transfer that the service performed is accepted. */
  lemma TransferJudged(base: u64, ram: seq<u8>, q: PhysicalRequest, out: PhysicalReply, after: seq<u8>)
    requires WellFormed(q) && SupportedRegime(q) && q.address % q.width == 0 && InRam(base, |ram|, q.address, q.width * q.count)
    requires Served(base, ram, q, out, after)
    ensures Judge(q, FromService(out)) == Accept
  {
    hide Pow256, Encode, Assemble, SupportedControls, DataSyndrome, Misaligned;
    var at := q.address - base;
    EncodeAssemble(ram[at..at + q.width]);
    if q.count == 2 {
      EncodeAssemble(ram[at + q.width..at + 2 * q.width]);
    }
  }

  /** A misaligned request is judged a guest fault, with the syndrome that both sides compute. */
  lemma MisalignedJudged(q: PhysicalRequest)
    requires WellFormed(q) && SupportedRegime(q) && q.address % q.width != 0
    ensures Judge(q, FromService(Misaligned(q)))
      == GuestFault(q.address, if q.operation == Abi.FETCH then 0x8a00_0000 else DataSyndrome(q.currentEl, q.operation == Abi.STORE))
  {
    hide Pow256;
  }

  lemma RefusedJudged(q: PhysicalRequest, address: u64)
    requires q.width > 0 && (address == q.address || (q.count == 2 && address == (q.address + q.width) % U64))
    ensures Judge(q, FromService(Refused(UNSUPPORTED_V1, address))) == Failure(PROVIDER_UNSUPPORTED, address)
  {
    hide Pow256;
  }

  /** The first element of a span inside memory is inside memory. */
  lemma FirstInSpan(base: u64, length: nat, q: PhysicalRequest)
    requires (q.count == 1 || q.count == 2) && InRam(base, length, q.address, q.width * q.count)
    ensures InRam(base, length, q.address, q.width)
  {
    assert q.width * q.count == if q.count == 1 then q.width else q.width + q.width;
  }

  /** No reply of the service is ever judged malformed, and the judgement says what happened. */
  lemma ServiceJudged(base: u64, ram: seq<u8>, q: PhysicalRequest, out: PhysicalReply, after: seq<u8>)
    requires base + |ram| < U64 && WellFormed(q) && Served(base, ram, q, out, after)
    ensures var j := Judge(q, FromService(out));
      if !SupportedRegime(q) then j == Failure(PROVIDER_UNSUPPORTED, q.address) && after == ram
      else if q.address % q.width != 0 then
        && after == ram
        && j == GuestFault(q.address, if q.operation == Abi.FETCH then 0x8a00_0000
                                      else DataSyndrome(q.currentEl, q.operation == Abi.STORE))
      else if !InRam(base, |ram|, q.address, q.width) then j == Failure(PROVIDER_UNSUPPORTED, q.address) && after == ram
      else if !InRam(base, |ram|, q.address, q.width * q.count) then
        j == Failure(PROVIDER_UNSUPPORTED, (q.address + q.width) % U64) && after == ram
      else j == Accept
  {
    hide Judge, Pow256, Encode, Assemble, DataSyndrome, Misaligned, Refused, FromService, SupportedControls, InRam;
    assert q.count == 1 ==> q.width * q.count == q.width;
    RefusedJudged(q, q.address);
    if q.count == 2 {
      RefusedJudged(q, (q.address + q.width) % U64);
    }
    if SupportedRegime(q) && q.address % q.width != 0 {
      MisalignedJudged(q);
    } else if SupportedRegime(q) && InRam(base, |ram|, q.address, q.width * q.count) {
      FirstInSpan(base, |ram|, q);
      TransferJudged(base, ram, q, out, after);
    }
  }

  // ---------- Decoding ----------

  /** What is decoded is exactly what this profile defines. */
  lemma DecodeAgrees(r: State, cfg: Config, w: bv32)
    ensures DecodeMemory(w).None? ==> TransferProfile(r, cfg, w) == Undefined(r, w)
    ensures DecodeMemory(w).Some? ==>
      && Accesses(w) && !Undecoded(w)
      && if IsPair(w) then PairValid(w) && LoadStoreWord(r, cfg, w) == LoadStorePair(r, cfg, w)
         else ScalarAllocated(w) && !IsPrefetch(w) && LoadStoreWord(r, cfg, w) == LoadStoreScalar(r, cfg, w)
    ensures DecodeMemory(w).Some? ==> DecodeMemory(w).value.read == !Stores(w)
  {
    hide LoadStorePair, LoadStoreScalar, Matches, Field, Signed, Reg;
    ScalarProofs.ScalarValidity(w);
    if IsPair(w) && PairValid(w) {
      UndecodedPairs(w);
    }
  }

  // ---------- Addresses ----------

  lemma PairAddresses(r: State, w: bv32)
    requires IsPair(w) && PairValid(w)
    ensures var d := DecodeMemory(w).value;
      Updated(r, d) == PairUpdated(r, w) && ElementAddress(r, d) == PairAddress(r, w)
  {
    hide FromNat, Val, FromInt, Field, Matches, Reg, Signed;
    ScalarProofs.SumReduced(Val(PairBase(r, w)), PairDisplacement(w));
  }

  /** The widened, shifted index is the architecture's extended register. */
  lemma IndexAgrees(x: Word, option: nat, shift: nat)
    requires option < 8 && option / 2 % 2 == 1 && shift < 4
    ensures var narrow := Extend(Low(x, 32), 64);
      Shift(LSL, if option % 2 == 1 then x else if option == 6 && narrow[31] then Or(narrow, HighHalf()) else narrow, shift)
      == ExtendReg(x, option, shift)
  {
    assert option == 2 || option == 3 || option == 6 || option == 7;
    var narrow := Extend(Low(x, 32), 64);
    var value := if option % 2 == 1 then x else if option == 6 && narrow[31] then Or(narrow, HighHalf()) else narrow;
    var z, e := Shift(LSL, value, shift), ExtendReg(x, option, shift);
    forall i | 0 <= i < 64 ensures z[i] == e[i] {
    }
    assert z == e;
  }

  lemma ScalarOffsets(r: State, w: bv32)
    requires IsMemory(w) && !IsPair(w) && DecodeMemory(w).Some?
    ensures var d := DecodeMemory(w).value;
      if d.indexed then MemoryOffset(r, d) == ScalarOffset(r, w)
      else ScalarOffset(r, w) == FromInt(d.displacement, 64)
  {
    hide FromInt, Field, Reg, Signed, ExtendReg, Matches;
    ScalarProofs.FormsApart(w);
    if IsRegisterOffset(w) {
      IndexAgrees(X(r, Reg(w, 16), true), ExtendOption(w), IndexShift(w));
    }
  }

  lemma ScalarAddresses(r: State, w: bv32)
    requires IsMemory(w) && !IsPair(w) && DecodeMemory(w).Some?
    ensures var d := DecodeMemory(w).value;
      Updated(r, d) == ScalarUpdated(r, w) && ElementAddress(r, d) == ScalarAddress(r, w)
  {
    hide FromNat, Val, FromInt, Field, Matches, Reg, Signed, MemoryOffset, ScalarOffset, IsMemory, IsPair, XSP;
    ScalarOffsets(r, w);
    if !IsRegisterOffset(w) {
      OffsetWithoutIndex(r, w);
    }
  }

  lemma OffsetWithoutIndex(r: State, w: bv32)
    requires DecodeMemory(w).Some? && !DecodeMemory(w).value.indexed
    ensures MemoryOffset(r, DecodeMemory(w).value) == FromInt(DecodeMemory(w).value.displacement, 64)
  {
    hide FromInt, DecodeMemory;
  }

  // ---------- Transfers ----------

  /** The number a store asks for is the stored word. */
  lemma StoredNumber(r: State, n: nat, width: nat)
    requires n < 32 && (width == 1 || width == 2 || width == 4 || width == 8)
    ensures Masked(X(r, n, true), width) == Val(Low(X(r, n, true), 8 * width))
    ensures width == 4 ==> Low(X(r, n, true), 32) == X(r, n, false)
    ensures width == 8 ==> Low(X(r, n, true), 64) == X(r, n, true)
  {
    hide Val;
    MaskedIsLow(X(r, n, true), width);
    assert width == 4 ==> Low(X(r, n, true), 32) == X(r, n, false);
    assert width == 8 ==> Low(X(r, n, true), 64) == X(r, n, true);
  }

  /** Extending a short word and keeping its low half, or all of it, is extending it. */
  lemma LowOfExtended(v: Bits, wide: bool)
    requires |v| <= Width(wide)
    ensures Extend(Low(Extend(v, 64), Width(wide)), 64) == Extend(v, 64)
  {
    var z := Extend(Low(Extend(v, 64), Width(wide)), 64);
    assert z == Extend(v, 64);
  }

  /** Register writes of a loaded element. */
  lemma SavedElement(r: State, n: nat, ram: Ram, offset: nat, width: nat, wide: bool)
    requires n < 32 && offset + width <= |ram| && 0 < 8 * width <= Width(wide)
    ensures Saved(r, n, FromNat(Assemble(ram[offset..offset + width]), 64), wide) == SetX(r, n, ReadMem(ram, offset, width))
  {
    hide FromNat, Assemble, ReadMem, Extend, Low;
    ReadWord(ram, offset, width);
    LowOfExtended(ReadMem(ram, offset, width), wide);
  }

  /** Shifting left in 32 bits and right in 64 is sign extension. */
  lemma SignAgrees(v: Bits, width: nat, wide: bool)
    requires |v| == 8 * width && 0 < width <= 4 && 8 * width <= Width(wide)
    ensures Extend(Low(SignExtended(Extend(v, 64), width), Width(wide)), 64)
      == Extend(v + seq(Width(wide) - |v|, i => Msb(v)), 64)
  {
    var k := 32 - 8 * width;
    var up := Shift(LSL, Low(Extend(v, 64), 32), k);
    var z := SignExtended(Extend(v, 64), width);
    forall i | 0 <= i < 64 ensures z[i] == if i < |v| then v[i] else Msb(v) {
    }
    assert Extend(Low(z, Width(wide)), 64) == Extend(v + seq(Width(wide) - |v|, i => Msb(v)), 64);
  }

  lemma PairLoads(r: State, w: bv32, offset: nat, updated: Word, value0: u64, value1: u64)
    requires IsPair(w) && PairValid(w) && Flag(w, 22) && offset + 2 * PairBytes(w) <= |r.ram|
    requires value0 == Assemble(r.ram[offset..offset + PairBytes(w)])
    requires value1 == Assemble(r.ram[offset + PairBytes(w)..offset + 2 * PairBytes(w)])
    ensures AfterReply(r, DecodeMemory(w).value, updated, value0, value1)
      == WriteBackPair(TransferPair(r, w, offset), w, updated)
  {
    hide FromNat, Assemble, ReadMem, Extend, Low, Field, Matches, Reg, Signed, Saved, Val, XSP;
    var n, wide := PairBytes(w), Field(w, 30, 2) == 2;
    SavedElement(r, Reg(w, 0), r.ram, offset, n, wide);
    var first := Saved(r, Reg(w, 0), FromNat(value0, 64), wide);
    SavedElement(first, Reg(w, 10), r.ram, offset + n, n, wide);
  }

  lemma PairStores(r: State, w: bv32, offset: nat, updated: Word, after: Ram)
    requires IsPair(w) && PairValid(w) && !Flag(w, 22) && offset + 2 * PairBytes(w) <= |r.ram|
    requires var n := PairBytes(w);
      after == Stored(Stored(r.ram, offset, Masked(X(r, Reg(w, 0), true), n), n), offset + n, Masked(X(r, Reg(w, 10), true), n), n)
    ensures AfterReply(r.(ram := after), DecodeMemory(w).value, updated, 0, 0)
      == WriteBackPair(TransferPair(r, w, offset), w, updated)
  {
    hide FromNat, WriteMem, Extend, Low, Field, Matches, Reg, Signed, Stored, Val, Masked, X;
    var n := PairBytes(w);
    var first, second := X(r, Reg(w, 0), n == 8), X(r, Reg(w, 10), n == 8);
    StoredNumber(r, Reg(w, 0), n);
    StoredNumber(r, Reg(w, 10), n);
    WriteIsStore(r.ram, offset, first, n);
    var middle := WriteMem(r.ram, offset, first);
    OperandIgnoresMemory(r, middle, Reg(w, 10), n == 8);
    WriteIsStore(middle, offset + n, second, n);
  }

  lemma OperandIgnoresMemory(r: State, ram: Ram, n: nat, wide: bool)
    requires n < 32
    ensures X(r.(ram := ram), n, wide) == X(r, n, wide)
  {
  }

  lemma ScalarLoads(r: State, w: bv32, offset: nat, updated: Word, value: u64)
    requires !IsPair(w) && DecodeMemory(w).Some? && ScalarAllocated(w) && !IsPrefetch(w) && Opc(w) != 0
    requires offset + AccessBytes(w) <= |r.ram| && value == Assemble(r.ram[offset..offset + AccessBytes(w)])
    ensures AfterReply(r, DecodeMemory(w).value, updated, value, 0)
      == WriteBackScalar(TransferScalar(r, w, offset), w, updated)
  {
    hide FromNat, Assemble, ReadMem, Extend, Low, Field, Matches, Reg, Signed, Saved, Val, XSP, SignExtended;
    var n, wide := AccessBytes(w), DecodeMemory(w).value.result64;
    if Opc(w) == 1 {
      SavedElement(r, Reg(w, 0), r.ram, offset, n, wide);
    } else {
      SignedElement(r, Reg(w, 0), r.ram, offset, n, wide);
    }
  }

  lemma SignedElement(r: State, n: nat, ram: Ram, offset: nat, width: nat, wide: bool)
    requires n < 32 && offset + width <= |ram| && 0 < width <= 4 && 8 * width <= Width(wide)
    ensures var v := ReadMem(ram, offset, width);
      Saved(r, n, SignExtended(FromNat(Assemble(ram[offset..offset + width]), 64), width), wide)
      == SetX(r, n, v + seq(Width(wide) - |v|, i => Msb(v)))
  {
    hide FromNat, Assemble, ReadMem, Extend, Low, SignExtended;
    ReadWord(ram, offset, width);
    SignAgrees(ReadMem(ram, offset, width), width, wide);
  }

  lemma ScalarStores(r: State, w: bv32, offset: nat, updated: Word, after: Ram)
    requires !IsPair(w) && DecodeMemory(w).Some? && ScalarAllocated(w) && !IsPrefetch(w) && Opc(w) == 0
    requires offset + AccessBytes(w) <= |r.ram|
    requires after == Stored(r.ram, offset, Masked(X(r, Reg(w, 0), true), AccessBytes(w)), AccessBytes(w))
    ensures AfterReply(r.(ram := after), DecodeMemory(w).value, updated, 0, 0)
      == WriteBackScalar(TransferScalar(r, w, offset), w, updated)
  {
    hide FromNat, WriteMem, Extend, Low, Field, Matches, Reg, Signed, Stored, Val, Masked, X;
    var n := AccessBytes(w);
    StoredNumber(r, Reg(w, 0), n);
    WriteIsStore(r.ram, offset, Low(X(r, Reg(w, 0), true), 8 * n), n);
  }

  // ---------- From the service's answer ----------

  /** The parts of RAM that a store is known to leave determine it. */
  lemma StoreAfter(ram: seq<u8>, after: seq<u8>, at: nat, value: u64, width: nat)
    requires at + width <= |ram| == |after| && after[..at] == ram[..at] && after[at + width..] == ram[at + width..]
    requires after[at..at + width] == Encode(value, width)
    ensures after == Stored(ram, at, value, width)
  {
    hide Encode;
    assert after == after[..at] + after[at..at + width] + after[at + width..];
  }

  lemma StoreBothAfter(ram: seq<u8>, after: seq<u8>, at: nat, value0: u64, value1: u64, width: nat)
    requires at + 2 * width <= |ram| == |after| && after[..at] == ram[..at] && after[at + 2 * width..] == ram[at + 2 * width..]
    requires after[at..at + width] == Encode(value0, width) && after[at + width..at + 2 * width] == Encode(value1, width)
    ensures after == Stored(Stored(ram, at, value0, width), at + width, value1, width)
  {
    hide Encode, Stored;
    StoredTwice(ram, at, value0, value1, width);
    var whole := Stored(Stored(ram, at, value0, width), at + width, value1, width);
    assert after == after[..at] + after[at..at + width] + after[at + width..at + 2 * width] + after[at + 2 * width..];
    assert whole == whole[..at] + whole[at..at + width] + whole[at + width..at + 2 * width] + whole[at + 2 * width..];
  }

  lemma AskWellFormed(v: View, el: u32, sctlr: bv64, d: Shape)
    requires ShapeOk(d)
    ensures WellFormed(Ask(v, el, sctlr, d))
  {
    hide Val, Masked, X, Updated, XSP, Val64, Pow256;
    MaskedIsLow(X(v.state, d.rt, true), d.width);
    MaskedIsLow(X(v.state, d.rt2, true), d.width);
    Pow256Positive(d.width);
  }

  lemma Pow256Positive(n: nat)
    ensures Pow256(n) > 0
  {
  }

  /** The regime that the service checks is the one the instruction's effect depends on. */
  lemma SameRegime(v: View, el: u32, sctlr: bv64, d: Shape, base: u64)
    requires ShapeOk(d)
    ensures SupportedRegime(Ask(v, el, sctlr, d)) <==> Supported(RegimeOf(el, sctlr, base))
  {
    hide Masked, Val64, ElementAddress, ChecksStack;
  }

  lemma AddressNumber(a: Word)
    ensures FromNat(Val64(a), 64) == a && Val64(a) == Val(a)
  {
    hide Val, FromNat;
    FromNatVal(a);
  }

  lemma NextAddress(a: Word, n: nat)
    ensures Val(FromInt(Val(a) + n, 64)) == (Val(a) + n) % U64
  {
    hide Val, FromNat, Pow2;
    BigPower();
    var m := Pow2(64);
    ValFromNat((Val(a) + n) % m, 64);
    ModUnique((Val(a) + n) % m, m, 0, (Val(a) + n) % m);
  }

  /** The pair's data, once the service has accepted both elements. */
  lemma PairAccepted(before: View, w: bv32, el: u32, sctlr: bv64, base: u64, out: PhysicalReply, after: Ram, updated: Word)
    requires IsPair(w) && PairValid(w) && base + |before.state.ram| < U64
    requires var q := Ask(before, el, sctlr, DecodeMemory(w).value);
      && WellFormed(q) && SupportedRegime(q) && q.address % q.width == 0
      && InRam(base, |before.state.ram|, q.address, q.width * 2) && Served(base, before.state.ram, q, out, after)
    ensures var d := DecodeMemory(w).value;
      AfterReply(before.state.(ram := after), d, updated, out.value0, out.value1)
      == WriteBackPair(TransferPair(before.state, w, Ask(before, el, sctlr, d).address - base), w, updated)
  {
    hide Judge, AfterReply, TransferPair, WriteBackPair, Val, FromNat, Assemble, Encode, Stored, Field, Matches, Reg, Signed, X, XSP, Masked, Val64;
    var r, n := before.state, PairBytes(w);
    var q := Ask(before, el, sctlr, DecodeMemory(w).value);
    var at := q.address - base;
    if Flag(w, 22) {
      PairLoads(r, w, at, updated, out.value0, out.value1);
      assert r.(ram := after) == r;
    } else {
      StoreBothAfter(r.ram, after, at, q.value0, q.value1, n);
      PairStores(r, w, at, updated, after);
    }
  }

  lemma PairAnswer(before: View, w: bv32, el: u32, sctlr: bv64, base: u64, out: PhysicalReply, after: Ram)
    requires IsPair(w) && PairValid(w) && before.state.instruction == w && base + |before.state.ram| < U64
    requires var cfg := RegimeOf(el, sctlr, base); !(Reg(w, 5) == 31 && cfg.checkSp && Val(XSP(before.state, 31, true)) % 16 != 0)
    requires Served(base, before.state.ram, Ask(before, el, sctlr, DecodeMemory(w).value), out, after)
    ensures var d := DecodeMemory(w).value;
      var q := Ask(before, el, sctlr, d);
      var (v, verdict) := Answered(before, d, q, FromService(out), after);
      var cfg := RegimeOf(el, sctlr, base);
      Meets(if Supported(cfg) then LoadStorePair(before.state, cfg, w) else Fault(before.state, SystemRegisterTrap),
            before, v, verdict, DataSyndrome(el, !Flag(w, 22)))
  {
    hide Judge, Served, AfterReply, TransferPair, WriteBackPair, BigEndianData, Val, FromNat, FromInt, Pow2, Field, Matches, Reg, Signed, XSP;
    hide Val64, Masked, Updated, ElementAddress, PairUpdated, PairAddress, SupportedRegime, WellFormed, DataSyndrome;
    var d := DecodeMemory(w).value;
    var q := Ask(before, el, sctlr, d);
    AskWellFormed(before, el, sctlr, d);
    ServiceJudged(base, before.state.ram, q, out, after);
    SameRegime(before, el, sctlr, d, base);
    PairAddresses(before.state, w);
    AddressNumber(PairAddress(before.state, w));
    NextAddress(PairAddress(before.state, w), d.width);
    if SupportedRegime(q) && q.address % q.width == 0 && InRam(base, |before.state.ram|, q.address, q.width * q.count) {
      PairAccepted(before, w, el, sctlr, base, out, after, Updated(before.state, d));
    }
    BigPower();
  }

  lemma ScalarAccepted(before: View, w: bv32, el: u32, sctlr: bv64, base: u64, out: PhysicalReply, after: Ram, updated: Word)
    requires !IsPair(w) && DecodeMemory(w).Some? && ScalarAllocated(w) && !IsPrefetch(w) && base + |before.state.ram| < U64
    requires var q := Ask(before, el, sctlr, DecodeMemory(w).value);
      && WellFormed(q) && SupportedRegime(q) && q.address % q.width == 0
      && InRam(base, |before.state.ram|, q.address, q.width) && Served(base, before.state.ram, q, out, after)
    ensures var d := DecodeMemory(w).value;
      AfterReply(before.state.(ram := after), d, updated, out.value0, out.value1)
      == WriteBackScalar(TransferScalar(before.state, w, Ask(before, el, sctlr, d).address - base), w, updated)
  {
    hide Judge, AfterReply, TransferScalar, WriteBackScalar, Val, FromNat, Assemble, Encode, Stored, Field, Matches, Reg, Signed, X, XSP;
    hide Masked, Val64, IsPrefetch, IsPair, ScalarAllocated, ElementAddress;
    var r, n := before.state, AccessBytes(w);
    var q := Ask(before, el, sctlr, DecodeMemory(w).value);
    var at := q.address - base;
    if Opc(w) == 0 {
      StoreAfter(r.ram, after, at, q.value0, n);
      ScalarStores(r, w, at, updated, after);
    } else {
      ScalarLoads(r, w, at, updated, out.value0);
      assert r.(ram := after) == r;
    }
  }

  lemma ScalarAnswer(before: View, w: bv32, el: u32, sctlr: bv64, base: u64, out: PhysicalReply, after: Ram)
    requires IsMemory(w) && !IsPair(w) && DecodeMemory(w).Some? && ScalarAllocated(w) && !IsPrefetch(w)
    requires before.state.instruction == w && base + |before.state.ram| < U64
    requires var cfg := RegimeOf(el, sctlr, base); !(Reg(w, 5) == 31 && cfg.checkSp && Val(XSP(before.state, 31, true)) % 16 != 0)
    requires Served(base, before.state.ram, Ask(before, el, sctlr, DecodeMemory(w).value), out, after)
    ensures var d := DecodeMemory(w).value;
      var q := Ask(before, el, sctlr, d);
      var (v, verdict) := Answered(before, d, q, FromService(out), after);
      var cfg := RegimeOf(el, sctlr, base);
      Meets(if Supported(cfg) then LoadStoreScalar(before.state, cfg, w) else Fault(before.state, SystemRegisterTrap),
            before, v, verdict, DataSyndrome(el, Opc(w) == 0))
  {
    hide Judge, Served, AfterReply, TransferScalar, WriteBackScalar, BigEndianData, Val, FromNat, FromInt, Pow2, Field, Matches, Reg, Signed, XSP;
    hide Val64, Masked, Updated, ElementAddress, ScalarUpdated, ScalarAddress, SupportedRegime, WellFormed, DataSyndrome;
    hide IsMemory, IsPair, IsPrefetch, ScalarAllocated;
    var d := DecodeMemory(w).value;
    var q := Ask(before, el, sctlr, d);
    AskWellFormed(before, el, sctlr, d);
    ServiceJudged(base, before.state.ram, q, out, after);
    SameRegime(before, el, sctlr, d, base);
    ScalarAddresses(before.state, w);
    AddressNumber(ScalarAddress(before.state, w));
    if SupportedRegime(q) && q.address % q.width == 0 && InRam(base, |before.state.ram|, q.address, q.width * q.count) {
      ScalarAccepted(before, w, el, sctlr, base, out, after, Updated(before.state, d));
    }
  }

  /** What the provider's service answers to a decoded load or store is the instruction's effect. */
  lemma AnswerMeets(before: View, w: bv32, el: u32, sctlr: bv64, base: u64, out: PhysicalReply, after: Ram)
    requires IsMemory(w) && DecodeMemory(w).Some? && before.state.instruction == w && base + |before.state.ram| < U64
    requires var cfg := RegimeOf(el, sctlr, base); !(Reg(w, 5) == 31 && cfg.checkSp && Val(XSP(before.state, 31, true)) % 16 != 0)
    requires Served(base, before.state.ram, Ask(before, el, sctlr, DecodeMemory(w).value), out, after)
    ensures var d := DecodeMemory(w).value;
      var (v, verdict) := Answered(before, d, Ask(before, el, sctlr, d), FromService(out), after);
      Meets(TransferProfile(before.state, RegimeOf(el, sctlr, base), w), before, v, verdict, DataSyndrome(el, Stores(w)))
  {
    hide *;
    DecodeAgrees(before.state, RegimeOf(el, sctlr, base), w);
    DecodedProfile(before.state, RegimeOf(el, sctlr, base), w);
    if IsPair(w) {
      PairAnswer(before, w, el, sctlr, base, out, after);
    } else {
      ScalarAnswer(before, w, el, sctlr, base, out, after);
    }
    StoresOf(w);
  }

  lemma DecodedProfile(r: State, cfg: Config, w: bv32)
    requires Accesses(w) && !Undecoded(w) && r.instruction == w
    ensures TransferProfile(r, cfg, w) == if Supported(cfg) then LoadStoreWord(r, cfg, w) else Fault(r, SystemRegisterTrap)
  {
    hide LoadStoreWord, Accesses, Undecoded;
    assert r == r.(instruction := w);
  }

  lemma StoresOf(w: bv32)
    ensures Stores(w) == if IsPair(w) then !Flag(w, 22) else Opc(w) == 0
  {
  }

  /** An undefined word, or a misaligned stack pointer, is reported before anything is asked. */
  lemma RefusalMeets(before: View, w: bv32, cfg: Config, syndrome: nat)
    requires before.state.instruction == w
    ensures DecodeMemory(w).None? ==>
      Meets(TransferProfile(before.state, cfg, w), before, before, Raised(UndefinedInstruction), syndrome)
    ensures DecodeMemory(w).Some? && Reg(w, 5) == 31 && cfg.checkSp && Val(before.state.sp) % 16 != 0 ==>
      Meets(TransferProfile(before.state, cfg, w), before, before.(state := before.state.(far := before.state.sp)),
            Raised(SpAlignmentFault), syndrome)
  {
    DecodeAgrees(before.state, cfg, w);
    ExtendFull(before.state.sp);
    hide DecodeMemory, Val, MovePair, MoveScalar, WriteBackPair, WriteBackScalar, ScalarAllocated, IsPrefetch, Reg, Accesses, Undecoded;
  }

  /** The architecture itself is met, where the model gives it, exactly on the words where the program does not depart. */
  lemma MeetsArchitecture(before: View, after: View, out: Verdict, w: bv32, cfg: Config, pc: nat, syndrome: nat)
    requires Supported(cfg) && IsMemory(w) && Meets(TransferProfile(before.state, cfg, w), before, after, out, syndrome)
    ensures var effect := Execute(before.state, pc, cfg, w);
      effect.Some? ==> (Meets(effect.value, before, after, out, syndrome) <==> !Undecoded(w))
  {
    hide Val, MovePair, MoveScalar, WriteBackPair, WriteBackScalar, Reg, Field, Matches, Inside, PairAddress, ScalarAddress, PairUpdated, ScalarUpdated,
      IsMemory, ExecuteImmediate, ExecuteBranch, ExecuteRegister;
  }
}
