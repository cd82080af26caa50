/** Where data are big-endian: what a reversed transfer means, and a load on which the translator departs. */
module ByteOrder {
  import opened Basics
  import opened PowersOfTwo
  import opened Words
  import opened A64
  import opened HostOps
  import opened EncodingProofs
  import opened EpilogueProofs
  import opened ScalarEmission
  import opened Translator
  import BlockProofs

  lemma ReverseTwice(ram: Ram, offset: nat, n: nat)
    requires offset + n <= |ram|
    ensures ReverseBytes(ReverseBytes(ram, offset, n), offset, n) == ram
  {
    var once := ReverseBytes(ram, offset, n);
    var twice := ReverseBytes(once, offset, n);
    forall i | 0 <= i < |ram| ensures twice[i] == ram[i] {
      if offset <= i < offset + n {
        assert twice[i] == once[offset + n - 1 - (i - offset)];
      }
    }
  }

  lemma ByteOfRead(ram: Ram, offset: nat, n: nat, j: nat)
    requires offset + n <= |ram| && j < n
    ensures ByteOf(ReadMem(ram, offset, n), j) == ram[offset + j]
  {
    hide FromNat;
    var v := ReadMem(ram, offset, n);
    var byte := FromNat(ram[offset + j], 8);
    forall i | 0 <= i < 8 ensures v[8 * j..8 * j + 8][i] == byte[i] {
      assert (8 * j + i) / 8 == j && (8 * j + i) % 8 == i;
    }
    assert v[8 * j..8 * j + 8] == byte;
    assert Pow2(8) == 256 by { FivePowers(); Pow2Add(4, 4); }
    ValFromNat(ram[offset + j], 8);
    ModUnique(ram[offset + j], 256, 0, ram[offset + j]);
  }

  lemma ExtendedByte(v: Bits, j: nat)
    requires 8 * j + 8 <= |v| <= 64
    ensures ByteOf(Extend(v, 64), j) == ByteOf(v, j)
  {
    var x := Extend(v, 64);
    var a, b := x[8 * j..8 * j + 8], v[8 * j..8 * j + 8];
    forall i | 0 <= i < 8 ensures a[i] == b[i] {
      assert a[i] == x[8 * j + i] && b[i] == v[8 * j + i];
    }
    assert a == b;
  }

  /** A big-endian load takes the most significant byte from the lowest address, and leaves memory alone. */
  lemma LoadsReversed(r: State, cfg: Config, w: bv32, offset: nat, j: nat)
    requires cfg.bigEndian && Opc(w) == 1 && Reg(w, 0) != 31 && offset + AccessBytes(w) <= |r.ram| && j < AccessBytes(w)
    ensures var after, n := MoveScalar(r, cfg, w, offset), AccessBytes(w);
      && after.ram == r.ram
      && ByteOf(after.x[Reg(w, 0)], j) == r.ram[offset + n - 1 - j]
  {
    hide Field, ReadMem, FromNat, Val, ByteOf, Extend;
    var n := AccessBytes(w);
    var reversed := ReverseBytes(r.ram, offset, n);
    ReverseTwice(r.ram, offset, n);
    ByteOfRead(reversed, offset, n, j);
    ExtendedByte(ReadMem(reversed, offset, n), j);
  }

  /** A big-endian store puts the most significant byte at the lowest address, and changes nothing else. */
  lemma StoresReversed(r: State, cfg: Config, w: bv32, offset: nat, i: nat)
    requires cfg.bigEndian && Opc(w) == 0 && offset + AccessBytes(w) <= |r.ram| && i < |r.ram|
    ensures var after, n := MoveScalar(r, cfg, w, offset), AccessBytes(w);
      && after == r.(ram := after.ram)
      && after.ram[i] == if offset <= i < offset + n then ByteOf(Low(X(r, Reg(w, 0), true), 8 * n), offset + n - 1 - i) else r.ram[i]
  {
    hide Field, ByteOf, WriteMem, ReverseBytes, X, Low;
    var n := AccessBytes(w);
    var v := Low(X(r, Reg(w, 0), true), 8 * n);
    var reversed := ReverseBytes(r.ram, offset, n);
    assert X(r.(ram := reversed), Reg(w, 0), true) == X(r, Reg(w, 0), true) by { SameOperand(r, reversed, Reg(w, 0)); }
    WrittenReversed(r.ram, offset, v, i);
  }

  lemma SameOperand(r: State, ram: Ram, n: nat)
    requires n < 32
    ensures X(r.(ram := ram), n, true) == X(r, n, true)
  {
  }

  lemma WrittenReversed(ram: Ram, offset: nat, v: Bits, i: nat)
    requires |v| % 8 == 0 && offset + |v| / 8 <= |ram| && i < |ram|
    ensures var n := |v| / 8;
      ReverseBytes(WriteMem(ReverseBytes(ram, offset, n), offset, v), offset, n)[i]
      == if offset <= i < offset + n then ByteOf(v, offset + n - 1 - i) else ram[i]
  {
    hide ByteOf;
    var n := |v| / 8;
    var written := WriteMem(ReverseBytes(ram, offset, n), offset, v);
    if offset <= i < offset + n {
      assert written[offset + (offset + n - 1 - i)] == ByteOf(v, offset + n - 1 - i);
    }
  }

  /** The fields of LDR X0, [X1]. */
  lemma LoadWord()
    ensures var w: bv32 := 0xf9400020;
      && IsMemory(w) && !IsPair(w) && !IsWriteBack(w) && !IsRegisterOffset(w) && IsUnsignedOffset(w)
      && ScalarAllocated(w) && !IsPrefetch(w) && AccessBytes(w) == 8 && Opc(w) == 1
      && Reg(w, 0) == 0 && Reg(w, 5) == 1 && Field(w, 10, 12) == 0
  {
    FivePowers();
    LargerPowers();
  }

  lemma LargerPowers()
    ensures Pow2(10) == 1024 && Pow2(12) == 4096 && Pow2(22) == 0x40_0000 && Pow2(23) == 0x80_0000 && Pow2(26) == 0x400_0000
    ensures Pow2(30) == 0x4000_0000
  {
    FivePowers();
    Pow2Add(5, 5);
    Pow2Add(6, 6);
    Pow2Add(10, 12);
    Pow2Add(22, 1);
    Pow2Add(22, 4);
    Pow2Add(26, 4);
  }

  lemma LoadWordAddress(r: State)
    ensures ScalarAddress(r, 0xf9400020) == r.x[1] && XSP(r, 1, true) == r.x[1]
  {
    hide Val, FromNat, Field, Matches, IsRegisterOffset, IsUnsignedOffset, IsWriteBack, AccessBytes;
    LoadWord();
    ExtendFull(r.x[1]);
    assert XSP(r, 1, true) == r.x[1];
    ValFromNat(0, 64);
    ModUnique(0, Pow2(64), 0, 0);
    ValBound(r.x[1]);
    ModUnique(Val(r.x[1]), Pow2(64), 0, Val(r.x[1]));
    FromNatVal(r.x[1]);
    assert ScalarOffset(r, 0xf9400020) == FromInt(0, 64);
  }

  /** What that load does where data are big-endian. */
  lemma LoadWordEffect(r: State, cfg: Config)
    requires cfg.bigEndian && Val(r.x[1]) % 8 == 0 && Inside(r, cfg, Val(r.x[1]), 8)
    ensures var effect := LoadStoreWord(r, cfg, 0xf9400020);
      && effect.Through? && effect.state.ram == r.ram
      && forall j :: 0 <= j < 8 ==> ByteOf(effect.state.x[0], j) == r.ram[Val(r.x[1]) - cfg.base + 7 - j]
  {
    hide Val, Field, Matches, IsPair, IsWriteBack, ScalarAllocated, IsPrefetch, ScalarAddress, MoveScalar, ByteOf, Opc, AccessBytes;
    LoadWord();
    LoadWordAddress(r);
    var noted := r.(instruction := 0xf9400020);
    var offset := Val(r.x[1]) - cfg.base;
    forall j | 0 <= j < 8 ensures ByteOf(MoveScalar(noted, cfg, 0xf9400020, offset).x[0], j) == r.ram[offset + 7 - j] {
      LoadsReversed(noted, cfg, 0xf9400020, offset, j);
    }
    LoadsReversed(noted, cfg, 0xf9400020, offset, 0);
  }

  /** LDR X0, [X1] where data are big-endian: the architecture loads the bytes in that order, the emitted code traps. */
  lemma ReversedLoad(pc: nat, n: nat, cfg: Config, h: Host)
    requires h.rcx.Pointer? && cfg.native && cfg.plain && !cfg.tagged && cfg.bigEndian
    ensures InSubset(0xf9400020, cfg) && BlockProofs.Departs(0xf9400020, cfg)
    ensures Returns(Translate(0xf9400020, pc, n, cfg).ops, h,
      h.cpu.(state := h.cpu.state.(instruction := 0xf9400020), pc := FromInt(pc, 64), retired := Retire(h.cpu.retired, n)),
      SystemRegisterTrap)
    ensures var r := h.cpu.state;
      var address := Val(r.x[1]);
      address % 8 == 0 && Inside(r, cfg, address, 8) ==>
        var effect := Execute(r, pc, cfg, 0xf9400020);
        && effect.Some? && effect.value.Through? && effect.value.state.ram == r.ram
        && forall j :: 0 <= j < 8 ==> ByteOf(effect.value.state.x[0], j) == r.ram[address - cfg.base + 7 - j]
  {
    hide Translate, FromInt, Returns, InSubset, BlockProofs.Departs, Field, LoadStoreWord, ExecuteImmediate, ExecuteBranch, ExecuteRegister,
      ThreadMoved, IsMemory, IsPair, ScalarAllocated, IsPrefetch, Inside, ByteOf, Val, Retire;
    LoadWord();
    BlockProofs.RegimeTraps(0xf9400020, pc, n, cfg, h);
    if Val(h.cpu.state.x[1]) % 8 == 0 && Inside(h.cpu.state, cfg, Val(h.cpu.state.x[1]), 8) {
      LoadWordEffect(h.cpu.state, cfg);
    }
  }
}
