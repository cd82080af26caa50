/** LDP and STP: the emitted checks admit exactly the transfers the architecture performs. */
module PairProofs {
  import opened PowersOfTwo
  import opened Words
  import opened LittleEndian
  import opened A64
  import opened HostOps
  import opened Emission
  import opened HostRuns
  import opened FlagBridge
  import opened ConditionProofs
  import opened EpilogueProofs
  import opened PairEmission

  // ---------- Guards ----------

  /** A guard either goes on or leaves for its exit, whatever follows. */
  lemma GuardRuns(check: seq<Op>, cc: Cc, rest: seq<Op>, exit: nat, exits: seq<Op>, h: Host, k: Host)
    requires Runs(check, h, k) && Readable(cc, k.flags) && exit <= |exits|
    ensures Run(Guard(check, cc, rest, exit) + exits, h)
      == if Holds(cc, k.flags) then Run(exits[exit..], k) else Run(rest + exits, k)
  {
    hide Run, Step, Holds;
    var after := rest + exits;
    assert Guard(check, cc, rest, exit) + exits == check + ([Jcc(cc, |rest| + exit)] + after);
    RunAppend(check, [Jcc(cc, |rest| + exit)] + after, h);
    RunJcc(cc, |rest| + exit, after, k);
    assert after[|rest| + exit..] == exits[exit..];
  }

  // ---------- Unsigned comparisons ----------

  /** Borrow, equality and the difference itself, on values. */
  lemma SubFacts(a: Word, b: Word)
    ensures var (d, f) := Arithmetic(Sub, a, b);
      && f.Known? && (f.cf <==> Val(a) < Val(b)) && (f.zf <==> Val(a) == Val(b))
      && (Val(a) >= Val(b) ==> Val(d) == Val(a) - Val(b))
  {
    hide FromNat, Val;
    CompareEqual(a, b);
    if Val(a) == Val(b) {
      ValInjective(a, b);
    }
    ValBound(a);
    if Val(a) >= Val(b) {
      var d := Val(a) - Val(b);
      ModUnique(d, Pow2(64), 0, d);
      ValFromNat(d, 64);
    }
  }

  /** A sum, and the carry that says it wrapped. */
  lemma AddFacts(a: Word, b: Word)
    ensures var (s, f) := Arithmetic(Add, a, b);
      && f.Known? && (f.cf <==> Val(a) + Val(b) >= Pow2(64)) && s == FromInt(Val(a) + Val(b), 64)
  {
  }

  lemma SmallVal(v: nat)
    requires v < 0x1_0000_0000_0000_0000
    ensures Val(FromNat(v, 64)) == v
  {
    hide FromNat, Val;
    BigPower();
    ValFromNat(v, 64);
    ModUnique(v, Pow2(64), 0, v);
  }

  lemma BigPower()
    ensures Pow2(64) == 0x1_0000_0000_0000_0000
  {
    FivePowers();
    Pow2Add(4, 4);
    Pow2Add(8, 8);
    Pow2Add(16, 16);
    Pow2Add(32, 32);
  }

  /** Testing the low bits against a mask of k ones is testing divisibility. */
  lemma LowBitsZero(x: Word, k: nat)
    requires k <= 4
    ensures IsZero(And(Low(x, 8), FromNat(Pow2(k) - 1, 8))) <==> Val(x) % Pow2(k) == 0
  {
    hide FromNat, Val;
    FivePowers();
    SmallWord(Pow2(k) - 1, 8);
    assert Pow2(0) == 1;
    var m := FromNat(Pow2(k) - 1, 8);
    forall i | 0 <= i < 8 ensures m[i] <==> i < k {
      MaskOnes(k, i);
    }
    ValLow(x, k);
    ValZero(Low(x, k));
    var t := And(Low(x, 8), m);
    if IsZero(t) {
      forall i | 0 <= i < k ensures !Low(x, k)[i] {
        assert !t[i];
      }
    }
    if IsZero(Low(x, k)) {
      forall i | 0 <= i < 8 ensures !t[i] {
        if i < k {
          assert !Low(x, k)[i];
        }
      }
    }
  }

  lemma MaskOnes(k: nat, i: nat)
    requires k <= 4 && i < 8
    ensures FromNat(Pow2(k) - 1, 8)[i] <==> i < k
  {
    hide FromNat;
    FivePowers();
    assert Pow2(0) == 1;
    var v := Pow2(k) - 1;
    SmallWord(v, 8);
    assert v == 0 || v == 1 || v == 3 || v == 7 || v == 15;
    NibbleAt(v % 2 == 1, v / 2 % 2 == 1, v / 4 % 2 == 1, v / 8 % 2 == 1, 8, i);
  }

  // ---------- Single instructions ----------

  lemma RegImm(p: seq<Op>, h: Host, k: Host, op: AluOp, dst: Register, imm: Word) returns (p': seq<Op>, k': Host)
    requires Runs(p, h, k) && HasData(k, dst)
    ensures p' == p + [AluRegImm(op, dst, imm)] && Runs(p', h, k')
    ensures k' == Set(k, dst, Arithmetic(op, Get(k, dst), imm).0).(flags := Arithmetic(op, Get(k, dst), imm).1)
  {
    hide Runs, Arithmetic;
    k' := Set(k, dst, Arithmetic(op, Get(k, dst), imm).0).(flags := Arithmetic(op, Get(k, dst), imm).1);
    p' := Do(p, h, k, AluRegImm(op, dst, imm), k');
  }

  /** Comparing the memory size in R8 with a small bound. */
  lemma SizeRuns(p: seq<Op>, h: Host, k: Host, bound: nat) returns (p': seq<Op>, k': Host)
    requires Runs(p, h, k) && k.rcx.Pointer? && bound <= 16
    ensures p' == p + [CompareSize(bound)] && Runs(p', h, k')
    ensures k' == k.(flags := k'.flags) && k'.flags.Known? && (k'.flags.cf <==> |k.cpu.state.ram| < bound)
  {
    hide Runs, Arithmetic, FromNat, Val;
    SubFacts(FromNat(|k.cpu.state.ram|, 64), FromNat(bound, 64));
    SmallVal(|k.cpu.state.ram|);
    SmallVal(bound);
    k' := k.(flags := Arithmetic(Sub, FromNat(|k.cpu.state.ram|, 64), FromNat(bound, 64)).1);
    p' := Do(p, h, k, CompareSize(bound), k');
  }

  /** R10 drops by an element and is compared with the offset in R9. */
  lemma RangeRuns(p: seq<Op>, h: Host, k: Host, bytes: nat, size: nat) returns (p': seq<Op>, k': Host)
    requires Runs(p, h, k) && k.r10.Data? && Val(k.r10.bits) == size && bytes <= 16 && bytes <= size
    ensures p' == p + RangeCheck(bytes) && Runs(p', h, k')
    ensures k'.r10.Data? && Val(k'.r10.bits) == size - bytes
    ensures k'.rax == k.rax && k'.r9 == k.r9 && k'.r11 == k.r11 && SameGuest(k, k')
    ensures k'.flags.Known? && (Holds(Above, k'.flags) <==> Val(k.r9) + bytes > size)
  {
    hide Runs, Arithmetic, FromNat, Val;
    SubFacts(k.r10.bits, FromNat(bytes, 64));
    SmallVal(bytes);
    var q, k1 := RegImm(p, h, k, Sub, R10, FromNat(bytes, 64));
    SubFacts(k1.r9, k1.r10.bits);
    k' := k1.(flags := Arithmetic(Sub, k1.r9, k1.r10.bits).1);
    p' := Do(q, h, k1, CompareR9R10, k');
  }

  // ---------- Transfers ----------

  /** One element moved at an offset: the first at disp 0, the second one element on. */
  function MovedElement(r: State, w: bv32, offset: nat, second: bool): (s: State)
    requires offset + 2 * PairBytes(w) <= |r.ram|
  {
    var n := PairBytes(w);
    var at := if second then offset + n else offset;
    var reg := if second then Reg(w, 10) else Reg(w, 0);
    if Flag(w, 22) then SetX(r, reg, ReadMem(r.ram, at, n)) else r.(ram := WriteMem(r.ram, at, X(r, reg, n == 8)))
  }

  lemma ElementLoads(p: seq<Op>, h: Host, k: Host, n: nat, at: nat, disp: nat, reg: nat) returns (p': seq<Op>, k': Host)
    requires Runs(p, h, k) && k.rcx.Pointer? && n <= 8 && reg < 32
    requires at == Val(k.r9) + disp && at + n <= |k.cpu.state.ram|
    ensures p' == p + ([MemLoad(n, disp)] + Save(reg, false)) && Runs(p', h, k')
    ensures k'.r9 == k.r9 && k'.r11 == k.r11 && k'.rcx == k.rcx
    ensures k'.cpu == k.cpu.(state := SetX(k.cpu.state, reg, ReadMem(k.cpu.state.ram, at, n)))
  {
    hide StepState, StepData;
    hide Runs, Val, Extend, ReadMem, SetX, Save;
    var v := ReadMem(k.cpu.state.ram, at, n);
    var k1 := k.(rax := Extend(v, 64));
    p' := Do(p, h, k, MemLoad(n, disp), k1);
    p', k' := SaveResult(p', h, k1, reg, false, v);
    assert p' == p + ([MemLoad(n, disp)] + Save(reg, false));
  }

  lemma ElementStores(p: seq<Op>, h: Host, k: Host, n: nat, at: nat, disp: nat, reg: nat) returns (p': seq<Op>, k': Host)
    requires Runs(p, h, k) && k.rcx.Pointer? && (n == 4 || n == 8) && reg < 32
    requires at == Val(k.r9) + disp && at + n <= |k.cpu.state.ram|
    ensures p' == p + (Load(reg, false, n == 8) + [MemStore(n, disp)]) && Runs(p', h, k')
    ensures k'.r9 == k.r9 && k'.r11 == k.r11 && k'.rcx == k.rcx
    ensures k'.cpu == k.cpu.(state := k.cpu.state.(ram := WriteMem(k.cpu.state.ram, at, X(k.cpu.state, reg, n == 8))))
  {
    hide StepState, StepData;
    hide Runs, Val, Extend, Low, WriteMem, X, Load;
    var k1;
    p', k1 := LoadOperand(p, h, k, reg, false, n == 8);
    var v := X(k.cpu.state, reg, n == 8);
    LowExtend(v, 64);
    k' := k1.(cpu := k1.cpu.(state := k1.cpu.state.(ram := WriteMem(k1.cpu.state.ram, at, v))));
    p' := Do(p', h, k1, MemStore(n, disp), k');
    assert p' == p + (Load(reg, false, n == 8) + [MemStore(n, disp)]);
  }

  lemma ElementRuns(p: seq<Op>, h: Host, k: Host, w: bv32, second: bool, offset: nat) returns (p': seq<Op>, k': Host)
    requires Runs(p, h, k) && k.rcx.Pointer? && Val(k.r9) == offset && offset + 2 * PairBytes(w) <= |k.cpu.state.ram|
    ensures p' == p + Element(w, second) && Runs(p', h, k')
    ensures k'.r9 == k.r9 && k'.r11 == k.r11 && k'.rcx == k.rcx
    ensures k'.cpu == k.cpu.(state := MovedElement(k.cpu.state, w, offset, second))
  {
    hide Runs, Step, Field, Val, ReadMem, WriteMem, X, SetX, Load, Save;
    var n := PairBytes(w);
    var disp := if second then n else 0;
    var reg := if second then Reg(w, 10) else Reg(w, 0);
    if Flag(w, 22) {
      p', k' := ElementLoads(p, h, k, n, offset + disp, disp, reg);
    } else {
      p', k' := ElementStores(p, h, k, n, offset + disp, disp, reg);
    }
  }

  /** R11, displaced or not, stored into a base register. */
  lemma BaseWriteRuns(p: seq<Op>, h: Host, k: Host, reg: nat, displaced: bool, d: int, updated: Word) returns (p': seq<Op>, k': Host)
    requires Runs(p, h, k) && k.rcx.Pointer? && reg < 32
    requires updated == if displaced then FromInt(Val(k.r11) + d, 64) else k.r11
    ensures p' == p + ([MovReg(RAX, R11)] + (if displaced then [AluImm(Add, true, FromInt(d, 64))] else []) + Save(reg, true))
    ensures Runs(p', h, k') && k'.rcx.Pointer? && k'.cpu == k.cpu.(state := SetXSP(k.cpu.state, reg, updated))
  {
    hide Runs, Val, Extend, FromNat, SetXSP, Save, Low, Arithmetic;
    p', k' := Mov(p, h, k, RAX, R11);
    ExtendFull(updated);
    if displaced {
      var imm: Word := FromInt(d, 64);
      ExtendFull(k.r11);
      ExtendFull(imm);
      p', k' := ComputeImm(p', h, k', Add, true, imm, k.r11);
      DisplacedSum(k.r11, d);
    } else {
      assert p' + [] == p';
    }
    p', k' := SaveResult(p', h, k', reg, true, updated);
  }

  lemma WriteBackRuns(p: seq<Op>, h: Host, k: Host, w: bv32, updated: Word) returns (p': seq<Op>, k': Host)
    requires Runs(p, h, k) && k.rcx.Pointer? && PairValid(w)
    requires updated == if PairMode(w) == 1 then FromInt(Val(k.r11) + PairDisplacement(w), 64) else k.r11
    ensures p' == p + WriteBack(w) && Runs(p', h, k')
    ensures k'.rcx.Pointer? && k'.cpu == k.cpu.(state := WriteBackPair(k.cpu.state, w, updated))
  {
    hide Runs, Field, Val, FromInt, SetXSP, Save, PairDisplacement, Reg;
    if PairMode(w) == 2 {
      p', k' := p, k;
      assert p + [] == p;
    } else {
      p', k' := BaseWriteRuns(p, h, k, Reg(w, 5), PairMode(w) == 1, PairDisplacement(w), updated);
    }
  }

  /** Adding a signed displacement as a 64-bit word. */
  lemma DisplacedSum(a: Word, d: int)
    ensures Arithmetic(Add, a, FromInt(d, 64)).0 == FromInt(Val(a) + d, 64)
  {
    hide FromNat, Val, Pow2;
    var m := Pow2(64);
    ValFromNat(d % m, 64);
    ModUnique(d % m, m, 0, d % m);
    var q := d / m;
    assert d == q * m + d % m;
    ModShift(Val(a) + d % m, q, m);
  }

  lemma TransfersRun(p: seq<Op>, h: Host, k: Host, w: bv32, offset: nat, updated: Word) returns (p': seq<Op>, k': Host)
    requires Runs(p, h, k) && k.rcx.Pointer? && PairValid(w)
    requires Val(k.r9) == offset && offset + 2 * PairBytes(w) <= |k.cpu.state.ram|
    requires updated == if PairMode(w) == 1 then FromInt(Val(k.r11) + PairDisplacement(w), 64) else k.r11
    ensures p' == p + Transfers(w) && Runs(p', h, k') && k'.rcx.Pointer?
    ensures k'.cpu == k.cpu.(state := WriteBackPair(TransferPair(k.cpu.state, w, offset), w, updated))
  {
    hide Runs, Step, Field, Val, FromNat, ReadMem, WriteMem, X, SetX, Element, WriteBack, WriteBackPair, MovedElement;
    TransferSplits(k.cpu.state, w, offset);
    p', k' := ElementRuns(p, h, k, w, false, offset);
    MovedKeepsSize(k.cpu.state, w, offset, false);
    p', k' := ElementRuns(p', h, k', w, true, offset);
    p', k' := WriteBackRuns(p', h, k', w, updated);
    assert p' == p + Transfers(w);
  }

  lemma MovedKeepsSize(r: State, w: bv32, offset: nat, second: bool)
    requires offset + 2 * PairBytes(w) <= |r.ram|
    ensures |MovedElement(r, w, offset, second).ram| == |r.ram|
  {
  }

  lemma TransferSplits(r: State, w: bv32, offset: nat)
    requires PairValid(w) && offset + 2 * PairBytes(w) <= |r.ram|
    ensures |MovedElement(r, w, offset, false).ram| == |r.ram|
    ensures TransferPair(r, w, offset) == MovedElement(MovedElement(r, w, offset, false), w, offset, true)
  {
    hide Field, ReadMem, WriteMem, X;
  }

  // ---------- Checks ----------

  /** Leaving for an exit: the guest is as it was and R11 holds the fault address. */
  predicate Leaves(k: Host, cpu: Cpu, far: Word)
  {
    k.rcx.Pointer? && k.cpu == cpu && k.r11 == far
  }

  /** All checks passed: the transfer, then the jump over the exits. */
  lemma PassRuns(w: bv32, h: Host, address: Word, offset: nat, updated: Word, exits: seq<Op>) returns (k: Host)
    requires h.rcx.Pointer? && PairValid(w) && Val(h.r9) == offset && offset + 2 * PairBytes(w) <= |h.cpu.state.ram|
    requires Val(address) + PairBytes(w) < Pow2(64) && h.r11 == FromInt(Val(address) + PairBytes(w), 64)
    requires updated == if PairMode(w) == 1 then FromInt(Val(address) + PairDisplacement(w), 64) else address
    ensures Run([AluRegImm(Sub, R11, FromNat(PairBytes(w), 64))] + Transfers(w) + [Jmp(|exits|)] + exits, h) == Running(k)
    ensures k.rcx.Pointer?
    ensures k.cpu == h.cpu.(state := WriteBackPair(TransferPair(h.cpu.state, w, offset), w, updated))
  {
    hide Field, Val, FromNat, Arithmetic, Pow2, Transfers, TransferPair, WriteBackPair, StepData, StepState, StepMemory;
    var n := PairBytes(w);
    RestoredAddress(address, n);
    var p, s := Start(h);
    p, s := RegImm(p, h, s, Sub, R11, FromNat(n, 64));
    p, s := TransfersRun(p, h, s, w, offset, updated);
    assert p == [AluRegImm(Sub, R11, FromNat(n, 64))] + Transfers(w);
    k := s;
    JumpOver(p, exits, h, k);
  }

  lemma JumpOver(p: seq<Op>, exits: seq<Op>, h: Host, k: Host)
    requires Runs(p, h, k)
    ensures Run(p + [Jmp(|exits|)] + exits, h) == Running(k)
  {
    hide Run, Step;
    assert p + [Jmp(|exits|)] + exits == p + ([Jmp(|exits|)] + exits);
    RunAppend(p, [Jmp(|exits|)] + exits, h);
    RunJmp(|exits|, exits, k);
    assert exits[|exits|..] == [];
    RunNothing(k);
  }

  /** Taking the element size off again restores the address. */
  lemma RestoredAddress(address: Word, n: nat)
    requires n <= 16 && Val(address) + n < Pow2(64)
    ensures Arithmetic(Sub, FromInt(Val(address) + n, 64), FromNat(n, 64)).0 == address
    ensures Val(FromInt(Val(address) + n, 64)) == Val(address) + n
  {
    hide Val, FromNat, Pow2, Arithmetic;
    var v := Val(address) + n;
    ModUnique(v, Pow2(64), 0, v);
    ValFromNat(v, 64);
    SmallVal(n);
    SubFacts(FromInt(v, 64), FromNat(n, 64));
    ValInjective(Arithmetic(Sub, FromInt(v, 64), FromNat(n, 64)).0, address);
  }

  /** The second element: its address must not wrap and must lie inside memory. */
  lemma SecondRuns(w: bv32, h: Host, address: Word, offset: nat, updated: Word, exit: nat, exits: seq<Op>) returns (k: Host, ok: bool)
    requires h.rcx.Pointer? && PairValid(w) && exit <= |exits|
    requires Val(h.r9) == offset && h.r11 == address && h.r10.Data?
    requires Val(h.r10.bits) == |h.cpu.state.ram| - PairBytes(w) && offset + PairBytes(w) <= |h.cpu.state.ram|
    requires updated == if PairMode(w) == 1 then FromInt(Val(address) + PairDisplacement(w), 64) else address
    ensures ok <==> Val(address) + PairBytes(w) < Pow2(64) && offset + 2 * PairBytes(w) <= |h.cpu.state.ram|
    ensures var far: Word := FromInt(Val(address) + PairBytes(w), 64);
      Run(SecondChecks(w, exit, |exits|) + exits, h) == if ok then Running(k) else Run(exits[exit..], k)
    ensures k.rcx.Pointer?
    ensures ok ==> k.cpu == h.cpu.(state := WriteBackPair(TransferPair(h.cpu.state, w, offset), w, updated))
    ensures !ok ==> Leaves(k, h.cpu, FromInt(Val(address) + PairBytes(w), 64))
  {
    hide Run, Step, Field, Val, FromNat, Arithmetic, Pow2, Transfers, TransferPair, WriteBackPair, Runs, Guard, RangeCheck;
    var n := PairBytes(w);
    var size := |h.cpu.state.ram|;
    var pass := [AluRegImm(Sub, R11, FromNat(n, 64))] + Transfers(w) + [Jmp(|exits|)];
    var ranged := Guard(RangeCheck(n), Above, pass, exit);
    var sized := Guard([CompareSize(2 * n)], CarrySet, ranged, exit);
    AddFacts(address, FromNat(n, 64));
    SmallVal(n);
    var p, k1 := Start(h);
    p, k1 := RegImm(p, h, k1, Add, R11, FromNat(n, 64));
    assert p == [AluRegImm(Add, R11, FromNat(n, 64))];
    GuardRuns(p, CarrySet, sized, exit, exits, h, k1);
    k, ok := k1, false;
    if Val(address) + n < Pow2(64) {
      var q, k2 := Start(k1);
      q, k2 := SizeRuns(q, k1, k2, 2 * n);
      assert q == [CompareSize(2 * n)];
      GuardRuns(q, CarrySet, ranged, exit, exits, k1, k2);
      k := k2;
      if size >= 2 * n {
        var t, k3 := Start(k2);
        t, k3 := RangeRuns(t, k2, k3, n, size - n);
        assert t == RangeCheck(n);
        GuardRuns(t, Above, pass, exit, exits, k2, k3);
        k := k3;
        if offset + n <= size - n {
          ok := true;
          k := PassRuns(w, k3, address, offset, updated, exits);
        }
      }
    }
  }

  /** The base is taken off the address, with a borrow when the address is below it. */
  lemma BaseRuns(p: seq<Op>, h: Host, k: Host, cfg: Config) returns (p': seq<Op>, k': Host)
    requires Runs(p, h, k)
    ensures p' == p + BaseCheck(cfg) && Runs(p', h, k')
    ensures k'.flags.Known? && (k'.flags.cf <==> Val(k.r9) < cfg.base)
    ensures Val(k.r9) >= cfg.base ==> Val(k'.r9) == Val(k.r9) - cfg.base
    ensures k'.r11 == k.r11 && SameGuest(k, k')
  {
    hide Runs, Val, FromNat, Arithmetic, Extend, Low;
    var b: Word := FromNat(cfg.base, 64);
    SmallVal(cfg.base);
    SubFacts(k.r9, b);
    var q, k1 := Imm(p, h, k, RAX, b);
    ExtendFull(k.r9);
    ExtendFull(b);
    var r := Arithmetic(Sub, k.r9, b);
    ExtendFull(r.0);
    k' := k1.(r9 := r.0, flags := r.1);
    p' := Do(q, h, k1, Alu(Sub, true, R9, RAX), k');
  }

  /** Whether the first and the second element lie inside memory, for an address known to be aligned. */
  predicate FirstInside(h: Host, cfg: Config, address: Word, n: nat)
  {
    Inside(h.cpu.state, cfg, Val(address), n)
  }

  predicate SecondInside(h: Host, cfg: Config, address: Word, n: nat)
  {
    Val(address) + n < Pow2(64) && Inside(h.cpu.state, cfg, Val(address) + n, n)
  }

  /** The size comparisons of an element. */
  lemma FirstRange(n: nat, h: Host, exit: nat, exits: seq<Op>, rest: seq<Op>) returns (k: Host)
    requires h.rcx.Pointer? && exit <= |exits| && n <= 16
    ensures var size := |h.cpu.state.ram|;
      && Run(Guard([CompareSize(n)], CarrySet, Guard([SizeToR10] + RangeCheck(n), Above, rest, exit), exit) + exits, h)
         == (if Val(h.r9) + n <= size then Run(rest + exits, k) else Run(exits[exit..], k))
      && (Val(h.r9) + n <= size ==> k.r10.Data? && Val(k.r10.bits) == size - n && k.r9 == h.r9)
    ensures k.r11 == h.r11 && SameGuest(h, k)
  {
    hide Run, Val, FromNat, Arithmetic, Runs, Guard, RangeCheck, Holds;
    var size := |h.cpu.state.ram|;
    var ranged := Guard([SizeToR10] + RangeCheck(n), Above, rest, exit);
    var p, k1 := Start(h);
    p, k1 := SizeRuns(p, h, k1, n);
    assert p == [CompareSize(n)];
    CarryHolds(k1.flags);
    GuardRuns(p, CarrySet, ranged, exit, exits, h, k1);
    k := k1;
    if size >= n {
      var q, k2 := Start(k1);
      var k3 := k2.(r10 := Data(FromNat(size, 64)));
      q := Do(q, k1, k2, SizeToR10, k3);
      SmallVal(size);
      q, k := RangeRuns(q, k1, k3, n, size);
      assert q == [SizeToR10] + RangeCheck(n);
      GuardRuns(q, Above, rest, exit, exits, k1, k);
    }
  }

  lemma CarryHolds(f: Flags)
    requires f.Known?
    ensures Readable(CarrySet, f) && Holds(CarrySet, f) == f.cf && Readable(Above, f)
  {
  }

  /** From the base comparison on: the transfer happens exactly when both elements are inside. */
  lemma FirstRuns(w: bv32, h: Host, cfg: Config, address: Word, updated: Word, exit: nat, exits: seq<Op>)
    returns (k: Host, far: Word)
    requires h.rcx.Pointer? && PairValid(w) && exit <= |exits| && h.r9 == address && h.r11 == address
    requires updated == if PairMode(w) == 1 then FromInt(Val(address) + PairDisplacement(w), 64) else address
    ensures var n := PairBytes(w);
      var ok := FirstInside(h, cfg, address, n) && SecondInside(h, cfg, address, n);
      && Run(FirstChecks(w, cfg, exit, |exits|) + exits, h) == (if ok then Running(k) else Run(exits[exit..], k))
      && (ok ==> k.cpu == h.cpu.(state :=
            WriteBackPair(TransferPair(h.cpu.state, w, Val(address) - cfg.base), w, updated)))
      && (!ok ==> Leaves(k, h.cpu, far))
      && far == (if FirstInside(h, cfg, address, n) then FromInt(Val(address) + n, 64) else address)
    ensures k.rcx.Pointer?
  {
    hide Run, Step, Field, Val, FromNat, Arithmetic, Runs, Guard, RangeCheck, BaseCheck, SecondChecks, TransferPair,
      WriteBackPair, Pow2, Holds;
    var n := PairBytes(w);
    var second := SecondChecks(w, exit, |exits|);
    var sized := Guard([CompareSize(n)], CarrySet, Guard([SizeToR10] + RangeCheck(n), Above, second, exit), exit);
    far := if FirstInside(h, cfg, address, n) then FromInt(Val(address) + n, 64) else address;
    var p, k1 := Start(h);
    p, k1 := BaseRuns(p, h, k1, cfg);
    assert p == BaseCheck(cfg);
    CarryHolds(k1.flags);
    GuardRuns(p, CarrySet, sized, exit, exits, h, k1);
    k := k1;
    if Val(address) >= cfg.base {
      var k2 := FirstRange(n, k1, exit, exits, second);
      k := k2;
      var offset := Val(address) - cfg.base;
      if offset + n <= |h.cpu.state.ram| {
        var ok;
        k, ok := SecondRuns(w, k2, address, offset, updated, exit, exits);
      }
    }
  }

  // ---------- Address, alignment and exits ----------

  lemma TestByteRuns(p: seq<Op>, h: Host, k: Host, bits: nat) returns (p': seq<Op>, k': Host)
    requires Runs(p, h, k) && bits <= 4
    ensures p' == p + [TestByte(Pow2(bits) - 1)] && Runs(p', h, k')
    ensures k' == k.(flags := k'.flags) && k'.flags.Known? && (k'.flags.zf <==> Val(k.rax) % Pow2(bits) == 0)
  {
    hide Runs, Val, FromNat, And, IsZero, Pow2;
    LowBitsZero(k.rax, bits);
    k' := k.(flags := HostOps.LogicFlags(And(Low(k.rax, 8), FromNat(Pow2(bits) - 1, 8))));
    p' := Do(p, h, k, TestByte(Pow2(bits) - 1), k');
  }

  function ElementBits(w: bv32): (b: nat)
    ensures b <= 4 && Pow2(b) == PairBytes(w)
  {
    FivePowers();
    if PairBytes(w) == 8 then 3 else 2
  }

  lemma AddressRuns(w: bv32, h: Host) returns (k: Host)
    requires h.rcx.Pointer? && PairValid(w)
    ensures Runs(AddressCode(w), h, k) && SameGuest(h, k)
    ensures k.r9 == PairAddress(h.cpu.state, w) && k.r11 == k.r9
    ensures k.flags.Known? && (k.flags.zf <==> Val(k.r9) % PairBytes(w) == 0)
  {
    hide Runs, Step, Field, Val, FromNat, Arithmetic, Extend, Low, XSP, Load, Pow2;
    var base := PairBase(h.cpu.state, w);
    var address := PairAddress(h.cpu.state, w);
    var p;
    p, k := Start(h);
    p, k := LoadOperand(p, h, k, Reg(w, 5), true, true);
    ExtendFull(base);
    if PairMode(w) != 1 {
      var d: Word := FromInt(PairDisplacement(w), 64);
      ExtendFull(d);
      p, k := ComputeImm(p, h, k, Add, true, d, base);
      DisplacedSum(base, PairDisplacement(w));
      ExtendFull(address);
    } else {
      assert p + [] == p;
    }
    p, k := Mov(p, h, k, R11, RAX);
    p, k := Mov(p, h, k, R9, RAX);
    p, k := TestByteRuns(p, h, k, ElementBits(w));
    assert p == AddressCode(w);
  }

  lemma SpRuns(h: Host) returns (k: Host)
    requires h.rcx.Pointer?
    ensures Runs(SpCheck(), h, k) && SameGuest(h, k) && k.r11 == h.cpu.state.sp && k.rax == k.r11
    ensures k.flags.Known? && (k.flags.zf <==> Val(h.cpu.state.sp) % 16 == 0)
  {
    hide Runs, Val, FromNat, Arithmetic, Extend, Low;
    var p;
    p, k := Start(h);
    ExtendFull(h.cpu.state.sp);
    var k1 := k.(rax := h.cpu.state.sp);
    p := Do(p, h, k, LoadSp(true), k1);
    p, k := Mov(p, h, k1, R11, RAX);
    FivePowers();
    p, k := TestByteRuns(p, h, k, 4);
    assert p == SpCheck();
  }

  /** An exit stores the fault address and returns its status, whatever follows it. */
  lemma FaultExitRuns(rest: seq<Op>, k: Host, cpu: Cpu, far: Word, pc: Word, n: nat, status: Status)
    requires Leaves(k, cpu, far)
    ensures Returns(FaultExit(pc, n, status) + rest, k,
      cpu.(state := cpu.state.(far := far), pc := pc, retired := Retire(cpu.retired, n)), status)
  {
    hide Run, Runs, Returns, Pow2, Finish;
    var p, s := Start(k);
    var s1 := s.(cpu := s.cpu.(state := s.cpu.state.(far := far)));
    p := Do(p, k, s, StoreFar, s1);
    FinishRuns(p, k, s1, pc, n, status);
    assert p + Finish(pc, n, status) == FaultExit(pc, n, status);
    ReturnsFirst(FaultExit(pc, n, status), rest, k, s1.cpu.(pc := pc, retired := Retire(s1.cpu.retired, n)), status);
  }

  /** Code that returns ignores what follows it. */
  lemma ReturnsFirst(ops: seq<Op>, rest: seq<Op>, h: Host, cpu: Cpu, status: Status)
    requires Returns(ops, h, cpu, status)
    ensures Returns(ops + rest, h, cpu, status)
  {
    hide Run;
    RunAppend(ops, rest, h);
  }

  /** What code must do for the effect of a pair whose word is already recorded. */
  predicate PairDone(ops: seq<Op>, h: Host, effect: Effect, pc: Word, n: nat)
  {
    if effect.Through? then
      var o := Run(ops, h);
      o.Running? && o.h.rcx.Pointer? && o.h.cpu == h.cpu.(state := effect.state)
    else
      && effect.Fault?
      && Returns(ops, h, h.cpu.(state := effect.state, pc := pc, retired := Retire(h.cpu.retired, n)), effect.status)
  }

  /** The exits, found at their offsets. */
  lemma ExitsAt(w: bv32, pc: Word, n: nat, cfg: Config)
    ensures var exits := Exits(w, pc, n, cfg);
      && AlignOffset(w, pc, n, cfg) <= |exits| && DataOffset(w, pc, n, cfg) <= |exits|
      && exits[AlignOffset(w, pc, n, cfg)..] == FaultExit(pc, n, AlignmentFault) + FaultExit(pc, n, DataAbort)
      && exits[DataOffset(w, pc, n, cfg)..] == FaultExit(pc, n, DataAbort)
      && exits[0..] == exits
  {
    hide FaultExit;
  }

  /** The part of the architecture's definition after the stack-alignment check. */
  function AlignedPart(r: State, cfg: Config, w: bv32): (effect: Effect)
  {
    var n := PairBytes(w);
    var address := PairAddress(r, w);
    if Val(address) % n != 0 then Fault(r.(far := address), AlignmentFault)
    else if !Inside(r, cfg, Val(address), n) then Fault(r.(far := address), DataAbort)
    else if Val(address) + n >= Pow2(64) || !Inside(r, cfg, Val(address) + n, n) then
      Fault(r.(far := FromInt(Val(address) + n, 64)), DataAbort)
    else Through(WriteBackPair(TransferPair(r, w, Val(address) - cfg.base), w, PairUpdated(r, w)))
  }

  lemma UpdatedAgrees(r: State, w: bv32)
    requires PairValid(w)
    ensures PairUpdated(r, w) == if PairMode(w) == 1 then FromInt(Val(PairAddress(r, w)) + PairDisplacement(w), 64) else PairAddress(r, w)
  {
    hide Field, Val, FromNat, XSP;
  }

  lemma AlignedRuns(w: bv32, h: Host, pc: Word, n: nat, cfg: Config)
    requires h.rcx.Pointer? && PairValid(w)
    ensures var exits := Exits(w, pc, n, cfg);
      var aligned := Guard(AddressCode(w), NotZero, FirstChecks(w, cfg, DataOffset(w, pc, n, cfg), |exits|), AlignOffset(w, pc, n, cfg));
      PairDone(aligned + exits, h, AlignedPart(h.cpu.state, cfg, w), pc, n)
  {
    hide Run, Step, Field, Val, FromNat, Arithmetic, Runs, Guard, AddressCode, FirstChecks, Exits, TransferPair, WriteBackPair,
      Pow2, FaultExit, Returns, AlignOffset, DataOffset, PairAddress, PairUpdated, Holds;
    var exits := Exits(w, pc, n, cfg);
    var r := h.cpu.state;
    var address := PairAddress(r, w);
    ExitsAt(w, pc, n, cfg);
    UpdatedAgrees(r, w);
    var k := AddressRuns(w, h);
    ZeroHolds(k.flags);
    GuardRuns(AddressCode(w), NotZero, FirstChecks(w, cfg, DataOffset(w, pc, n, cfg), |exits|), AlignOffset(w, pc, n, cfg), exits, h, k);
    if Val(address) % PairBytes(w) != 0 {
      FaultExitRuns(FaultExit(pc, n, DataAbort), k, h.cpu, address, pc, n, AlignmentFault);
      SameRun(Guard(AddressCode(w), NotZero, FirstChecks(w, cfg, DataOffset(w, pc, n, cfg), |exits|), AlignOffset(w, pc, n, cfg)) + exits,
        h, exits[AlignOffset(w, pc, n, cfg)..], k,
        h.cpu.(state := r.(far := address), pc := pc, retired := Retire(h.cpu.retired, n)), AlignmentFault);
    } else {
      var k', far := FirstRuns(w, k, cfg, address, PairUpdated(r, w), DataOffset(w, pc, n, cfg), exits);
      if !(FirstInside(k, cfg, address, PairBytes(w)) && SecondInside(k, cfg, address, PairBytes(w))) {
        FaultExitRuns([], k', h.cpu, far, pc, n, DataAbort);
        assert FaultExit(pc, n, DataAbort) + [] == FaultExit(pc, n, DataAbort);
        SameRun(Guard(AddressCode(w), NotZero, FirstChecks(w, cfg, DataOffset(w, pc, n, cfg), |exits|), AlignOffset(w, pc, n, cfg)) + exits,
          h, exits[DataOffset(w, pc, n, cfg)..], k',
          h.cpu.(state := r.(far := far), pc := pc, retired := Retire(h.cpu.retired, n)), DataAbort);
      }
    }
  }

  lemma ZeroHolds(f: Flags)
    requires f.Known?
    ensures Readable(NotZero, f) && Holds(NotZero, f) == !f.zf
  {
  }

  /** Equal runs return equally. */
  lemma SameRun(a: seq<Op>, h: Host, b: seq<Op>, k: Host, cpu: Cpu, status: Status)
    requires Run(a, h) == Run(b, k) && Returns(b, k, cpu, status)
    ensures Returns(a, h, cpu, status)
  {
    hide Run;
  }

  lemma ChecksRun(w: bv32, h: Host, pc: Word, n: nat, cfg: Config)
    requires h.rcx.Pointer? && PairValid(w) && !cfg.bigEndian && h.cpu.state.instruction == w
    ensures PairDone(Checks(w, pc, n, cfg) + Exits(w, pc, n, cfg), h, LoadStorePair(h.cpu.state, cfg, w), pc, n)
  {
    hide Run, Step, Field, Val, FromNat, Runs, Guard, AddressCode, FirstChecks, FaultExit, Returns, Finish, AlignedPart, Pow2, Holds;
    var exits := Exits(w, pc, n, cfg);
    var aligned := Guard(AddressCode(w), NotZero, FirstChecks(w, cfg, DataOffset(w, pc, n, cfg), |exits|), AlignOffset(w, pc, n, cfg));
    SplitPair(h.cpu.state, cfg, w);
    if ChecksSp(w, cfg) {
      ExitsAt(w, pc, n, cfg);
      var k := SpRuns(h);
      ZeroHolds(k.flags);
      GuardRuns(SpCheck(), NotZero, aligned, 0, exits, h, k);
      ExtendFull(h.cpu.state.sp);
      if Val(h.cpu.state.sp) % 16 != 0 {
        FaultExitRuns(FaultExit(pc, n, AlignmentFault) + FaultExit(pc, n, DataAbort), k, h.cpu, h.cpu.state.sp, pc, n, SpAlignmentFault);
        SameRun(Guard(SpCheck(), NotZero, aligned, 0) + exits, h, exits[0..], k,
          h.cpu.(state := h.cpu.state.(far := h.cpu.state.sp), pc := pc, retired := Retire(h.cpu.retired, n)), SpAlignmentFault);
      } else {
        AlignedRuns(w, k, pc, n, cfg);
        PairDoneAt(Guard(SpCheck(), NotZero, aligned, 0) + exits, h, aligned + exits, k, AlignedPart(h.cpu.state, cfg, w), pc, n);
      }
    } else {
      AlignedRuns(w, h, pc, n, cfg);
    }
  }

  lemma PairDoneAt(a: seq<Op>, h: Host, b: seq<Op>, k: Host, effect: Effect, pc: Word, n: nat)
    requires Run(a, h) == Run(b, k) && SameGuest(h, k) && PairDone(b, k, effect, pc, n)
    ensures PairDone(a, h, effect, pc, n)
  {
    hide Run;
  }

  /** Code that keeps the guest but for its state, followed by code with an effect. */
  lemma PairAfter(p: seq<Op>, h: Host, k: Host, rest: seq<Op>, effect: Effect, pc: Word, n: nat)
    requires Runs(p, h, k) && PairDone(rest, k, effect, pc, n) && k.cpu == h.cpu.(state := k.cpu.state)
    ensures PairDone(p + rest, h, effect, pc, n)
  {
    hide Step;
    RunAppend(p, rest, h);
  }

  lemma SplitPair(r: State, cfg: Config, w: bv32)
    requires !cfg.bigEndian && r.instruction == w
    ensures LoadStorePair(r, cfg, w)
      == if ChecksSp(w, cfg) && Val(r.sp) % 16 != 0 then Fault(r.(far := r.sp), SpAlignmentFault) else AlignedPart(r, cfg, w)
  {
    hide Field, Val, FromNat, TransferPair, WriteBackPair, Pow2;
    ExtendFull(r.sp);
    assert r == r.(instruction := w);
  }

  // ---------- What the transfers mean ----------

  /** The byte a word stores is the byte that gives its bits back. */
  lemma ByteBits(v: Bits, j: nat)
    requires 8 * j + 8 <= |v|
    ensures FromNat(ByteOf(v, j), 8) == v[8 * j..8 * j + 8]
  {
    FromNatVal(v[8 * j..8 * j + 8]);
  }

  /** Memory returns what was stored there. */
  lemma ReadBack(ram: Ram, offset: nat, n: nat, v: Bits)
    requires |v| == 8 * n && offset + n <= |ram|
    ensures ReadMem(WriteMem(ram, offset, v), offset, n) == v
  {
    hide ByteOf, FromNat;
    var after := WriteMem(ram, offset, v);
    var got := ReadMem(after, offset, n);
    forall i | 0 <= i < 8 * n ensures got[i] == v[i] {
      var j := i / 8;
      assert after[offset + j] == ByteOf(v, j);
      ByteBits(v, j);
      assert v[8 * j..8 * j + 8][i % 8] == v[8 * j + i % 8];
    }
  }

  /** A store leaves every other range alone. */
  lemma ReadElsewhere(ram: Ram, offset: nat, v: Bits, at: nat, n: nat)
    requires offset + |v| / 8 <= |ram| && at + n <= |ram| && (at + n <= offset || offset + |v| / 8 <= at)
    ensures ReadMem(WriteMem(ram, offset, v), at, n) == ReadMem(ram, at, n)
  {
    hide ByteOf, FromNat;
    var after := WriteMem(ram, offset, v);
    forall i | 0 <= i < 8 * n ensures ReadMem(after, at, n)[i] == ReadMem(ram, at, n)[i] {
      assert after[at + i / 8] == ram[at + i / 8];
    }
  }

  /** What STP stored, an LDP of the same width at the same place loads. */
  lemma PairRoundTrip(r: State, store: bv32, load: bv32, offset: nat)
    requires PairValid(store) && PairValid(load) && !Flag(store, 22) && Flag(load, 22)
    requires PairBytes(store) == PairBytes(load) && offset + 2 * PairBytes(store) <= |r.ram|
    ensures var n := PairBytes(store);
      var stored := TransferPair(r, store, offset);
      && |stored.ram| == |r.ram|
      && TransferPair(stored, load, offset)
         == SetX(SetX(stored, Reg(load, 0), X(r, Reg(store, 0), n == 8)), Reg(load, 10), X(r, Reg(store, 10), n == 8))
  {
    hide Field, ReadMem, WriteMem, X, SetX;
    var n := PairBytes(store);
    var a, b := X(r, Reg(store, 0), n == 8), X(r, Reg(store, 10), n == 8);
    var first := WriteMem(r.ram, offset, a);
    OperandIgnoresRam(r, Reg(store, 10), n == 8, first);
    var both := WriteMem(first, offset + n, b);
    ReadBack(r.ram, offset, n, a);
    ReadElsewhere(first, offset + n, b, offset, n);
    ReadBack(first, offset + n, n, b);
    SetKeepsRam(TransferPair(r, store, offset), Reg(load, 0), a);
  }

  lemma OperandIgnoresRam(r: State, n: nat, wide: bool, ram: Ram)
    requires n < 32
    ensures X(r.(ram := ram), n, wide) == X(r, n, wide)
  {
  }

  lemma SetKeepsRam(r: State, n: nat, v: Bits)
    requires n < 32 && |v| <= 64
    ensures SetX(r, n, v).ram == r.ram
  {
  }
}
