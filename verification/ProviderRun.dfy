/**
 * The provider run loop (runtime/jit.c, vf_run_memory_provider): one fetched word a turn, translated through the cache
 * and run on the host, until the retired count has moved by the budget.
 */
module ProviderRun {
  import opened Basics
  import opened PowersOfTwo
  import opened Words
  import opened A64
  import opened HostOps
  import opened Emission
  import opened EpilogueProofs
  import opened Translator
  import opened ProviderCache
  import BlockProofs
  import DataProofs
  import NativeBlocks
  import PairProofs

  /** What the provider's fetch returned. */
  datatype Fetched = Word(word: bv32) | Failed(status: nat)

  /**
   * The surroundings of the loop: what precedes translation (controls, interrupts, the fetch through the provider),
   * where the guest is kept, and what follows native code: data steps, slow steps and final statuses.
   */
  datatype Provider<!E> = Provider(
    prepare: E -> (E, Fetched),
    cpu: E -> Cpu,
    resume: (E, Cpu, Status) -> (E, nat),
    full: E -> E)

  datatype Ending<E> = Ending(state: E, status: nat)

  const CONTINUE := 0
  const BUDGET := 5
  const CODE_FULL := 6

  /** The retired count is a 64-bit counter. */
  function Wrap(v: int): (n: nat)
    ensures n < Pow2(64)
  {
    v % Pow2(64)
  }

  /**
   * Preparing a turn retires nothing; the dispatch keeps what native code retired, and a step in software that lets
   * the run go on retires the one instruction that native code did not.
   */
  predicate Dispatches<E>(p: Provider<E>, e: E, cpu: Cpu, status: Status)
  {
    var (after, end) := p.resume(e, cpu, status);
    && p.cpu(p.prepare(e).0).retired == p.cpu(e).retired
    && (end == CONTINUE ==>
          !status.Halt? && p.cpu(after).retired == if status.Next? then cpu.retired else Wrap(cpu.retired + 1))
  }

  ghost predicate Contract<E(!new)>(p: Provider<E>)
  {
    forall e: E, cpu: Cpu, status: Status :: Dispatches(p, e, cpu, status)
  }

  // ---------- Native code ----------

  /** The host as native code finds it. */
  function Enter(cpu: Cpu): (k: Host)
  {
    Host(Zeros(64), Zeros(64), Data(Zeros(64)), Zeros(64), Pointer, Unknown, cpu)
  }

  function KeyOf(cpu: Cpu, word: bv32): (key: Key)
  {
    Key(Val(cpu.pc), word, cpu.state.special.level)
  }

  /** Whether a status says that the word itself was retired. */
  predicate Retires(status: Status)
  {
    status.Next? || status.Halt?
  }

  /** The code of one word always returns, and has retired it or not as its status says. */
  lemma TranslationReturns(key: Key, h: Host)
    requires h.rcx.Pointer?
    ensures var o := Run(Translation(key), h);
      o.Done? && o.h.cpu.retired == Retire(h.cpu.retired, if Retires(o.status) then 1 else 0)
  {
    hide Run, Translate, BlockProofs.Profile, FromInt, Finish, Pow2;
    var cfg := Config(key.el, 0, false, false, false, false, false);
    var piece := Translate(key.word, key.pc, 0, cfg);
    var effect := BlockProofs.Profile(h.cpu.state, key.pc, cfg, key.word);
    var end := Finish(Onward(key.pc), 1, Next);
    BlockProofs.TranslateMeets(key.word, key.pc, 0, cfg, h);
    FaultsStop(h.cpu.state, key.pc, cfg, key.word);
    if effect.Through? {
      var k := Run(piece.ops, h).h;
      FinishAlone(k, Onward(key.pc), 1, Next);
      BlockProofs.FollowedBy(piece.ops, end, h, k, k.cpu.(pc := Onward(key.pc), retired := Retire(k.cpu.retired, 1)), Next);
    } else if effect.Fault? && !piece.ends {
      PairProofs.ReturnsFirst(piece.ops, end, h,
        h.cpu.(state := effect.state, pc := FromInt(key.pc, 64), retired := Retire(h.cpu.retired, 0)), effect.status);
    }
  }

  /** No fault of a word is reported as one of the two statuses that retire it. */
  lemma FaultsStop(r: State, pc: nat, cfg: Config, w: bv32)
    ensures var effect := BlockProofs.Profile(r, pc, cfg, w); effect.Fault? ==> !Retires(effect.status)
  {
    hide BlockProofs.Profile;
    NativeBlocks.ProfileTame(r, pc, cfg, w);
  }

  // ---------- One turn ----------

  /** Instructions retired since the start, as the wrapping counter shows them. */
  function Elapsed<E>(p: Provider<E>, e: E, start: nat): (n: nat)
    ensures n < Pow2(64)
  {
    Wrap(p.cpu(e).retired - start)
  }

  /** Native code for the fetched word, then its dispatch. */
  function Executed<E>(p: Provider<E>, e: E, code: seq<Op>): (r: (E, nat))
    requires Run(code, Enter(p.cpu(e))).Done?
  {
    var o := Run(code, Enter(p.cpu(e)));
    p.resume(e, o.h.cpu, o.status)
  }

  lemma ModPlus(x: int, q: int, m: int)
    requires m > 0
    ensures (m * q + x) % m == x % m
  {
    var t := x / m;
    assert m * (q + t) == m * q + m * t;
    ModUnique(m * q + x, m, q + t, x % m);
  }

  /** Wrapping early or late makes no difference. */
  lemma WrapSum(a: int, b: int)
    ensures Wrap(Wrap(a) + b) == Wrap(a + b)
  {
    hide Pow2;
    var m := Pow2(64);
    var q, r := a / m, a % m;
    assert a + b == m * q + (r + b);
    ModPlus(r + b, q, m);
  }

  lemma RetireWraps(retired: nat, count: nat)
    ensures Retire(retired, count) == Wrap(retired + count)
  {
  }

  /** What a dispatch adds to the count of the native code it follows. */
  lemma ResumeRetires<E(!new)>(p: Provider<E>, e: E, cpu: Cpu, status: Status, before: nat, start: nat)
    requires Contract(p) && cpu.retired == Retire(before, if Retires(status) then 1 else 0)
    ensures var (after, end) := p.resume(e, cpu, status);
      end == CONTINUE ==> Elapsed(p, after, start) == Wrap(Wrap(before - start) + 1)
  {
    hide Wrap, Retire;
    assert Dispatches(p, e, cpu, status);
    RetireWraps(before, 0);
    RetireWraps(before, 1);
    WrapSum(before + 0, 1);
    var back: int := 0 - start;
    WrapSum(before + 1, back);
    WrapSum(before - start, 1);
    assert before + 1 + back == before - start + 1;
  }

  /** A turn that goes on has retired exactly one instruction, in native code or in the step that followed it. */
  lemma TurnRetires<E(!new)>(p: Provider<E>, e: E, word: bv32, start: nat)
    requires Contract(p)
    ensures var key := KeyOf(p.cpu(e), word);
      && Run(Translation(key), Enter(p.cpu(e))).Done?
      && (Executed(p, e, Translation(key)).1 == CONTINUE ==>
            Elapsed(p, Executed(p, e, Translation(key)).0, start) == Wrap(Elapsed(p, e, start) + 1))
  {
    hide Run, Translation, Contract, Retire, Retires, KeyOf, Wrap;
    var key := KeyOf(p.cpu(e), word);
    TranslationReturns(key, Enter(p.cpu(e)));
    var o := Run(Translation(key), Enter(p.cpu(e)));
    ResumeRetires(p, e, o.h.cpu, o.status, p.cpu(e).retired, start);
  }

  lemma PrepareRetires<E(!new)>(p: Provider<E>, e: E, start: nat)
    requires Contract(p)
    ensures Elapsed(p, p.prepare(e).0, start) == Elapsed(p, e, start)
  {
    assert Dispatches(p, e, p.cpu(e), Next);
  }

  /** One turn of the loop with budget left: it can be run, and if it goes on less budget is left. */
  lemma TurnProgress<E(!new)>(p: Provider<E>, e: E, word: bv32, start: nat, budget: nat)
    requires Contract(p) && Elapsed(p, e, start) < budget < Pow2(64)
    ensures var ready := p.prepare(e).0;
      var code := Translation(KeyOf(p.cpu(ready), word));
      && Run(code, Enter(p.cpu(ready))).Done?
      && (Executed(p, ready, code).1 == CONTINUE ==> Elapsed(p, Executed(p, ready, code).0, start) == Elapsed(p, e, start) + 1)
  {
    hide Run, Translation, Pow2, Contract, KeyOf, Executed, Elapsed, Wrap;
    PrepareRetires(p, e, start);
    TurnRetires(p, p.prepare(e).0, word, start);
    SmallMod(Elapsed(p, e, start) + 1);
  }

  // ---------- The run ----------

  /** The run without a cache: every turn translates into a buffer of the given capacity. */
  function Uncached<E(!new)>(p: Provider<E>, e: E, start: nat, budget: nat, capacity: nat): (ending: Ending<E>)
    requires Contract(p) && budget < Pow2(64)
    decreases budget - Elapsed(p, e, start)
  {
    if Elapsed(p, e, start) >= budget then Ending(e, BUDGET) else
    var (ready, fetched) := p.prepare(e);
    if fetched.Failed? then Ending(ready, fetched.status) else
    var code := Translation(KeyOf(p.cpu(ready), fetched.word));
    if |code| > capacity then Ending(p.full(ready), CODE_FULL) else
    TurnProgress(p, e, fetched.word, start, budget);
    var (done, status) := Executed(p, ready, code);
    if status != CONTINUE then Ending(done, status) else Uncached(p, done, start, budget, capacity)
  }

  lemma SmallMod(v: nat)
    ensures v < Pow2(64) ==> Wrap(v) == v
  {
    hide Pow2;
    if v < Pow2(64) { ModUnique(v, Pow2(64), 0, v); }
  }

  /** The cached run ends exactly as the run without a cache does. */
  method RunProvider<E(!new)>(p: Provider<E>, begin: E, budget: nat, code: array<Op>, slotSize: nat) returns (final: Ending<E>)
    requires slotSize > 0 && Contract(p) && budget < Pow2(64)
    modifies code
    ensures final == Uncached(p, begin, p.cpu(begin).retired, budget, code.Length)
  {
    hide Translation, Run, Contract, Dispatches, Pow2;
    var cache := new Cache(code, slotSize);
    var e, start := begin, p.cpu(begin).retired;
    while Elapsed(p, e, start) < budget
      invariant cache.Valid() && cache.code == code && fresh(cache) && fresh(cache.entries)
      invariant Uncached(p, e, start, budget, code.Length) == Uncached(p, begin, start, budget, code.Length)
      decreases budget - Elapsed(p, e, start)
    {
      var (ready, fetched) := p.prepare(e);
      if fetched.Failed? {
        return Ending(ready, fetched.status);
      }
      var placed := cache.Obtain(KeyOf(p.cpu(ready), fetched.word));
      if placed.None? {
        return Ending(p.full(ready), CODE_FULL);
      }
      TurnProgress(p, e, fetched.word, start, budget);
      var (done, status) := Executed(p, ready, code[placed.value.base..placed.value.base + placed.value.used]);
      if status != CONTINUE {
        return Ending(done, status);
      }
      e := done;
    }
    final := Ending(e, BUDGET);
  }

  /** The contract can be met: a guest whose every word is the same, with no step in software. */
  function RepeatingProvider(word: bv32): (provider: Provider<Cpu>)
  {
    Provider((c: Cpu) => (c, Word(word)), (c: Cpu) => c, (c: Cpu, after: Cpu, s: Status) => (after, if s.Next? then CONTINUE else 8), (c: Cpu) => c)
  }

  lemma ContractIsMet(word: bv32)
    ensures Contract(RepeatingProvider(word))
  {
    hide Pow2;
    forall e: Cpu, cpu: Cpu, status: Status | true ensures Dispatches(RepeatingProvider(word), e, cpu, status) {
    }
  }
}
