/** What a bank keeps: printing and parsing are inverse, and the sums catch any one changed byte. */
module NvramProofs {
  import opened Basics
  import opened LittleEndian
  import opened NvramImage

  // ---------- Headers ----------

  lemma {:induction false} ChecksumSkips(h: seq<u8>, g: seq<u8>, n: nat)
    requires |h| == |g| == 16 && h[0] == g[0] && h[2..] == g[2..] && n <= 14
    ensures ChecksumUpTo(h, n) == ChecksumUpTo(g, n)
    decreases n
  {
    if n > 0 {
      ChecksumSkips(h, g, n - 1);
      assert h[1 + n] == h[2..][n - 1] && g[1 + n] == g[2..][n - 1];
    }
  }

  /** A printed header carries its own checksum. */
  lemma HeaderChecks(sig: u8, units: nat, name: seq<u8>)
    requires |name| == 12
    ensures var h := Header(sig, units, name);
      && h[1] == Checksum(h) && h[0] == sig && h[4..] == name
      && (units < 0x1_0000 ==> (h[2] as int) * 256 + h[3] == units)
  {
    hide ChecksumUpTo;
    var h := Header(sig, units, name);
    var blank: seq<u8> := [sig, 0, units / 256 % 256, units % 256] + name;
    assert h[2..] == [units / 256 % 256, units % 256] + name == blank[2..];
    ChecksumSkips(h, blank, 14);
  }

  /** A header found where it was printed. */
  lemma LookAtHeader(pre: seq<u8>, sig: u8, units: nat, name: seq<u8>, rest: seq<u8>)
    requires |name| == 12 && (sig == FREE_SIG || 1 <= units < 0x1_0000)
    ensures var buf := pre + Header(sig, units, name) + rest;
      && buf[|pre|] == sig && buf[|pre| + 4..|pre| + 16] == name
      && Look(buf, |pre|) == (if sig == FREE_SIG then Free
                              else if units * 0x10 > 16 + |rest| then Bad else Partition(units))
  {
    hide Checksum;
    var h := Header(sig, units, name);
    var buf := pre + h + rest;
    HeaderChecks(sig, units, name);
    assert buf[|pre|..|pre| + 16] == h;
    assert buf[|pre|] == h[0];
    assert buf[|pre| + 4..|pre| + 16] == h[4..];
  }

  // ---------- Concatenation ----------

  lemma Regroup(a: seq<u8>, b: seq<u8>, c: seq<u8>, d: seq<u8>)
    ensures a + (b + c) + d == a + b + (c + d)
  {
  }

  lemma RegroupBank(head: seq<u8>, sum: seq<u8>, a: seq<u8>, b: seq<u8>, c: seq<u8>, d: seq<u8>)
    ensures head + sum + (a + b + c + d) == head + sum + (a + b) + c + d
  {
  }

  // ---------- Partitions ----------

  /** Partitions the format can carry: not free, not the panic partition, whole units. */
  predicate Carried(p: Part)
  {
    Storable(p) && p.sig != FREE_SIG && p.name != PANIC_NAME && |p.data| % 0x10 == 0
  }

  predicate AllCarried(parts: seq<Part>)
  {
    forall i :: 0 <= i < |parts| ==> Carried(parts[i])
  }

  function NonEmpty(parts: seq<Part>): (r: seq<Part>)
    ensures |r| <= |parts|
    decreases |parts|
  {
    if parts == [] then []
    else (if parts[0].data == [] then [] else [parts[0]]) + NonEmpty(parts[1..])
  }

  /** One printed partition reads back as itself. */
  lemma PartReads(pre: seq<u8>, p: Part, post: seq<u8>, acc: seq<Part>)
    requires Carried(p) && p.data != [] && |acc| < MAX_PARTS
    ensures var buf := pre + PartBytes(p) + post;
      ParseParts(buf, |pre|, acc) == ParseParts(buf, |pre| + |PartBytes(p)|, acc + [p])
  {
    hide Header, Checksum, Look, PartBytes, ParseParts, PartAt, Units;
    var units := Units(|p.data|);
    WholeUnits(p);
    var header := Header(p.sig, units, p.name);
    Regroup(pre, header, p.data, post);
    LookAtHeader(pre, p.sig, units, p.name, p.data + post);
    PartThere(pre, header, p, post, units);
    ParseTakes(pre + PartBytes(p) + post, |pre|, units, p, acc);
  }

  lemma PartThere(pre: seq<u8>, header: seq<u8>, p: Part, post: seq<u8>, units: nat)
    requires |header| == 16 && 1 <= units && 0x10 * units == |p.data| + 0x10
    requires var buf := pre + header + (p.data + post); buf[|pre|] == p.sig && buf[|pre| + 4..|pre| + 16] == p.name
    ensures PartAt(pre + header + (p.data + post), |pre|, units) == p
  {
    var buf := pre + header + (p.data + post);
    assert buf[|pre| + 0x10..|pre| + units * 0x10] == p.data;
  }

  /** A partition of whole units is printed without padding. */
  lemma WholeUnits(p: Part)
    requires Carried(p) && p.data != []
    ensures var units := Units(|p.data|);
      1 <= units < 0x1_0000 && 0x10 * units == |p.data| + 0x10 && PartBytes(p) == Header(p.sig, units, p.name) + p.data
  {
    hide Header;
    assert NvramImage.Zeros(0) == [];
  }

  lemma ParseTakes(buf: seq<u8>, offset: nat, units: nat, p: Part, acc: seq<Part>)
    requires offset + 16 <= |buf| && Look(buf, offset) == Partition(units) && PartAt(buf, offset, units) == p
    requires Carried(p) && |acc| < MAX_PARTS
    ensures ParseParts(buf, offset, acc) == ParseParts(buf, offset + units * 0x10, acc + [p])
  {
    hide Look, PartAt;
  }

  lemma {:induction false} PartsRead(pre: seq<u8>, parts: seq<Part>, post: seq<u8>, acc: seq<Part>)
    requires AllCarried(parts) && |acc| + |NonEmpty(parts)| <= MAX_PARTS
    ensures var buf := pre + PartsBytes(parts) + post;
      ParseParts(buf, |pre|, acc) == ParseParts(buf, |pre| + |PartsBytes(parts)|, acc + NonEmpty(parts))
    decreases |parts|
  {
    hide ParseParts, PartBytes, Carried;
    if parts == [] {
      assert acc + [] == acc;
    } else {
      assert Carried(parts[0]);
      assert AllCarried(parts[1..]);
      CarriedStorable(parts);
      var rest := PartsBytes(parts[1..]);
      if parts[0].data == [] {
        PartsRead(pre, parts[1..], post, acc);
        assert [] + rest == rest && [] + NonEmpty(parts[1..]) == NonEmpty(parts[1..]);
      } else {
        var first := PartBytes(parts[0]);
        PartReads(pre, parts[0], rest + post, acc);
        PartsRead(pre + first, parts[1..], post, acc + [parts[0]]);
        assert pre + (first + rest) + post == pre + first + (rest + post) == pre + first + rest + post;
        assert acc + [parts[0]] + NonEmpty(parts[1..]) == acc + ([parts[0]] + NonEmpty(parts[1..]));
      }
    }
  }

  lemma CarriedStorable(parts: seq<Part>)
    requires AllCarried(parts)
    ensures AllStorable(parts)
  {
  }

  /** The free space ends the list. */
  lemma FreeEnds(pre: seq<u8>, room: nat, acc: seq<Part>)
    ensures ParseParts(pre + FreeBytes(room), |pre|, acc) == Some(acc)
  {
    hide Header, Checksum;
    if 0x10 <= room {
      assert pre + FreeBytes(room) == pre + Header(FREE_SIG, room / 0x10, NvramImage.Zeros(12)) + NvramImage.Zeros(room - 0x10);
      LookAtHeader(pre, FREE_SIG, room / 0x10, NvramImage.Zeros(12), NvramImage.Zeros(room - 0x10));
    }
  }

  // ---------- Adler-32 ----------

  lemma {:induction false} SumsBounded(s: (nat, nat), bytes: seq<u8>)
    requires s.0 < ADLER_MOD && s.1 < ADLER_MOD
    ensures AdlerSums(s, bytes).0 < ADLER_MOD && AdlerSums(s, bytes).1 < ADLER_MOD
    decreases |bytes|
  {
    if bytes != [] {
      SumsBounded(AdlerStep(s, bytes[0]), bytes[1..]);
    }
  }

  /** Different first sums stay different under the same bytes. */
  lemma {:induction false} FirstSumInjective(s: (nat, nat), t: (nat, nat), bytes: seq<u8>)
    requires s.0 < ADLER_MOD && t.0 < ADLER_MOD && s.0 != t.0
    ensures AdlerSums(s, bytes).0 != AdlerSums(t, bytes).0
    decreases |bytes|
  {
    if bytes != [] {
      FirstSumInjective(AdlerStep(s, bytes[0]), AdlerStep(t, bytes[0]), bytes[1..]);
    }
  }

  lemma {:induction false} OneByteChangesSum(s: (nat, nat), bytes: seq<u8>, k: nat, b: u8)
    requires s.0 < ADLER_MOD && k < |bytes| && bytes[k] != b
    ensures AdlerSums(s, bytes[k := b]).0 != AdlerSums(s, bytes).0
    decreases k
  {
    if k == 0 {
      assert bytes[0 := b][1..] == bytes[1..];
      FirstSumInjective(AdlerStep(s, b), AdlerStep(s, bytes[0]), bytes[1..]);
    } else {
      assert bytes[k := b][1..] == bytes[1..][k - 1 := b];
      OneByteChangesSum(AdlerStep(s, bytes[0]), bytes[1..], k - 1, b);
    }
  }

  /** Changing any one byte changes the Adler-32 sum. */
  lemma OneByteChangesAdler(bytes: seq<u8>, k: nat, b: u8)
    requires k < |bytes| && bytes[k] != b
    ensures Adler(bytes[k := b]) != Adler(bytes)
  {
    hide AdlerSums;
    OneByteChangesSum((1, 0), bytes, k, b);
    SumsBounded((1, 0), bytes);
    SumsBounded((1, 0), bytes[k := b]);
  }

  lemma AdlerFits(bytes: seq<u8>)
    ensures Adler(bytes) < 0x1_0000_0000
  {
    hide AdlerSums;
    SumsBounded((1, 0), bytes);
  }

  /** Changing any one byte from offset 0x10 on of an accepted bank makes parsing refuse it. */
  lemma OneByteRefused(buf: seq<u8>, k: nat, b: u8)
    requires !Parse(buf).Refused? && 0x10 <= k < |buf| && buf[k] != b
    ensures Parse(buf[k := b]).Refused?
  {
    hide Adler, Checksum, ParseParts, LoadEnv, FindCommon;
    var buf' := buf[k := b];
    if k < 0x14 {
      assert buf'[0x14..] == buf[0x14..];
      var x, y := buf[0x10..0x14], buf'[0x10..0x14];
      assert y[k - 0x10] != x[k - 0x10];
      FourBytes(x);
      FourBytes(y);
    } else {
      assert buf'[0x10..0x14] == buf[0x10..0x14];
      assert buf'[0x14..] == buf[0x14..][k - 0x14 := b];
      OneByteChangesAdler(buf[0x14..], k - 0x14, b);
    }
  }

  // ---------- Variables ----------

  predicate FreeOf(s: seq<u8>, a: u8, b: u8)
  {
    forall i :: 0 <= i < |s| ==> s[i] != a && s[i] != b
  }

  /** A variable the text form can carry: no terminator inside, no equals sign in the name. */
  predicate Plain(e: Env)
  {
    && 0 < |e.name| < NAME_MAX && FreeOf(e.name, 0, EQUALS)
    && |e.value| < VALUE_MAX && FreeOf(e.value, 0, 0) && e.parsed == ParseUint(e.value)
  }

  /** A variable the interface can set: strings within their limits; the name may hold an equals sign. */
  predicate Settable(e: Env)
  {
    && 0 < |e.name| < NAME_MAX && FreeOf(e.name, 0, 0)
    && |e.value| < VALUE_MAX && FreeOf(e.value, 0, 0) && e.parsed == ParseUint(e.value)
  }

  predicate AllSettable(env: seq<Env>)
  {
    forall i :: 0 <= i < |env| ==> Settable(env[i])
  }

  predicate NoEquals(env: seq<Env>)
  {
    forall i :: 0 <= i < |env| ==> EQUALS !in env[i].name
  }

  lemma PlainIsSettable(env: seq<Env>)
    ensures AllPlain(env) <==> AllSettable(env) && NoEquals(env)
  {
    hide ParseUint;
    if AllSettable(env) && NoEquals(env) {
      forall i | 0 <= i < |env| ensures Plain(env[i]) {
        assert Settable(env[i]) && EQUALS !in env[i].name;
      }
    }
  }

  predicate AllPlain(env: seq<Env>)
  {
    forall i :: 0 <= i < |env| ==> Plain(env[i])
  }

  predicate Distinct(env: seq<Env>)
  {
    forall i, j :: 0 <= i < j < |env| ==> env[i].name != env[j].name
  }

  /** The flags are not part of the text form. */
  function Unflagged(env: seq<Env>): (r: seq<Env>)
    ensures |r| == |env|
  {
    seq(|env|, i requires 0 <= i < |env| => env[i].(flags := 0))
  }

  lemma {:induction false} RunLengthAt(s: seq<u8>, n: nat, a: u8, b: u8)
    requires n < |s| && (s[n] == a || s[n] == b) && FreeOf(s[..n], a, b)
    ensures RunLength(s, a, b) == n
  {
    forall i | 0 <= i < n ensures s[i] != a && s[i] != b {
      assert s[i] == s[..n][i];
    }
  }

  /** Reading one printed variable adds it. */
  lemma EntryLoads(e: Env, rest: seq<u8>, acc: seq<Env>)
    requires Plain(e) && |acc| < MAX_ENV && (forall i :: 0 <= i < |acc| ==> acc[i].name != e.name)
    ensures LoadEnv(Entry(e) + rest, acc) == LoadEnv(rest, acc + [e.(flags := 0)])
  {
    hide RunLength, ParseUint, LoadEnv, Set;
    var data := Entry(e) + rest;
    var n := |e.name|;
    EntryShape(e, rest);
    RunLengthAt(data, n, 0, EQUALS);
    var after := data[n + 1..];
    RunLengthAt(after, |e.value|, 0, 0);
    SetAppends(e, acc);
    LoadStep(data, acc, n, |e.value|);
  }

  /** Where the parts of a printed variable are. */
  lemma EntryShape(e: Env, rest: seq<u8>)
    requires Plain(e)
    ensures var data := Entry(e) + rest;
      var n, v := |e.name|, |e.value|;
      && n + v + 2 <= |data| && data[n] == EQUALS && data[..n] == e.name && data[0] != 0
      && data[n + 1..][v] == 0 && data[n + 1..][..v] == e.value && data[n + 1..][v + 1..] == rest
  {
    var data := Entry(e) + rest;
    assert data[0] == e.name[0];
    assert data[|e.name| + 1..] == e.value + [0] + rest;
  }

  lemma SetAppends(e: Env, acc: seq<Env>)
    requires Plain(e) && |acc| < MAX_ENV && (forall i :: 0 <= i < |acc| ==> acc[i].name != e.name)
    ensures Set(acc, e.name, e.value, 0) == Some(acc + [e.(flags := 0)])
  {
    hide ParseUint;
    NotFound(acc, e.name);
  }

  /** One turn of the reader. */
  lemma LoadStep(data: seq<u8>, acc: seq<Env>, n: nat, v: nat)
    requires data != [] && data[0] != 0 && n == RunLength(data, 0, EQUALS) < |data| && data[n] == EQUALS
    requires v == RunLength(data[n + 1..], 0, 0) < |data| - n - 1 && n < NAME_MAX && v < VALUE_MAX
    requires Set(acc, data[..n], data[n + 1..][..v], 0).Some?
    ensures LoadEnv(data, acc) == LoadEnv(data[n + 1..][v + 1..], Set(acc, data[..n], data[n + 1..][..v], 0).value)
  {
    hide RunLength, Set;
  }

  lemma NotFound(env: seq<Env>, name: seq<u8>)
    requires forall i :: 0 <= i < |env| ==> env[i].name != name
    ensures Unset(env, name) == env
  {
  }

  /** Reading printed variables, up to the terminator or the end, restores them in order. */
  lemma {:induction false} EnvLoads(env: seq<Env>, rest: seq<u8>, acc: seq<Env>)
    requires AllPlain(env) && Distinct(env) && |acc| + |env| <= MAX_ENV && (rest == [] || rest[0] == 0)
    requires forall i, j :: 0 <= i < |acc| && 0 <= j < |env| ==> acc[i].name != env[j].name
    ensures LoadEnv(EnvBytes(env) + rest, acc) == Some(acc + Unflagged(env))
    decreases |env|
  {
    hide LoadEnv, Entry, Plain;
    if env == [] {
      assert [] + rest == rest && acc + Unflagged([]) == acc;
      EndLoads(rest, acc);
    } else {
      var e, tail := env[0], env[1..];
      assert Plain(e);
      Regroup([], Entry(e), EnvBytes(tail), rest);
      assert [] + (Entry(e) + EnvBytes(tail)) == Entry(e) + EnvBytes(tail) && [] + Entry(e) == Entry(e);
      EntryLoads(e, EnvBytes(tail) + rest, acc);
      forall i, j | 0 <= i < |acc + [e.(flags := 0)]| && 0 <= j < |tail| ensures (acc + [e.(flags := 0)])[i].name != tail[j].name {
        assert tail[j] == env[j + 1];
      }
      EnvLoads(tail, rest, acc + [e.(flags := 0)]);
      assert acc + [e.(flags := 0)] + Unflagged(tail) == acc + Unflagged(env);
    }
  }

  lemma EndLoads(rest: seq<u8>, acc: seq<Env>)
    requires rest == [] || rest[0] == 0
    ensures LoadEnv(rest, acc) == Some(acc)
  {
  }

  // ---------- States a bank can carry ----------

  predicate Printable(s: Nvram)
  {
    AllCarried(s.parts) && |s.parts| <= MAX_PARTS && AllPlain(s.env) && Distinct(s.env) && |s.env| <= MAX_ENV
  }

  /** A state the object can be in: every partition came from a bank or is the fresh one, every variable was set or read. */
  predicate Holdable(s: Nvram)
  {
    AllCarried(s.parts) && |s.parts| <= MAX_PARTS && AllSettable(s.env) && Distinct(s.env) && |s.env| <= MAX_ENV
  }

  lemma FreshCarried()
    ensures Carried(Part(COMMON_SIG, COMMON_NAME, NvramImage.Zeros(COMMON_LEN)))
    ensures IsCommon(COMMON_NAME) && Printable(FRESH)
  {
    assert COMMON_NAME[0] != PANIC_NAME[0];
  }

  /** The printed partitions: carried, with the first common one holding the variables. */
  lemma PrintedFacts(s: Nvram)
    requires Holdable(s) && Printed(s).Some?
    ensures var parts := Printed(s).value;
      var at := FindCommon(parts);
      && AllCarried(parts) && |parts| <= MAX_PARTS && at < |parts|
      && EnsureCommon(s.parts).Some? && |EnsureCommon(s.parts).value| == |parts|
      && CommonData(EnsureCommon(s.parts).value[at].data, s.env) == Some(parts[at].data)
  {
    hide EnvBytes, CommonData;
    FreshCarried();
    var before := EnsureCommon(s.parts).value;
    assert AllCarried(before);
    var at := FindCommon(before);
    var parts := Printed(s).value;
    SameNames(before, parts);
    assert Carried(before[at]);
  }

  /** The search reads names only. */
  lemma SameNames(a: seq<Part>, b: seq<Part>)
    requires |a| == |b| && forall i :: 0 <= i < |a| ==> a[i].name == b[i].name
    ensures FindCommon(a) == FindCommon(b)
  {
  }

  /** Dropping empty partitions keeps the first common one, if it has data. */
  lemma {:induction false} CommonSurvives(parts: seq<Part>)
    requires FindCommon(parts) < |parts| && parts[FindCommon(parts)].data != []
    ensures var r := NonEmpty(parts); FindCommon(r) < |r| && r[FindCommon(r)] == parts[FindCommon(parts)]
    decreases |parts|
  {
    hide IsCommon;
    if !IsCommon(parts[0].name) {
      CommonSurvives(parts[1..]);
      var rest := NonEmpty(parts[1..]);
      if parts[0].data == [] {
        assert NonEmpty(parts) == [] + rest == rest;
      } else {
        assert NonEmpty(parts) == [parts[0]] + rest;
        assert NonEmpty(parts)[1..] == rest;
      }
    } else {
      assert NonEmpty(parts) == [parts[0]] + NonEmpty(parts[1..]);
    }
  }

  /** A printed bank passes its sums and reads back its generation. */
  lemma BankGuarded(generation: u32, parts: seq<Part>, bankLen: nat)
    requires AllStorable(parts) && Bank(generation, parts, bankLen).Some?
    ensures var buf := Bank(generation, parts, bankLen).value;
      Guarded(buf) && Assemble(buf[0x14..0x18]) == generation
  {
    hide Header, Checksum, PartsBytes, FreeBytes, Encode, Adler;
    var tail := Tail(generation, parts, bankLen);
    var head := Header(BANK_SIG, 2, BANK_NAME);
    var sum := Encode(Adler(tail), 4);
    var buf := Bank(generation, parts, bankLen).value;
    HeaderChecks(BANK_SIG, 2, BANK_NAME);
    assert buf == head + sum + tail;
    assert buf[..16] == head;
    assert buf[0x14..] == tail;
    assert buf[0x10..0x14] == sum;
    FourPowers();
    AdlerFits(tail);
    AssembleEncode(Adler(tail), 4);
    assert tail[..4] == Encode(generation, 4);
    assert buf[0x14..0x18] == tail[..4];
    AssembleEncode(generation, 4);
  }

  /** The thirty-two bytes before the partitions, and what follows them. */
  lemma BankLayout(generation: u32, parts: seq<Part>, bankLen: nat) returns (pre: seq<u8>)
    requires AllStorable(parts) && Bank(generation, parts, bankLen).Some?
    ensures |pre| == 0x20 && 0x20 + |PartsBytes(parts)| <= bankLen
    ensures Bank(generation, parts, bankLen).value
      == pre + PartsBytes(parts) + FreeBytes(bankLen - 0x20 - |PartsBytes(parts)|)
  {
    hide Header, PartsBytes, FreeBytes, Encode, Adler, AllStorable;
    var head, sum := Header(BANK_SIG, 2, BANK_NAME), Encode(Adler(Tail(generation, parts, bankLen)), 4);
    pre := head + sum + (Encode(generation, 4) + NvramImage.Zeros(8));
    RegroupBank(head, sum, Encode(generation, 4), NvramImage.Zeros(8), PartsBytes(parts),
      FreeBytes(bankLen - 0x20 - |PartsBytes(parts)|));
  }

  /** And its partitions, but for the empty ones. */
  lemma BankParts(generation: u32, parts: seq<Part>, bankLen: nat)
    requires AllCarried(parts) && |parts| <= MAX_PARTS && AllStorable(parts) && Bank(generation, parts, bankLen).Some?
    ensures ParseParts(Bank(generation, parts, bankLen).value, 0x20, []) == Some(NonEmpty(parts))
  {
    hide Header, PartsBytes, FreeBytes, ParseParts, Encode, Adler, Carried, Bank, AllCarried, AllStorable;
    var pre := BankLayout(generation, parts, bankLen);
    var room := bankLen - 0x20 - |PartsBytes(parts)|;
    PartsRead(pre, parts, FreeBytes(room), []);
    FreeEnds(pre + PartsBytes(parts), room, [] + NonEmpty(parts));
    assert [] + NonEmpty(parts) == NonEmpty(parts);
  }

  lemma FourPowers()
    ensures Pow256(4) == 0x1_0000_0000
  {
    assert Pow256(4) == 256 * Pow256(3) && Pow256(3) == 256 * Pow256(2) && Pow256(2) == 256 * Pow256(1);
  }

  /** What a reader of the bank recovers: everything but the flags and the empty partitions. */
  function Restored(s: Nvram, n: nat): (nvram: Nvram)
    requires AllStorable(s.parts) && Printed(s).Some?
  {
    Nvram(Unflagged(s.env), NonEmpty(Printed(s).value), n, s.generation)
  }

  /** The partition that the variables are printed into. */
  function Target(parts: seq<Part>): (r: Option<Part>)
  {
    var all := EnsureCommon(parts);
    if all.None? || FindCommon(all.value) >= |all.value| then None else Some(all.value[FindCommon(all.value)])
  }

  /** The common partition that a reader will find among those printed: empty ones are not printed. */
  function FoundAgain(parts: seq<Part>): (r: Option<Part>)
  {
    var all := EnsureCommon(parts);
    if all.None? then None else
    var kept := NonEmpty(all.value);
    if FindCommon(kept) >= |kept| then None else Some(kept[FindCommon(kept)])
  }

  /**
   * Whether the partitions can carry their variables: the first common one has data, or it is empty
   * and the next one that is printed starts with a terminator.
   */
  predicate CommonCarries(parts: seq<Part>)
  {
    && Target(parts).Some?
    && (Target(parts).value.data != []
        || (FoundAgain(parts).Some? && FoundAgain(parts).value.data != [] && FoundAgain(parts).value.data[0] == 0))
  }

  /** The variables read back out of the data they were printed into. */
  lemma CommonLoads(data: seq<u8>, env: seq<Env>)
    requires AllPlain(env) && Distinct(env) && |env| <= MAX_ENV && CommonData(data, env).Some?
    ensures LoadEnv(CommonData(data, env).value, []) == Some(Unflagged(env))
  {
    hide LoadEnv, EnvBytes, AllPlain;
    var bytes := EnvBytes(env);
    var rest := if |bytes| == |data| then [] else [0] + data[|bytes| + 1..];
    EnvLoads(env, rest, []);
    assert CommonData(data, env).value == bytes + rest;
    assert [] + Unflagged(env) == Unflagged(env);
  }

  // ---------- What a printed variable is read as ----------

  /** A printed name and value, split where the reader splits them: at the first equals sign. */
  function Split(e: Env): (r: (seq<u8>, seq<u8>))
  {
    var k := RunLength(e.name, EQUALS, EQUALS);
    if k == |e.name| then (e.name, e.value) else (e.name[..k], e.name[k + 1..] + [EQUALS] + e.value)
  }

  /** The variables a reader makes of printed ones: each split, set in order, or refused. */
  function Reread(env: seq<Env>, acc: seq<Env>): (r: Option<seq<Env>>)
    decreases |env|
  {
    if env == [] then Some(acc) else
    var after := Set(acc, Split(env[0]).0, Split(env[0]).1, 0);
    if after.None? then None else Reread(env[1..], after.value)
  }

  /** Where the reader finds the parts of any printed variable. */
  lemma SplitShape(e: Env, rest: seq<u8>)
    requires Settable(e)
    ensures var (name, value) := Split(e);
      var data := Entry(e) + rest;
      && |name| + |value| + 2 <= |data| && data[0] != 0 && |name| < NAME_MAX
      && RunLength(data, 0, EQUALS) == |name| && data[|name|] == EQUALS && data[..|name|] == name
      && RunLength(data[|name| + 1..], 0, 0) == |value|
      && data[|name| + 1..][..|value|] == value && data[|name| + 1..][|value| + 1..] == rest
  {
    hide RunLength, ParseUint;
    var (name, value) := Split(e);
    var data := Entry(e) + rest;
    SplitParts(e);
    assert data == name + [EQUALS] + (value + [0] + rest);
    assert data[..|name|] == name;
    RunLengthAt(data, |name|, 0, EQUALS);
    var after := data[|name| + 1..];
    assert after == value + [0] + rest;
    assert after[..|value|] == value;
    RunLengthAt(after, |value|, 0, 0);
  }

  lemma SplitParts(e: Env)
    requires Settable(e)
    ensures var (name, value) := Split(e);
      && Entry(e) == name + [EQUALS] + value + [0] && |name| < NAME_MAX && FreeOf(name, 0, EQUALS) && FreeOf(value, 0, 0)
      && (|name| == 0 ==> e.name[0] == EQUALS)
  {
    hide ParseUint;
    var k := RunLength(e.name, EQUALS, EQUALS);
    if k < |e.name| {
      assert e.name == e.name[..k] + [EQUALS] + e.name[k + 1..];
    }
  }

  /** Reading any printed variable sets its split form. */
  lemma SplitLoads(e: Env, rest: seq<u8>, acc: seq<Env>)
    requires Settable(e)
    ensures var after := Set(acc, Split(e).0, Split(e).1, 0);
      LoadEnv(Entry(e) + rest, acc) == if after.None? then None else LoadEnv(rest, after.value)
  {
    SplitShape(e, rest);
    LoadTurn(Entry(e) + rest, acc, |Split(e).0|, |Split(e).1|);
  }

  /** One turn of the reader, refusals included. */
  lemma LoadTurn(data: seq<u8>, acc: seq<Env>, n: nat, v: nat)
    requires data != [] && data[0] != 0 && n == RunLength(data, 0, EQUALS) < |data| && data[n] == EQUALS && n < NAME_MAX
    requires v == RunLength(data[n + 1..], 0, 0) < |data| - n - 1
    ensures var after := Set(acc, data[..n], data[n + 1..][..v], 0);
      LoadEnv(data, acc) == if after.None? then None else LoadEnv(data[n + 1..][v + 1..], after.value)
  {
    hide RunLength, Unset, ParseUint;
  }

  /** Reading printed variables, whatever their names, is setting their split forms in order. */
  lemma {:induction false} RereadLoads(env: seq<Env>, rest: seq<u8>, acc: seq<Env>)
    requires AllSettable(env) && (rest == [] || rest[0] == 0)
    ensures LoadEnv(EnvBytes(env) + rest, acc) == Reread(env, acc)
    decreases |env|
  {
    hide LoadEnv, Entry, Settable, Set, Split;
    if env == [] {
      assert [] + rest == rest;
      EndLoads(rest, acc);
    } else {
      assert Settable(env[0]);
      assert (Entry(env[0]) + EnvBytes(env[1..])) + rest == Entry(env[0]) + (EnvBytes(env[1..]) + rest);
      SplitLoads(env[0], EnvBytes(env[1..]) + rest, acc);
      var after := Set(acc, Split(env[0]).0, Split(env[0]).1, 0);
      if after.Some? {
        RereadLoads(env[1..], rest, after.value);
      }
    }
  }

  /** The variables read back out of the data they were printed into, whatever their names. */
  lemma CommonRereads(data: seq<u8>, env: seq<Env>)
    requires AllSettable(env) && CommonData(data, env).Some?
    ensures LoadEnv(CommonData(data, env).value, []) == Reread(env, [])
  {
    hide LoadEnv, EnvBytes, AllSettable, Reread;
    var bytes := EnvBytes(env);
    var rest := if |bytes| == |data| then [] else [0] + data[|bytes| + 1..];
    RereadLoads(env, rest, []);
    assert CommonData(data, env).value == bytes + rest;
  }

  /** Variables come back as they were, but for the flags, exactly when no name holds an equals sign. */
  lemma RereadRestores(env: seq<Env>)
    requires AllSettable(env) && Distinct(env) && |env| <= MAX_ENV
    ensures Reread(env, []) == Some(Unflagged(env)) <==> NoEquals(env)
  {
    hide Reread, LoadEnv, Settable, Plain, Distinct;
    PlainIsSettable(env);
    RereadLoads(env, [], []);
    assert EnvBytes(env) + [] == EnvBytes(env);
    if NoEquals(env) {
      EnvLoads(env, [], []);
      assert [] + Unflagged(env) == Unflagged(env);
    } else if Reread(env, []) == Some(Unflagged(env)) {
      assert AllPlain([]) && Distinct([]) by { NothingHeld(); }
      LoadedPlain(EnvBytes(env), []);
      PlainIsSettable(Unflagged(env));
      forall i | 0 <= i < |env| ensures EQUALS !in env[i].name {
        assert Unflagged(env)[i].name == env[i].name;
      }
    }
  }

  lemma NothingHeld()
    ensures AllPlain([]) && Distinct([])
  {
  }

  /** Text that reads as no variables starts with a terminator. */
  lemma ReadsNothing(data: seq<u8>)
    requires data != []
    ensures LoadEnv(data, []) == Some([]) <==> data[0] == 0
  {
    hide Set, RunLength;
    if data[0] != 0 && LoadEnv(data, []).Some? {
      var n := RunLength(data, 0, EQUALS);
      var rest := data[n + 1..];
      var v := RunLength(rest, 0, 0);
      SetHolds([], data[..n], rest[..v]);
      LoadKeeps(rest[v + 1..], Set([], data[..n], rest[..v], 0).value);
    }
  }

  lemma SetHolds(env: seq<Env>, name: seq<u8>, value: seq<u8>)
    ensures Set(env, name, value, 0).Some? ==> Set(env, name, value, 0).value != []
  {
  }

  /** Reading on never leaves fewer than one variable where there was one. */
  lemma {:induction false} LoadKeeps(data: seq<u8>, env: seq<Env>)
    requires env != [] && LoadEnv(data, env).Some?
    ensures LoadEnv(data, env).value != []
    decreases |data|
  {
    hide Set, RunLength;
    if data != [] && data[0] != 0 {
      var n := RunLength(data, 0, EQUALS);
      var rest := data[n + 1..];
      var v := RunLength(rest, 0, 0);
      SetHolds(env, data[..n], rest[..v]);
      LoadKeeps(rest[v + 1..], Set(env, data[..n], rest[..v], 0).value);
    }
  }

  // ---------- The round trip ----------

  /** The variables a reader of the printed bank ends with. */
  function ReadBackEnv(s: Nvram): (r: Option<seq<Env>>)
    requires Target(s.parts).Some?
  {
    if Target(s.parts).value.data != [] then Reread(s.env, [])
    else if FoundAgain(s.parts).Some? then LoadEnv(FoundAgain(s.parts).value.data, []) else Some([])
  }

  /** What parsing a printed state yields, for every state: a fresh one when no common partition was printed. */
  function Reloaded(s: Nvram, n: nat): (parsed: Parsed)
    requires AllStorable(s.parts) && Printed(s).Some? && Target(s.parts).Some?
  {
    if Target(s.parts).value.data == [] && FoundAgain(s.parts).None? then Loaded(FRESH) else
    var env := ReadBackEnv(s);
    if env.None? then Emptied else Loaded(Restored(s, n).(env := env.value))
  }

  lemma TargetThere(s: Nvram)
    requires AllStorable(s.parts) && Printed(s).Some?
    ensures Target(s.parts).Some? && CommonData(Target(s.parts).value.data, s.env).Some?
  {
    hide CommonData;
  }

  lemma PrintsSomething(env: seq<Env>)
    ensures EnvBytes(env) == [] <==> env == []
  {
  }

  /** Variables fit an empty partition only when there are none, and then nothing is written. */
  lemma EmptyTarget(s: Nvram)
    requires AllStorable(s.parts) && Printed(s).Some? && Target(s.parts).Some? && Target(s.parts).value.data == []
    ensures s.env == [] && Printed(s) == EnsureCommon(s.parts)
  {
    hide Header;
    var parts := EnsureCommon(s.parts).value;
    var at := FindCommon(parts);
    PrintsSomething(s.env);
    assert parts[at := parts[at].(data := [])] == parts;
  }

  /** Whatever state is printed, this is what parsing the bytes yields. */
  lemma ParsesAs(s: Nvram, bufLen: nat)
    requires Holdable(s) && AllStorable(s.parts) && Serialize(s, bufLen).Some?
    ensures Target(s.parts).Some?
    ensures var buf := Serialize(s, bufLen).value; Parse(buf) == Reloaded(s, |buf|)
  {
    hide Guarded, ParseParts, LoadEnv, Bank, CommonData, Carried, AllSettable, Printed, EnsureCommon, Reread;
    PrintedFacts(s);
    TargetThere(s);
    var parts := Printed(s).value;
    var at := FindCommon(parts);
    var kept := NonEmpty(parts);
    BankGuarded(s.generation, parts, PrintedLen(s, bufLen));
    BankParts(s.generation, parts, PrintedLen(s, bufLen));
    BankLength(s.generation, parts, PrintedLen(s, bufLen));
    TargetPrinted(s);
    if Target(s.parts).value.data != [] {
      CommonSurvives(parts);
      CommonRereads(Target(s.parts).value.data, s.env);
    } else {
      EmptyTarget(s);
    }
  }

  /** The target partition is printed with the variables in it. */
  lemma TargetPrinted(s: Nvram)
    requires AllStorable(s.parts) && Printed(s).Some? && Target(s.parts).Some?
    ensures var parts := Printed(s).value; var at := FindCommon(parts);
      at < |parts| && CommonData(Target(s.parts).value.data, s.env) == Some(parts[at].data)
      && |parts[at].data| == |Target(s.parts).value.data|
  {
    hide CommonData, EnvBytes;
    SameNames(EnsureCommon(s.parts).value, Printed(s).value);
  }

  /**
   * Printing a state and parsing the bytes restores names, values, order, parsed numbers, generation and
   * partitions if and only if no name holds an equals sign and the partitions can carry the variables.
   */
  lemma RoundTrip(s: Nvram, bufLen: nat)
    requires Holdable(s) && AllStorable(s.parts) && Serialize(s, bufLen).Some?
    ensures var buf := Serialize(s, bufLen).value;
      Parse(buf) == Loaded(Restored(s, |buf|)) <==> NoEquals(s.env) && CommonCarries(s.parts)
  {
    hide Guarded, Parse, LoadEnv, Bank, CommonData, Carried, AllSettable, Printed, EnsureCommon, Reread, Distinct, NoEquals;
    ParsesAs(s, bufLen);
    if Target(s.parts).value.data != [] {
      RereadRestores(s.env);
    } else {
      EmptyTarget(s);
      NoNames();
      assert Unflagged([]) == [];
      var kept := NonEmpty(EnsureCommon(s.parts).value);
      if FoundAgain(s.parts).Some? {
        KeptHasData(EnsureCommon(s.parts).value, FindCommon(kept));
        ReadsNothing(FoundAgain(s.parts).value.data);
      } else {
        FreshHasCommon();
      }
    }
  }

  lemma NoNames()
    ensures NoEquals([])
  {
  }

  lemma FreshHasCommon()
    ensures FindCommon(FRESH.parts) < |FRESH.parts|
  {
    assert IsCommon(COMMON_NAME);
  }

  lemma {:induction false} KeptHasData(parts: seq<Part>, i: nat)
    requires i < |NonEmpty(parts)|
    ensures NonEmpty(parts)[i].data != []
    decreases |parts|
  {
    var rest := NonEmpty(parts[1..]);
    if parts[0].data == [] {
      assert NonEmpty(parts) == [] + rest == rest;
      KeptHasData(parts[1..], i);
    } else if i > 0 {
      assert NonEmpty(parts)[i] == rest[i - 1];
      KeptHasData(parts[1..], i - 1);
    }
  }

  // ---------- Printing again ----------

  lemma {:induction false} EnvBytesUnflagged(env: seq<Env>)
    ensures EnvBytes(Unflagged(env)) == EnvBytes(env)
  {
    if env != [] {
      EnvBytesUnflagged(env[1..]);
      assert Unflagged(env)[1..] == Unflagged(env[1..]);
    }
  }

  /** Printing the same variables over their own printed form changes nothing. */
  lemma CommonDataAgain(data: seq<u8>, env: seq<Env>)
    requires CommonData(data, env).Some?
    ensures CommonData(CommonData(data, env).value, Unflagged(env)) == CommonData(data, env)
  {
    hide EnvBytes;
    EnvBytesUnflagged(env);
    var bytes := EnvBytes(env);
    var d := CommonData(data, env).value;
    if |bytes| < |data| {
      assert d[|bytes| + 1..] == data[|bytes| + 1..];
    }
  }

  lemma {:induction false} NonEmptyCarried(parts: seq<Part>)
    requires AllCarried(parts)
    ensures AllCarried(NonEmpty(parts)) && AllStorable(NonEmpty(parts)) && AllStorable(parts)
    ensures PartsBytes(NonEmpty(parts)) == PartsBytes(parts)
    decreases |parts|
  {
    hide PartBytes;
    if parts != [] {
      assert Carried(parts[0]);
      assert AllCarried(parts[1..]);
      NonEmptyCarried(parts[1..]);
      var rest := NonEmpty(parts[1..]);
      if parts[0].data == [] {
        assert NonEmpty(parts) == [] + rest == rest;
      } else {
        assert NonEmpty(parts) == [parts[0]] + rest;
        assert NonEmpty(parts)[1..] == rest;
      }
    }
  }

  lemma SameBank(generation: u32, a: seq<Part>, b: seq<Part>, bankLen: nat)
    requires AllStorable(a) && AllStorable(b) && PartsBytes(a) == PartsBytes(b)
    ensures Bank(generation, a, bankLen) == Bank(generation, b, bankLen)
  {
    hide PartsBytes, FreeBytes, Adler, Header;
  }

  /** Where the round trip restores the state, print, parse, print again gives the same bytes. */
  lemma PrintedAgain(s: Nvram, bufLen: nat, again: nat)
    requires Holdable(s) && AllStorable(s.parts) && Serialize(s, bufLen).Some? && NoEquals(s.env) && CommonCarries(s.parts)
    requires again >= |Serialize(s, bufLen).value|
    ensures var buf := Serialize(s, bufLen).value;
      && Parse(buf).Loaded? && AllStorable(Parse(buf).state.parts)
      && Serialize(Parse(buf).state, again) == Some(buf)
  {
    hide Parse, Bank, CommonData, Carried, AllSettable, PartsBytes, Printed, EnsureCommon, NoEquals;
    PrintedFacts(s);
    RoundTrip(s, bufLen);
    TargetPrinted(s);
    var buf := Serialize(s, bufLen).value;
    var parts := Printed(s).value;
    NonEmptyCarried(parts);
    if Target(s.parts).value.data != [] {
      CommonSurvives(parts);
      CommonDataAgain(Target(s.parts).value.data, s.env);
    } else {
      EmptyTarget(s);
      BlankAgain(FoundAgain(s.parts).value.data);
      assert Unflagged([]) == [];
    }
    RestoredPrints(s, |buf|);
    SameBank(s.generation, parts, NonEmpty(parts), |buf|);
    BankLength(s.generation, parts, PrintedLen(s, bufLen));
  }

  /** Printing no variables over data that holds none changes nothing. */
  lemma BlankAgain(data: seq<u8>)
    requires data != [] && data[0] == 0
    ensures CommonData(data, []) == Some(data)
  {
    assert [] + [0] + data[1..] == data;
  }

  lemma BankLength(generation: u32, parts: seq<Part>, bankLen: nat)
    requires AllStorable(parts) && Bank(generation, parts, bankLen).Some?
    ensures |Bank(generation, parts, bankLen).value| == bankLen >= 0x40
  {
    hide PartsBytes;
  }

  /** The restored partitions print as themselves. */
  lemma RestoredPrints(s: Nvram, n: nat)
    requires AllStorable(s.parts) && Printed(s).Some? && AllStorable(NonEmpty(Printed(s).value))
    requires var r := NonEmpty(Printed(s).value);
      FindCommon(r) < |r| && CommonData(r[FindCommon(r)].data, Unflagged(s.env)) == Some(r[FindCommon(r)].data)
    ensures Printed(Restored(s, n)) == Some(NonEmpty(Printed(s).value))
  {
    hide CommonData;
    var r := NonEmpty(Printed(s).value);
    var at := FindCommon(r);
    assert r[at := r[at].(data := r[at].data)] == r;
  }

  // ---------- States that arise ----------

  /** Setting a plain variable keeps a set of plain, distinct variables. */
  lemma SetKeeps(env: seq<Env>, name: seq<u8>, value: seq<u8>, flags: u32)
    requires AllPlain(env) && Distinct(env) && |env| <= MAX_ENV && Set(env, name, value, flags).Some?
    requires FreeOf(name, 0, EQUALS) && FreeOf(value, 0, 0)
    ensures var r := Set(env, name, value, flags).value; AllPlain(r) && Distinct(r) && |r| <= MAX_ENV
  {
    hide ParseUint, FreeOf;
    var i := FindEnv(env, name);
    var kept := Unset(env, name);
    forall j | 0 <= j < |kept| ensures kept[j] in env && kept[j].name != name {
      if i < |env| {
        assert kept[j] == if j < i then env[j] else env[j + 1];
      }
    }
    UnsetDistinct(env, name);
  }

  /** Setting any variable with strings of bytes other than zero keeps the object in a state it can be in. */
  lemma SetHoldable(s: Nvram, name: seq<u8>, value: seq<u8>, flags: u32)
    requires Holdable(s) && Set(s.env, name, value, flags).Some? && FreeOf(name, 0, 0) && FreeOf(value, 0, 0)
    ensures Holdable(s.(env := Set(s.env, name, value, flags).value))
  {
    hide ParseUint, FreeOf, AllCarried;
    UnsetHoldable(s, name);
    var kept := Unset(s.env, name);
    forall j | 0 <= j < |kept| ensures kept[j].name != name {
      var i := FindEnv(s.env, name);
      if i < |s.env| {
        assert kept[j] == if j < i then s.env[j] else s.env[j + 1];
      }
    }
  }

  lemma UnsetHoldable(s: Nvram, name: seq<u8>)
    requires Holdable(s)
    ensures Holdable(s.(env := Unset(s.env, name)))
  {
    hide Settable, AllCarried;
    UnsetDistinct(s.env, name);
    var i := FindEnv(s.env, name);
    var kept := Unset(s.env, name);
    forall j | 0 <= j < |kept| ensures Settable(kept[j]) {
      if i < |s.env| {
        assert kept[j] == if j < i then s.env[j] else s.env[j + 1];
      }
    }
  }

  lemma PrintableIsHoldable(s: Nvram)
    requires Printable(s)
    ensures Holdable(s)
  {
    hide AllCarried, AllPlain, AllSettable;
    PlainIsSettable(s.env);
  }

  lemma UnsetDistinct(env: seq<Env>, name: seq<u8>)
    requires Distinct(env)
    ensures Distinct(Unset(env, name))
  {
    var i := FindEnv(env, name);
    var kept := Unset(env, name);
    if i < |env| {
      forall j, k | 0 <= j < k < |kept| ensures kept[j].name != kept[k].name {
        assert kept[j] == if j < i then env[j] else env[j + 1];
        assert kept[k] == if k < i then env[k] else env[k + 1];
      }
    }
  }

  /** The variables read from any data are ones a bank can carry. */
  lemma {:induction false} LoadedPlain(data: seq<u8>, env: seq<Env>)
    requires AllPlain(env) && Distinct(env) && |env| <= MAX_ENV && LoadEnv(data, env).Some?
    ensures var r := LoadEnv(data, env).value; AllPlain(r) && Distinct(r) && |r| <= MAX_ENV
    decreases |data|
  {
    hide AllPlain, Distinct, Set;
    if data != [] && data[0] != 0 {
      var n := RunLength(data, 0, EQUALS);
      var rest := data[n + 1..];
      var v := RunLength(rest, 0, 0);
      PrefixFree(data, n, 0, EQUALS);
      PrefixFree(rest, v, 0, 0);
      SetKeeps(env, data[..n], rest[..v], 0);
      LoadedPlain(rest[v + 1..], Set(env, data[..n], rest[..v], 0).value);
    }
  }

  lemma PrefixFree(s: seq<u8>, n: nat, a: u8, b: u8)
    requires n <= |s| && forall i :: 0 <= i < n ==> s[i] != a && s[i] != b
    ensures FreeOf(s[..n], a, b)
  {
  }

  /** A partition the walk takes is one a bank can carry. */
  lemma TakenCarried(buf: seq<u8>, offset: nat, units: nat)
    requires offset + 16 <= |buf| && Look(buf, offset) == Partition(units)
    requires PartAt(buf, offset, units).name != PANIC_NAME && |PartAt(buf, offset, units).data| <= COMMON_LEN
    ensures Carried(PartAt(buf, offset, units))
  {
    hide Checksum;
    assert |PartAt(buf, offset, units).data| == 0x10 * (units - 1);
    assert buf[offset..offset + 16][0] == buf[offset];
  }

  /** The partitions read from any bank are ones a bank can carry. */
  lemma {:induction false} ParsedCarried(buf: seq<u8>, offset: nat, parts: seq<Part>)
    requires AllCarried(parts) && |parts| <= MAX_PARTS && ParseParts(buf, offset, parts).Some?
    ensures var r := ParseParts(buf, offset, parts).value; AllCarried(r) && |r| <= MAX_PARTS
    decreases |buf| - offset
  {
    hide Look, PartAt, Carried;
    if offset + 16 <= |buf| {
      var seen := Look(buf, offset);
      if seen.Partition? && |parts| < MAX_PARTS {
        var part := PartAt(buf, offset, seen.units);
        if part.name == PANIC_NAME {
          ParsedCarried(buf, offset + seen.units * 0x10, parts);
        } else if |part.data| <= COMMON_LEN {
          TakenCarried(buf, offset, seen.units);
          ParsedCarried(buf, offset + seen.units * 0x10, parts + [part]);
        }
      }
    }
  }

  /** Whatever is loaded from a bank can be printed: every loaded state is one a bank can carry. */
  lemma LoadedIsPrintable(buf: seq<u8>)
    requires Parse(buf).Loaded?
    ensures Printable(Parse(buf).state) && AllStorable(Parse(buf).state.parts)
  {
    hide Guarded, Checksum, LoadEnv, ParseParts;
    FreshCarried();
    ParsedCarried(buf, 0x20, []);
    var parts := ParseParts(buf, 0x20, []).value;
    if FindCommon(parts) < |parts| {
      LoadedPlain(parts[FindCommon(parts)].data, []);
    }
    CarriedStorable(Parse(buf).state.parts);
  }

  // ---------- Where the round trip fails ----------

  /**
   * Every variable whose name holds an equals sign comes back split at the first one: under the shorter name,
   * replacing what had that name, or refused when nothing precedes the sign or the longer value does not fit.
   */
  lemma EqualsInName(e: Env, k: nat, rest: seq<u8>, acc: seq<Env>)
    requires Settable(e) && k < |e.name| && e.name[k] == EQUALS && EQUALS !in e.name[..k]
    ensures var value := e.name[k + 1..] + [EQUALS] + e.value;
      LoadEnv(Entry(e) + rest, acc)
      == if k == 0 || |value| >= VALUE_MAX || |Unset(acc, e.name[..k])| >= MAX_ENV then None
         else LoadEnv(rest, Unset(acc, e.name[..k]) + [Env(e.name[..k], value, 0, ParseUint(value))])
  {
    hide LoadEnv, Unset, ParseUint;
    forall i | 0 <= i < k ensures e.name[..k][i] != EQUALS {
      assert e.name[..k][i] in e.name[..k];
    }
    RunLengthAt(e.name, k, EQUALS, EQUALS);
    SplitLoads(e, rest, acc);
  }

  /**
   * An empty first common partition is not printed. Without another one the bank reloads as a fresh one and the
   * generation is lost; otherwise the variables are whatever the next common partition holds.
   */
  lemma EmptyCommonForgets(s: Nvram, bufLen: nat)
    requires Holdable(s) && AllStorable(s.parts) && Serialize(s, bufLen).Some?
    requires Target(s.parts).Some? && Target(s.parts).value.data == []
    ensures var buf := Serialize(s, bufLen).value;
      var found := FoundAgain(s.parts);
      s.env == []
      && Parse(buf) == if found.None? then Loaded(FRESH)
                       else if LoadEnv(found.value.data, []).None? then Emptied
                       else Loaded(Nvram(LoadEnv(found.value.data, []).value, NonEmpty(EnsureCommon(s.parts).value), |buf|, s.generation))
  {
    hide Parse, LoadEnv, Printed, EnsureCommon, Bank, Holdable;
    ParsesAs(s, bufLen);
    EmptyTarget(s);
  }
}
