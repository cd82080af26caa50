/** The NVRAM object (devices/nvram_v1.c): variables edited in place, banks parsed and printed by loops. */
module NvramDevice {
  import opened Basics
  import opened LittleEndian
  import opened NvramImage
  import opened NvramProofs

  // ---------- Checksums and numbers ----------

  method HeaderChecksum(h: seq<u8>) returns (sum: u8)
    requires |h| == 16
    ensures sum == Checksum(h)
  {
    sum := h[0];
    var i := 0;
    while i < 14
      invariant 0 <= i <= 14 && sum == ChecksumUpTo(h, i)
    {
      sum := CarryStep(sum, h[2 + i]);
      i := i + 1;
    }
  }

  lemma {:induction false} SumsAppend(s: (nat, nat), bytes: seq<u8>, b: u8)
    ensures AdlerSums(s, bytes + [b]) == AdlerStep(AdlerSums(s, bytes), b)
    decreases |bytes|
  {
    hide AdlerStep;
    if bytes == [] {
      assert ([] + [b])[1..] == [];
    } else {
      assert (bytes + [b])[1..] == bytes[1..] + [b];
      SumsAppend(AdlerStep(s, bytes[0]), bytes[1..], b);
    }
  }

  method ComputeAdler(bytes: seq<u8>) returns (adler: nat)
    ensures adler == Adler(bytes)
  {
    var s1, s2 := 1, 0;
    var i := 0;
    while i < |bytes|
      invariant 0 <= i <= |bytes| && s1 >= 0 && s2 >= 0 && (s1, s2) == AdlerSums((1, 0), bytes[..i])
    {
      SumsAppend((1, 0), bytes[..i], bytes[i]);
      assert bytes[..i] + [bytes[i]] == bytes[..i + 1];
      s1 := (s1 + bytes[i]) % ADLER_MOD;
      s2 := (s2 + s1) % ADLER_MOD;
      i := i + 1;
    }
    assert bytes[..i] == bytes;
    adler := s2 * 0x1_0000 + s1;
  }

  method ParseNumber(value: seq<u8>) returns (v: u32)
    ensures v == ParseUint(value)
  {
    var base, i := 10, 0;
    if |value| >= 2 && value[0] == 48 && (value[1] == 120 || value[1] == 88) {
      base, i := 16, 2;
    }
    v := 0;
    while i < |value| && DigitValue(value[i], base).Some?
      invariant 0 <= i <= |value| && (base == 10 || base == 16)
      invariant Digits(value[i..], base, v) == ParseUint(value)
      decreases |value| - i
    {
      assert value[i..][1..] == value[i + 1..];
      v := (v * base + DigitValue(value[i], base).value) % 0x1_0000_0000;
      i := i + 1;
    }
  }

  // ---------- Buffers ----------

  /** Copies bytes into a buffer, leaving the rest alone. */
  method WriteAt(buf: array<u8>, at: nat, bytes: seq<u8>)
    requires at + |bytes| <= buf.Length
    modifies buf
    ensures buf[..] == old(buf[..at]) + bytes + old(buf[at + |bytes|..])
  {
    var i := 0;
    while i < |bytes|
      invariant 0 <= i <= |bytes|
      invariant forall j :: 0 <= j < i ==> buf[at + j] == bytes[j]
      invariant forall j :: 0 <= j < buf.Length && !(at <= j < at + i) ==> buf[j] == old(buf[j])
    {
      buf[at + i] := bytes[i];
      i := i + 1;
    }
  }

  method FillZero(buf: array<u8>, n: nat)
    requires n <= buf.Length
    modifies buf
    ensures buf[..] == Zeros(n) + old(buf[n..])
  {
    var i := 0;
    while i < n
      invariant 0 <= i <= n
      invariant forall j :: 0 <= j < i ==> buf[j] == 0
      invariant forall j :: n <= j < buf.Length ==> buf[j] == old(buf[j])
    {
      buf[i] := 0;
      i := i + 1;
    }
  }

  // ---------- Printing ----------

  lemma {:induction false} PartsAppend(parts: seq<Part>, p: Part)
    requires AllStorable(parts) && Storable(p)
    ensures PartsBytes(parts + [p]) == PartsBytes(parts) + (if p.data == [] then [] else PartBytes(p))
    decreases |parts|
  {
    hide PartBytes, Storable;
    if parts == [] {
      assert (parts + [p])[1..] == [];
    } else {
      assert (parts + [p])[1..] == parts[1..] + [p];
      PartsAppend(parts[1..], p);
    }
  }

  lemma {:induction false} PartsPrefix(parts: seq<Part>, i: nat)
    requires AllStorable(parts) && i <= |parts|
    ensures |PartsBytes(parts[..i])| <= |PartsBytes(parts)|
    decreases |parts| - i
  {
    hide PartBytes, Storable;
    if i == |parts| {
      assert parts[..i] == parts;
    } else {
      PartsPrefix(parts, i + 1);
      assert parts[..i + 1] == parts[..i] + [parts[i]];
      PartsAppend(parts[..i], parts[i]);
    }
  }

  /** What a bank being printed holds so far: its head, then zeros. */
  predicate Partial(content: seq<u8>, bankLen: nat, head: seq<u8>)
  {
    |head| <= bankLen <= |content| && content[..bankLen] == head + Zeros(bankLen - |head|)
  }

  /** Writing where the zeros start extends the head. */
  lemma Extends(before: seq<u8>, after: seq<u8>, bankLen: nat, head: seq<u8>, bytes: seq<u8>)
    requires Partial(before, bankLen, head) && |head| + |bytes| <= bankLen
    requires after == before[..|head|] + bytes + before[|head| + |bytes|..]
    ensures Partial(after, bankLen, head + bytes) && after[bankLen..] == before[bankLen..]
  {
    var n := |head| + |bytes|;
    assert before[..bankLen][..|head|] == before[..|head|];
    assert before[n..bankLen] == before[..bankLen][n..] == Zeros(bankLen - n);
    assert after[..bankLen] == head + bytes + before[n..bankLen];
  }

  /** Zeros after the head may be counted into it. */
  lemma Pads(content: seq<u8>, bankLen: nat, head: seq<u8>, n: nat)
    requires Partial(content, bankLen, head) && |head| + n <= bankLen
    ensures Partial(content, bankLen, head + Zeros(n))
  {
    assert head + Zeros(bankLen - |head|) == head + Zeros(n) + Zeros(bankLen - |head| - n);
  }

  lemma UnitsCover(n: nat)
    ensures 0x10 * Units(n) >= n + 0x10
  {
  }

  lemma RegroupPart(head: seq<u8>, a: seq<u8>, b: seq<u8>, c: seq<u8>)
    ensures head + a + b + c == head + (a + b + c)
  {
  }

  /** Prints one partition at the end of the head. */
  method PrintPart(buf: array<u8>, bankLen: nat, ghost head: seq<u8>, offset: nat, p: Part)
    requires offset == |head| && Partial(buf[..], bankLen, head) && Storable(p) && p.data != []
    requires offset + 0x10 * Units(|p.data|) <= bankLen
    modifies buf
    ensures Partial(buf[..], bankLen, head + PartBytes(p)) && buf[bankLen..] == old(buf[bankLen..])
  {
    hide Header, Partial, Units;
    UnitsCover(|p.data|);
    var units := Units(|p.data|);
    ghost var b0 := buf[..];
    PartialLength(b0, bankLen, head);
    WriteAt(buf, offset, Header(p.sig, units, p.name));
    ghost var b1 := buf[..];
    Extends(b0, b1, bankLen, head, Header(p.sig, units, p.name));
    WriteAt(buf, offset + 0x10, p.data);
    ghost var b2 := buf[..];
    ghost var head1 := head + Header(p.sig, units, p.name);
    Extends(b1, b2, bankLen, head1, p.data);
    Pads(b2, bankLen, head1 + p.data, 0x10 * units - 0x10 - |p.data|);
    var pad := Zeros(0x10 * units - 0x10 - |p.data|);
    RegroupPart(head, Header(p.sig, units, p.name), p.data, pad);
    assert buf[bankLen..] == b2[bankLen..] == b1[bankLen..] == b0[bankLen..];
  }

  lemma PartialLength(content: seq<u8>, bankLen: nat, head: seq<u8>)
    requires Partial(content, bankLen, head)
    ensures |head| <= bankLen <= |content|
  {
  }

  /** Prints the partitions; false when one does not fit. */
  method PrintParts(buf: array<u8>, bankLen: nat, ghost head: seq<u8>, parts: seq<Part>) returns (ok: bool, offset: nat)
    requires |head| == 0x20 && Partial(buf[..], bankLen, head) && AllStorable(parts)
    modifies buf
    ensures ok <==> 0x20 + |PartsBytes(parts)| <= bankLen
    ensures ok ==> offset == 0x20 + |PartsBytes(parts)| && Partial(buf[..], bankLen, head + PartsBytes(parts))
    ensures buf[bankLen..] == old(buf[bankLen..])
  {
    hide Partial, PartBytes;
    offset := 0x20;
    ok := true;
    var i := 0;
    PartialLength(buf[..], bankLen, head);
    assert head + PartsBytes(parts[..0]) == head;
    while i < |parts|
      invariant 0 <= i <= |parts| && offset == 0x20 + |PartsBytes(parts[..i])|
      invariant Partial(buf[..], bankLen, head + PartsBytes(parts[..i]))
      invariant bankLen <= buf.Length && buf[bankLen..] == old(buf[bankLen..])
    {
      assert parts[..i + 1] == parts[..i] + [parts[i]];
      PartsAppend(parts[..i], parts[i]);
      PartsPrefix(parts, i + 1);
      if parts[i].data != [] {
        var total := 0x10 * Units(|parts[i].data|);
        if offset + 0x10 > bankLen || offset + total > bankLen {
          return false, offset;
        }
        PrintPart(buf, bankLen, head + PartsBytes(parts[..i]), offset, parts[i]);
        assert head + PartsBytes(parts[..i]) + PartBytes(parts[i]) == head + PartsBytes(parts[..i + 1]);
        offset := offset + total;
      } else {
        assert PartsBytes(parts[..i + 1]) == PartsBytes(parts[..i]);
      }
      i := i + 1;
    }
    assert parts[..i] == parts;
    PartialLength(buf[..], bankLen, head + PartsBytes(parts));
  }

  /** The head of a bank whose sum is still blank. */
  function BlankHead(generation: u32): (h: seq<u8>)
    ensures |h| == 0x20
  {
    Header(BANK_SIG, 2, BANK_NAME) + Zeros(4) + Encode(generation, 4) + Zeros(8)
  }

  method PrintHead(buf: array<u8>, bankLen: nat, generation: u32)
    requires 0x40 <= bankLen <= buf.Length
    modifies buf
    ensures Partial(buf[..], bankLen, BlankHead(generation)) && buf[bankLen..] == old(buf[bankLen..])
  {
    hide Header, Partial, Encode;
    FillZero(buf, bankLen);
    ghost var b0 := buf[..];
    var first := Header(BANK_SIG, 2, BANK_NAME);
    StartsBlank(b0, bankLen);
    WriteAt(buf, 0, first);
    ghost var b1 := buf[..];
    Extends(b0, b1, bankLen, [], first);
    assert [] + first == first;
    Pads(b1, bankLen, first, 4);
    WriteAt(buf, 0x14, Encode(generation, 4));
    ghost var b2 := buf[..];
    Extends(b1, b2, bankLen, first + Zeros(4), Encode(generation, 4));
    Pads(b2, bankLen, first + Zeros(4) + Encode(generation, 4), 8);
    assert buf[bankLen..] == b2[bankLen..] == b1[bankLen..] == b0[bankLen..];
  }

  /** The sum of everything after it is written into its four blank bytes. */
  method PrintSum(buf: array<u8>, bankLen: nat, ghost first: seq<u8>, ghost tail: seq<u8>)
    requires bankLen <= buf.Length && |first| == 0x10 && bankLen == 0x14 + |tail|
    requires buf[..bankLen] == first + Zeros(4) + tail
    modifies buf
    ensures buf[..bankLen] == first + Encode(Adler(tail), 4) + tail && buf[bankLen..] == old(buf[bankLen..])
  {
    hide Adler, Encode;
    ghost var before := buf[..];
    assert buf[0x14..bankLen] == buf[..bankLen][0x14..] == tail;
    var sum := ComputeAdler(buf[0x14..bankLen]);
    WriteAt(buf, 0x10, Encode(sum, 4));
    SumPlaced(before, buf[..], bankLen, first, tail, Encode(sum, 4));
  }

  lemma SumPlaced(before: seq<u8>, after: seq<u8>, bankLen: nat, first: seq<u8>, tail: seq<u8>, sum: seq<u8>)
    requires bankLen <= |before| && |first| == 0x10 && |sum| == 4 && bankLen == 0x14 + |tail|
    requires before[..bankLen] == first + Zeros(4) + tail && after == before[..0x10] + sum + before[0x14..]
    ensures after[..bankLen] == first + sum + tail && after[bankLen..] == before[bankLen..]
  {
    assert before[..0x10] == before[..bankLen][..0x10] == first;
    assert before[0x14..bankLen] == before[..bankLen][0x14..] == tail;
    assert after[..bankLen] == before[..0x10] + sum + before[0x14..bankLen];
  }

  lemma TailLayout(generation: u32, parts: seq<Part>, bankLen: nat)
    requires AllStorable(parts) && 0x20 + |PartsBytes(parts)| <= bankLen
    ensures BlankHead(generation) + PartsBytes(parts) + FreeBytes(bankLen - 0x20 - |PartsBytes(parts)|)
      == Header(BANK_SIG, 2, BANK_NAME) + Zeros(4) + Tail(generation, parts, bankLen)
  {
    hide Header, PartsBytes, FreeBytes, Encode;
    RegroupBank(Header(BANK_SIG, 2, BANK_NAME), Zeros(4), Encode(generation, 4), Zeros(8), PartsBytes(parts),
      FreeBytes(bankLen - 0x20 - |PartsBytes(parts)|));
    var a, b, c, d := Header(BANK_SIG, 2, BANK_NAME), Zeros(4), Encode(generation, 4), Zeros(8);
    assert a + b + c + d == a + b + (c + d);
  }

  /** Prints a whole bank; the sum is taken last, over everything after it. */
  method PrepareBank(buf: array<u8>, bankLen: nat, generation: u32, parts: seq<Part>) returns (ok: bool)
    requires bankLen <= buf.Length && AllStorable(parts)
    modifies buf
    ensures ok == Bank(generation, parts, bankLen).Some?
    ensures ok ==> buf[..bankLen] == Bank(generation, parts, bankLen).value
    ensures buf[bankLen..] == old(buf[bankLen..])
  {
    hide Header, Partial, PartsBytes, FreeBytes, Adler, Encode, BlankHead, Tail, AllStorable;
    if bankLen < 0x40 {
      return false;
    }
    PrintHead(buf, bankLen, generation);
    var offset;
    ok, offset := PrintParts(buf, bankLen, BlankHead(generation), parts);
    if !ok {
      return;
    }
    PrintFree(buf, bankLen, BlankHead(generation) + PartsBytes(parts), offset);
    TailLayout(generation, parts, bankLen);
    WholeContent(buf[..], bankLen, Header(BANK_SIG, 2, BANK_NAME) + Zeros(4) + Tail(generation, parts, bankLen));
    PrintSum(buf, bankLen, Header(BANK_SIG, 2, BANK_NAME), Tail(generation, parts, bankLen));
  }

  lemma StartsBlank(content: seq<u8>, bankLen: nat)
    requires bankLen <= |content| && content == Zeros(bankLen) + content[bankLen..]
    ensures Partial(content, bankLen, [])
  {
    assert content[..bankLen] == [] + Zeros(bankLen);
  }

  lemma WholeContent(content: seq<u8>, bankLen: nat, head: seq<u8>)
    requires Partial(content, bankLen, head) && |head| == bankLen
    ensures content[..bankLen] == head
  {
    assert head + Zeros(0) == head;
  }

  /** The free partition, when there is room for its header. */
  method PrintFree(buf: array<u8>, bankLen: nat, ghost head: seq<u8>, offset: nat)
    requires offset == |head| && Partial(buf[..], bankLen, head)
    modifies buf
    ensures |head| <= bankLen <= buf.Length
    ensures Partial(buf[..], bankLen, head + FreeBytes(bankLen - offset)) && buf[bankLen..] == old(buf[bankLen..])
  {
    hide Header, Partial;
    ghost var b0 := buf[..];
    PartialLength(b0, bankLen, head);
    var room := bankLen - offset;
    if room >= 0x10 {
      var free := Header(FREE_SIG, room / 0x10, Zeros(12));
      WriteAt(buf, offset, free);
      Extends(b0, buf[..], bankLen, head, free);
      Pads(buf[..], bankLen, head + free, room - 0x10);
      assert head + free + Zeros(room - 0x10) == head + FreeBytes(room);
      assert buf[bankLen..] == buf[..][bankLen..] == b0[bankLen..];
    } else {
      Pads(b0, bankLen, head, room);
    }
  }

  // ---------- The object ----------

  class Device {
    var env: seq<Env>
    var parts: seq<Part>
    var bankLen: nat
    var generation: u32

    ghost function Contents(): (nvram: Nvram)
      reads this
    {
      Nvram(env, parts, bankLen, generation)
    }

    constructor ()
      ensures Contents() == FRESH && Holdable(Contents())
    {
      env, parts, bankLen, generation := [], [Part(COMMON_SIG, COMMON_NAME, Zeros(COMMON_LEN))], BANK_MAX, 0;
      new;
      FreshCarried();
      PrintableIsHoldable(FRESH);
    }

    method Find(name: seq<u8>) returns (i: nat)
      ensures i == FindEnv(env, name)
    {
      i := 0;
      while i < |env| && env[i].name != name
        invariant 0 <= i <= |env| && forall j :: 0 <= j < i ==> env[j].name != name
      {
        i := i + 1;
      }
    }

    method EnvUnset(name: seq<u8>) returns (removed: bool)
      modifies this`env
      ensures env == Unset(old(env), name) && removed == (FindEnv(old(env), name) < |old(env)|)
      ensures old(Holdable(Contents())) ==> Holdable(Contents())
    {
      hide Holdable;
      if Holdable(Contents()) { UnsetHoldable(Contents(), name); }
      var i := Find(name);
      removed := i < |env|;
      if removed {
        env := env[..i] + env[i + 1..];
      }
    }

    /** Strings of the wrong length are refused; a full table refuses a new name. */
    method EnvSet(name: seq<u8>, value: seq<u8>, flags: u32) returns (ok: bool)
      requires |env| <= MAX_ENV
      modifies this`env
      ensures ok == Set(old(env), name, value, flags).Some?
      ensures env == if ok then Set(old(env), name, value, flags).value else old(env)
      ensures old(Holdable(Contents())) && FreeOf(name, 0, 0) && FreeOf(value, 0, 0) ==> Holdable(Contents())
    {
      hide ParseUint, Holdable, FreeOf;
      if Holdable(Contents()) && FreeOf(name, 0, 0) && FreeOf(value, 0, 0) && Set(env, name, value, flags).Some? {
        SetHoldable(Contents(), name, value, flags);
      }
      if name == [] || |name| >= NAME_MAX || |value| >= VALUE_MAX {
        return false;
      }
      var removed := EnvUnset(name);
      if |env| >= MAX_ENV {
        return false;
      }
      var parsed := ParseNumber(value);
      env := env + [Env(name, value, flags, parsed)];
      ok := true;
    }

    /** Reads the variables; false when the text is malformed. */
    method LoadEnvironment(data: seq<u8>) returns (ok: bool)
      modifies this`env
      ensures ok == LoadEnv(data, []).Some?
      ensures ok ==> env == LoadEnv(data, []).value
    {
      env := [];
      var cnt := 0;
      assert data[0..] == data;
      while cnt < |data| && data[cnt] != 0
        invariant 0 <= cnt <= |data| && |env| <= MAX_ENV
        invariant LoadEnv(data[cnt..], env) == LoadEnv(data, [])
        decreases |data| - cnt
      {
        hide RunLength, Set;
        var left := data[cnt..];
        var n := RunLength(left, 0, EQUALS);
        if n >= |left| || left[n] != EQUALS {
          return false;
        }
        var rest := left[n + 1..];
        var v := RunLength(rest, 0, 0);
        if v >= |rest| || n >= NAME_MAX || v >= VALUE_MAX {
          return false;
        }
        ghost var before := env;
        SetBounded(env, left[..n], rest[..v]);
        var stored := EnvSet(left[..n], rest[..v], 0);
        if !stored {
          return false;
        }
        cnt := cnt + n + 1 + v + 1;
        assert data[cnt..] == rest[v + 1..];
      }
      ok := true;
    }

    /** Walks the partition headers; false when one is malformed. */
    method ParsePartitions(buf: seq<u8>) returns (ok: bool)
      requires |buf| >= 0x20
      modifies this`parts
      ensures ok == ParseParts(buf, 0x20, []).Some?
      ensures ok ==> parts == ParseParts(buf, 0x20, []).value
    {
      hide Look;
      parts := [];
      var offset := 0x20;
      while offset + 16 <= |buf|
        invariant ParseParts(buf, offset, parts) == ParseParts(buf, 0x20, [])
        decreases |buf| - offset
      {
        var seen := Look(buf, offset);
        if seen.Bad? {
          return false;
        }
        if seen.Free? {
          break;
        }
        if |parts| >= MAX_PARTS {
          return false;
        }
        var part := PartAt(buf, offset, seen.units);
        if part.name != PANIC_NAME {
          if |part.data| > COMMON_LEN {
            return false;
          }
          parts := parts + [part];
        }
        offset := offset + seen.units * 0x10;
      }
      ok := true;
    }

    /** Loads a bank; a refused one leaves the object alone, a malformed one empties it. */
    method ParseBank(buf: seq<u8>) returns (ok: bool)
      modifies this
      ensures ok == Parse(buf).Loaded?
      ensures Parse(buf).Refused? ==> Contents() == old(Contents())
      ensures Parse(buf).Emptied? ==> Contents() == Nvram([], [], 0, 0)
      ensures !Parse(buf).Refused? ==> Holdable(Contents())
      ensures ok ==> Contents() == Parse(buf).state && Printable(Contents())
    {
      hide Checksum, Adler, ParseParts, LoadEnv, Assemble, Holdable;
      if |buf| < 0x20 {
        return false;
      }
      var sum := HeaderChecksum(buf[..16]);
      if buf[1] != sum {
        return false;
      }
      var adler := ComputeAdler(buf[0x14..]);
      if adler != Assemble(buf[0x10..0x14]) {
        return false;
      }
      FourBytes(buf[0x14..0x18]);
      if Parse(buf).Loaded? {
        LoadedIsPrintable(buf);
        PrintableIsHoldable(Parse(buf).state);
      }
      PrintableIsHoldable(Nvram([], [], 0, 0));
      env, bankLen, generation := [], |buf|, Assemble(buf[0x14..0x18]);
      ok := ParsePartitions(buf);
      if !ok {
        env, parts, bankLen, generation := [], [], 0, 0;
        return;
      }
      var at := FindCommon(parts);
      if at >= |parts| {
        env, parts, bankLen, generation := [], [Part(COMMON_SIG, COMMON_NAME, Zeros(COMMON_LEN))], BANK_MAX, 0;
        return;
      }
      ok := LoadEnvironment(parts[at].data);
      if !ok {
        env, parts, bankLen, generation := [], [], 0, 0;
      }
    }

    /** Prints into a buffer, through a scratch copy that leaves the object alone. */
    method SerializeTo(buf: array<u8>) returns (written: Option<nat>)
      requires AllStorable(parts)
      modifies buf
      ensures written.Some? <==> Serialize(Contents(), buf.Length).Some?
      ensures written.Some? ==> written.value <= buf.Length && buf[..written.value] == Serialize(Contents(), buf.Length).value
    {
      hide Bank, CommonData, Storable;
      if buf.Length == 0 {
        return None;
      }
      var scratch := Printed(Nvram(env, parts, bankLen, generation));
      if scratch.None? {
        return None;
      }
      var n := if bankLen == 0 || bankLen > buf.Length then buf.Length else bankLen;
      var ok := PrepareBank(buf, n, generation, scratch.value);
      written := if ok then Some(n) else None;
    }
  }

  lemma SetBounded(env: seq<Env>, name: seq<u8>, value: seq<u8>)
    requires |env| <= MAX_ENV
    ensures Set(env, name, value, 0).Some? ==> |Set(env, name, value, 0).value| <= MAX_ENV
  {
    hide ParseUint;
  }
}
